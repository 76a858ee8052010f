/** Resuming: the walk back from the confirmed milestone to one that the blockchain already contains. */
module Resume {
  import opened ByteStrings
  import opened Committees
  import opened AppData
  import opened Parents
  import opened Blocks
  import opened Chains
  import opened Abci
  import opened Broadcasts
  import opened AppStates
  import opened Coordinators

  /** What looking at a milestone says: that it is too new for the blockchain, or how the walk ends. */
  datatype Verdict =
    | TooNew
    | Compatible(ms: Milestone)
    | InvalidMetadata
    | NotRetrieved

  datatype Outcome = NoTendermintState | NoMilestone | Failed(verdict: Verdict) | Resumed(ms: Milestone)

  function Look(height: int64, found: Option<Milestone>): Verdict {
    match found
    case None => NotRetrieved
    case Some(ms) =>
      match NewStateFromMilestone(ms.essence)
      case None => InvalidMetadata
      case Some(state) => if height >= state.milestoneHeight then Compatible(ms) else TooNew
  }

  function Lookup(store: map<uint32, Milestone>, index: uint32): Option<Milestone> {
    if index in store then Some(store[index]) else None
  }

  /** The milestone `d` steps before the confirmed one. */
  function Before(confirmed: Milestone, store: map<uint32, Milestone>, d: nat): Option<Milestone> {
    if d == 0 then Some(confirmed) else Lookup(store, (confirmed.essence.index - d) % TWO_32)
  }

  /** The node returns the milestone that it was asked for. */
  predicate Indexed(store: map<uint32, Milestone>) {
    forall index | index in store :: store[index].essence.index == index
  }

  /** The walk ends after `d` steps, and not before. */
  ghost predicate EndsAfter(height: int64, confirmed: Milestone, store: map<uint32, Milestone>, d: nat) {
    && !Look(height, Before(confirmed, store, d)).TooNew?
    && forall k: nat | k < d :: Look(height, Before(confirmed, store, k)).TooNew?
  }

  /** Some index is where the walk ends at the latest. */
  ghost predicate HasEnd(height: int64, store: map<uint32, Milestone>) {
    exists base: uint32 :: !Look(height, Lookup(store, base)).TooNew?
  }

  lemma Distance(index: uint32, base: uint32) returns (d: nat)
    ensures 0 < d <= TWO_32 && (index - d) % TWO_32 == base
    ensures d == if base < index then index - base else index - base + TWO_32
  {
    d := if base < index then index - base else index - base + TWO_32;
  }

  lemma {:induction false} FirstEnd(height: int64, confirmed: Milestone, store: map<uint32, Milestone>, n: nat)
    returns (d: nat)
    requires !Look(height, Before(confirmed, store, n)).TooNew?
    ensures d <= n && EndsAfter(height, confirmed, store, d)
  {
    hide Look, Before;
    if k: nat :| k < n && !Look(height, Before(confirmed, store, k)).TooNew? {
      d := FirstEnd(height, confirmed, store, k);
    } else {
      d := n;
    }
  }

  /** The walk ends exactly if the confirmed milestone is old enough, or some index is missing, malformed or old
      enough. Otherwise it would go round all the 2^32 indices forever. */
  lemma WalkEnds(height: int64, confirmed: Milestone, store: map<uint32, Milestone>)
    ensures (exists d: nat :: EndsAfter(height, confirmed, store, d)) <==>
      !Look(height, Some(confirmed)).TooNew? || HasEnd(height, store)
  {
    hide Look;
    if !Look(height, Some(confirmed)).TooNew? {
      var d := FirstEnd(height, confirmed, store, 0);
    } else if HasEnd(height, store) {
      var base: uint32 :| !Look(height, Lookup(store, base)).TooNew?;
      var n := Distance(confirmed.essence.index, base);
      var d := FirstEnd(height, confirmed, store, n);
    } else if d: nat :| EndsAfter(height, confirmed, store, d) {
      EndHasIndex(height, confirmed, store, d);
    }
  }

  lemma EndHasIndex(height: int64, confirmed: Milestone, store: map<uint32, Milestone>, d: nat)
    requires EndsAfter(height, confirmed, store, d)
    ensures !Look(height, Some(confirmed)).TooNew? || HasEnd(height, store)
  {
    hide Look;
    if d > 0 {
      assert !Look(height, Lookup(store, (confirmed.essence.index - d) % TWO_32)).TooNew?;
    }
  }

  /** Finds the milestone to resume from. */
  method FindMilestone(height: int64, confirmed: Milestone, store: map<uint32, Milestone>) returns (r: Verdict)
    requires Indexed(store)
    requires !Look(height, Some(confirmed)).TooNew? || HasEnd(height, store)
    ensures exists d: nat :: EndsAfter(height, confirmed, store, d) && r == Look(height, Before(confirmed, store, d))
  {
    hide Before, NewStateFromMilestone, HasEnd, PreviousUint32, IsBack;
    WalkEnds(height, confirmed, store);
    ghost var end: nat :| EndsAfter(height, confirmed, store, end);
    var ms := confirmed;
    ghost var d: nat := 0;
    BeforeStart(confirmed, store);
    while true
      invariant d <= end && Before(confirmed, store, d) == Some(ms) && IsBack(confirmed, d, ms)
      invariant forall k: nat | k < d :: Look(height, Before(confirmed, store, k)).TooNew?
      decreases end - d
    {
      var state := NewStateFromMilestone(ms.essence);
      if state.None? {
        assert EndsAfter(height, confirmed, store, d);
        return InvalidMetadata;
      }
      if height >= state.value.milestoneHeight {
        assert EndsAfter(height, confirmed, store, d);
        return Compatible(ms);
      }
      StepBack(confirmed, store, d, ms);
      var previous := PreviousUint32(state.value.milestoneIndex);
      d := d + 1;
      if previous !in store {
        assert EndsAfter(height, confirmed, store, d);
        return NotRetrieved;
      }
      ms := store[previous];
    }
  }

  /** The milestone has the index that is `d` below the one of the confirmed milestone. */
  ghost predicate IsBack(confirmed: Milestone, d: nat, ms: Milestone) {
    ms.essence.index == (confirmed.essence.index - d) % TWO_32
  }

  lemma BeforeStart(confirmed: Milestone, store: map<uint32, Milestone>)
    ensures Before(confirmed, store, 0) == Some(confirmed)
    ensures IsBack(confirmed, 0, confirmed)
  {
  }

  lemma StepBack(confirmed: Milestone, store: map<uint32, Milestone>, d: nat, ms: Milestone)
    requires IsBack(confirmed, d, ms) && Indexed(store)
    ensures Before(confirmed, store, d + 1) == Lookup(store, PreviousUint32(ms.essence.index))
    ensures var previous := PreviousUint32(ms.essence.index);
      previous in store ==> IsBack(confirmed, d + 1, store[previous])
    ensures NewStateFromMilestone(ms.essence).Some? ==>
      NewStateFromMilestone(ms.essence).value.milestoneIndex == ms.essence.index
  {
    hide NewStateFromMilestone, PreviousUint32;
    PreviousIndex(confirmed.essence.index, d);
    StateIndex(ms.essence);
  }

  lemma PreviousIndex(index: uint32, d: nat)
    ensures PreviousUint32((index - d) % TWO_32) == (index - (d + 1)) % TWO_32
  {
  }

  lemma StateIndex(e: Essence)
    ensures NewStateFromMilestone(e).Some? ==> NewStateFromMilestone(e).value.milestoneIndex == e.index
  {
  }

  /** initCoordinatorState without bootstrapping. The state file of Tendermint can be one height ahead of its
      database. */
  method ResumeCoordinator(coordinator: Coordinator, lastSignHeight: nat, confirmed: Option<Milestone>,
                           store: map<uint32, Milestone>)
    returns (r: Outcome, ghost d: nat)
    requires coordinator.Valid() && lastSignHeight < TWO_63 && Indexed(store)
    requires confirmed.Some? && lastSignHeight > 0 ==>
      !Look(lastSignHeight - 1, confirmed).TooNew? || HasEnd(lastSignHeight - 1, store)
    modifies coordinator`epoch, coordinator`registered
    modifies coordinator.checkState, coordinator.deliverState, coordinator.cms
    ensures coordinator.Valid()
    ensures lastSignHeight == 0 <==> r.NoTendermintState?
    ensures lastSignHeight > 0 && confirmed.None? <==> r.NoMilestone?
    ensures r.Failed? || r.Resumed? ==>
      && lastSignHeight > 0 && confirmed.Some? && EndsAfter(lastSignHeight - 1, confirmed.value, store, d)
      && Look(lastSignHeight - 1, Before(confirmed.value, store, d)) ==
        (if r.Failed? then r.verdict else Compatible(r.ms))
    ensures r.Resumed? ==> NewStateFromMilestone(r.ms.essence).Some?
    ensures r.Resumed? ==>
      var state := NewStateFromMilestone(r.ms.essence).value;
      && coordinator.Abstract() == Initialized(coordinator.w, old(coordinator.Abstract()), state)
      && coordinator.cms.info.height == state.milestoneHeight <= lastSignHeight - 1
    ensures r.Resumed? && old(coordinator.Abstract()) == Created() ==>
      NodeInvariant(coordinator.Self(), r.ms.essence.index, coordinator.Abstract())
    ensures !r.Resumed? ==> coordinator.Abstract() == old(coordinator.Abstract())
  {
    hide EndsAfter, HasEnd, Before, Look, NewStateFromMilestone, Initialized, Start, Blocks.Valid, NodeInvariant,
      AppState.MarshalBinary, AppState.Valid;
    d := 0;
    var tendermintHeight := lastSignHeight - 1;
    if tendermintHeight < 0 {
      return NoTendermintState, 0;
    }
    if confirmed.None? {
      return Outcome.NoMilestone, 0;
    }
    var verdict := FindMilestone(tendermintHeight, confirmed.value, store);
    d :| EndsAfter(tendermintHeight, confirmed.value, store, d) &&
      verdict == Look(tendermintHeight, Before(confirmed.value, store, d));
    EndIsNotTooNew(tendermintHeight, confirmed.value, store, d);
    if !verdict.Compatible? {
      return Failed(verdict), d;
    }
    CompatibleState(tendermintHeight, Before(confirmed.value, store, d), verdict.ms);
    ghost var state := NewStateFromMilestone(verdict.ms.essence).value;
    InitializedFacts(coordinator.w, coordinator.Abstract(), state);
    var ok := coordinator.InitState(verdict.ms);
    StartInvariant(coordinator.Self(), state);
    r := Resumed(verdict.ms);
  }

  lemma CompatibleState(height: int64, found: Option<Milestone>, ms: Milestone)
    requires Look(height, found) == Compatible(ms)
    ensures NewStateFromMilestone(ms.essence).Some?
    ensures NewStateFromMilestone(ms.essence).value.milestoneHeight <= height
    ensures NewStateFromMilestone(ms.essence).value.milestoneIndex == ms.essence.index
  {
  }

  lemma InitializedFacts(w: World, s: Node, state: State)
    ensures Initialized(w, s, state).info.height == state.milestoneHeight
    ensures s == Created() ==> Initialized(w, s, state) == Start(w, state)
  {
  }

  lemma EndIsNotTooNew(height: int64, confirmed: Milestone, store: map<uint32, Milestone>, d: nat)
    requires EndsAfter(height, confirmed, store, d)
    ensures !Look(height, Before(confirmed, store, d)).TooNew?
  {
  }

  // ----- on the milestones of a chain -----

  /** The node has the first `m` milestones of the chain, and the m-th of them is the confirmed one. */
  ghost predicate Retrievable(start: uint32, issues: seq<Issue>, m: nat, store: map<uint32, Milestone>)
  {
    && 0 < m <= |issues| && m < TWO_32
    && forall i: nat | i < m :: Lookup(store, (start + i) % TWO_32) == Some(issues[i].milestone)
  }

  /** The i-th milestone tells the state that it was made from. */
  lemma IssueState(w: World, c: Committee, core: Core, issues: seq<Issue>, i: nat)
    requires Linked(w, c, core, issues) && i < |issues|
    ensures NewStateFromMilestone(issues[i].milestone.essence) == Some(LastState(w, core, issues[..i]))
    ensures issues[i].milestone.essence.index == LastState(w, core, issues[..i]).milestoneIndex
  {
    hide NewStateFromMilestone, Verifies, MadeFrom, LastState;
    MadeFromRoundTrip(w, LastState(w, core, issues[..i]), issues[i].milestone.essence);
    MadeFromIndex(w, LastState(w, core, issues[..i]), issues[i].milestone.essence);
  }

  lemma {:induction false} IssueIndex(w: World, c: Committee, core: Core, issues: seq<Issue>, i: nat)
    requires Linked(w, c, core, issues) && i < |issues|
    ensures LastState(w, core, issues[..i]).milestoneIndex == (core.app.state.milestoneIndex + i) % TWO_32
  {
    hide Linked, NewStateFromMilestone, NextUint32, LastState;
    NoIssues(w, core, issues);
    if i > 0 {
      IssueIndex(w, c, core, issues, i - 1);
      IssueState(w, c, core, issues, i - 1);
      LastIssue(w, core, issues, i);
      NextIndex(core.app.state.milestoneIndex + (i - 1), issues[i - 1].milestone.essence.index);
    }
  }

  lemma NoIssues(w: World, core: Core, issues: seq<Issue>)
    ensures LastState(w, core, issues[..0]) == core.app.state
  {
  }

  lemma LastIssue(w: World, core: Core, issues: seq<Issue>, i: nat)
    requires 0 < i <= |issues|
    ensures LastState(w, core, issues[..i]).milestoneIndex == NextUint32(issues[i - 1].milestone.essence.index)
  {
  }

  lemma BackMilestone(start: uint32, issues: seq<Issue>, m: nat, store: map<uint32, Milestone>, i: nat)
    requires Retrievable(start, issues, m, store) && i < m
    requires issues[m - 1].milestone.essence.index == (start + (m - 1)) % TWO_32
    ensures Before(issues[m - 1].milestone, store, m - 1 - i) == Some(issues[i].milestone)
  {
    BackIndex(start, m - 1, m - 1 - i);
  }

  /** Going back from the m-th milestone leads to the i-th one. */
  lemma BackOnChain(w: World, c: Committee, core: Core, issues: seq<Issue>, m: nat, store: map<uint32, Milestone>,
                    height: int64, i: nat)
    requires Linked(w, c, core, issues) && i < m
    requires Retrievable(core.app.state.milestoneIndex, issues, m, store)
    ensures var found := Look(height, Before(issues[m - 1].milestone, store, m - 1 - i));
      if LastState(w, core, issues[..i]).milestoneHeight <= height then found == Compatible(issues[i].milestone)
      else found == TooNew
  {
    hide Linked, LastState, NewStateFromMilestone, Before;
    IssueState(w, c, core, issues, m - 1);
    IssueIndex(w, c, core, issues, m - 1);
    IssueState(w, c, core, issues, i);
    BackMilestone(core.app.state.milestoneIndex, issues, m, store, i);
  }

  /** On the milestones of a chain that was bootstrapped at height 0 the walk never fails: it finds the newest one
      whose height the blockchain has reached. */
  lemma WalkOnChain(w: World, c: Committee, core: Core, issues: seq<Issue>, m: nat, store: map<uint32, Milestone>,
                    height: int64, d: nat)
    requires Linked(w, c, core, issues) && core.app.state.milestoneHeight == 0 && height >= 0
    requires Retrievable(core.app.state.milestoneIndex, issues, m, store)
    requires EndsAfter(height, issues[m - 1].milestone, store, d)
    ensures d < m && Look(height, Before(issues[m - 1].milestone, store, d)) == Compatible(issues[m - 1 - d].milestone)
    ensures LastState(w, core, issues[..m - 1 - d]).milestoneHeight <= height
    ensures forall i: nat | m - 1 - d < i < m :: LastState(w, core, issues[..i]).milestoneHeight > height
  {
    hide Linked, LastState, Look, Before;
    NoIssues(w, core, issues);
    BackOnChain(w, c, core, issues, m, store, height, 0);
    assert d < m;
    BackOnChain(w, c, core, issues, m, store, height, m - 1 - d);
    forall i: nat | m - 1 - d < i < m ensures LastState(w, core, issues[..i]).milestoneHeight > height {
      BackOnChain(w, c, core, issues, m, store, height, i);
    }
  }

  /** On such milestones the walk ends. */
  lemma ChainHasEnd(w: World, c: Committee, core: Core, issues: seq<Issue>, m: nat, store: map<uint32, Milestone>,
                    height: int64)
    requires Linked(w, c, core, issues) && core.app.state.milestoneHeight == 0 && height >= 0
    requires Retrievable(core.app.state.milestoneIndex, issues, m, store)
    ensures !Look(height, Some(issues[m - 1].milestone)).TooNew? || HasEnd(height, store)
  {
    hide Linked, LastState, Look, Before, HasEnd;
    NoIssues(w, core, issues);
    BackOnChain(w, c, core, issues, m, store, height, 0);
    var d := FirstEnd(height, issues[m - 1].milestone, store, m - 1);
    WalkEnds(height, issues[m - 1].milestone, store);
  }

  lemma BackIndex(start: uint32, n: nat, k: nat)
    requires k <= n
    ensures ((start + n) % TWO_32 - k) % TWO_32 == (start + (n - k)) % TWO_32
  {
  }

  /** Resuming from a milestone that is not too new. */
  lemma RecoversFrom(w: World, c: Committee, core: Core, blocks: seq<Block>, i: nat, height: int64) returns (j: nat)
    requires IsReset(w, core) && FitsLimits(w, c) && IsChain(core, blocks)
    requires i < |Issues(w, c, core, blocks)|
    requires Look(height, Some(Issues(w, c, core, blocks)[i].milestone)).Compatible?
    ensures j <= |blocks|
    ensures InitState(w, Issues(w, c, core, blocks)[i].milestone.essence) == Some(Run(w, c, core, blocks[..j]))
    ensures Run(w, c, core, blocks[..j]).info.height <= height
    ensures IsChain(Run(w, c, core, blocks[..j]), blocks[j..])
    ensures Run(w, c, Run(w, c, core, blocks[..j]), blocks[j..]) == Run(w, c, core, blocks)
  {
    hide MidAt, IsChain, Issues, Run, NewStateFromMilestone;
    var k := IssuedAt(w, c, core, blocks, i);
    j := CrashRecovery(w, c, core, blocks, k);
  }

  /** Resuming a bootstrapped chain: whatever the blockchain's height is, the coordinator resumes from the newest
      milestone that the blockchain has reached, in the state that the chain had at that height, which is not
      above the blockchain's; so that replaying the rest leads to where the chain is. */
  lemma ResumeRecovers(w: World, c: Committee, core: Core, blocks: seq<Block>, m: nat,
                       store: map<uint32, Milestone>, height: int64, d: nat) returns (j: nat)
    requires IsReset(w, core) && core.app.state.milestoneHeight == 0 && FitsLimits(w, c) && IsChain(core, blocks)
    requires height >= 0
    requires Retrievable(core.app.state.milestoneIndex, Issues(w, c, core, blocks), m, store)
    requires EndsAfter(height, Issues(w, c, core, blocks)[m - 1].milestone, store, d)
    ensures var found := Look(height, Before(Issues(w, c, core, blocks)[m - 1].milestone, store, d));
      && found.Compatible? && j <= |blocks|
      && InitState(w, found.ms.essence) == Some(Run(w, c, core, blocks[..j]))
      && Run(w, c, core, blocks[..j]).info.height <= height
      && IsChain(Run(w, c, core, blocks[..j]), blocks[j..])
      && Run(w, c, Run(w, c, core, blocks[..j]), blocks[j..]) == Run(w, c, core, blocks)
  {
    hide IsChain, Issues, Run, Linked, LastState, InitState, Look, EndsAfter, Retrievable, Before;
    var issues := Issues(w, c, core, blocks);
    ChainIsLinked(w, c, core, blocks);
    RetrievableSize(core.app.state.milestoneIndex, issues, m, store);
    WalkOnChain(w, c, core, issues, m, store, height, d);
    FoundItself(height, Before(issues[m - 1].milestone, store, d), issues[m - 1 - d].milestone);
    j := RecoversFrom(w, c, core, blocks, m - 1 - d, height);
  }

  lemma ChainIsLinked(w: World, c: Committee, core: Core, blocks: seq<Block>)
    requires IsReset(w, core) && FitsLimits(w, c) && IsChain(core, blocks)
    ensures Linked(w, c, core, Issues(w, c, core, blocks))
  {
    hide IsChain, Issues, Linked;
    ResetValid(w, c, core.app.state);
    MilestoneChain(w, c, core, blocks);
  }

  lemma FoundItself(height: int64, o: Option<Milestone>, ms: Milestone)
    requires Look(height, o) == Compatible(ms)
    ensures o == Some(ms)
  {
  }

  lemma RetrievableSize(start: uint32, issues: seq<Issue>, m: nat, store: map<uint32, Milestone>)
    requires Retrievable(start, issues, m, store)
    ensures 0 < m <= |issues|
  {
  }
}
