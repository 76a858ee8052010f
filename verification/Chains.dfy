/** Crash recovery, the heights of milestones, and the one essence that a chain has for each milestone index. */
module Chains {
  import opened ByteStrings
  import opened Committees
  import opened AppData
  import opened Parents
  import opened Blocks

  /** What initState sets up for a state. */
  ghost function Reset(w: World, state: State): Core {
    Core(Fresh(state), CommitInfo(state.milestoneHeight, w.hash(Fresh(state))))
  }

  /** The state after bootstrapping. */
  ghost function Bootstrap(w: World, index: uint32, milestoneID: Byte32, blockID: Byte32): Core {
    Reset(w, State(0, index, milestoneID, blockID))
  }

  /** The state after resuming from a milestone; None if its metadata is malformed. */
  ghost function InitState(w: World, e: Essence): Option<Core> {
    match NewStateFromMilestone(e)
    case None => None
    case Some(state) => Some(Reset(w, state))
  }

  lemma ResetValid(w: World, c: Committee, state: State)
    ensures Valid(w, c, Reset(w, state).app)
  {
    FreshValid(w, c, state);
  }

  ghost predicate IsReset(w: World, core: Core) {
    core == Reset(w, core.app.state)
  }

  /** The state between EndBlock and Commit of the k-th block. */
  ghost function MidAt(w: World, c: Committee, core: Core, blocks: seq<Block>, k: nat): App
    requires k < |blocks|
  {
    Mid(w, c, Run(w, c, core, blocks[..k]).app, blocks[k])
  }

  // ----- crash recovery -----

  /** Somewhere along the chain, the committed state was exactly what a reset to the current carried-over state
      gives. */
  lemma {:induction false} LastReset(w: World, c: Committee, core: Core, blocks: seq<Block>) returns (j: nat)
    requires IsReset(w, core)
    ensures j <= |blocks|
    ensures Run(w, c, core, blocks[..j]) == Reset(w, Run(w, c, core, blocks).app.state)
  {
    hide Mid, NextState;
    if blocks == [] {
      j := 0;
    } else {
      var before, b := blocks[..|blocks| - 1], blocks[|blocks| - 1];
      var mid := Mid(w, c, Run(w, c, core, before).app, b);
      MidFrozen(w, c, Run(w, c, core, before).app, b);
      if Complete(c, mid) {
        j := |blocks|;
        NextStateHeight(w, mid, b.header.height);
        assert blocks[..j] == blocks;
      } else {
        j := LastReset(w, c, core, before);
        assert blocks[..j] == before[..j];
      }
    }
  }

  lemma NextStateHeight(w: World, a: App, height: int64)
    requires a.milestone.Some?
    ensures NextState(w, a, height).milestoneHeight == height
  {
  }

  lemma ChainSuffix(w: World, c: Committee, core: Core, blocks: seq<Block>, j: nat)
    requires IsChain(core, blocks) && j <= |blocks|
    ensures IsChain(Run(w, c, core, blocks[..j]), blocks[j..])
  {
    hide Mid, Commit;
    var core', rest := Run(w, c, core, blocks[..j]), blocks[j..];
    forall i | 0 <= i < |rest|
      ensures rest[i].header.height == NextInt64(HeightBefore(core', rest, i))
    {
      assert rest[i] == blocks[j + i];
      if i == 0 {
        RunHeight(w, c, core, blocks, j);
      }
    }
  }

  /** Resuming from any milestone that was made along the chain, and replaying the blocks after the height in its
      metadata, leads to the same committed state, height and hash as the uninterrupted run. */
  lemma CrashRecovery(w: World, c: Committee, core: Core, blocks: seq<Block>, k: nat) returns (j: nat)
    requires IsReset(w, core) && FitsLimits(w, c) && IsChain(core, blocks)
    requires k < |blocks| && MidAt(w, c, core, blocks, k).milestone.Some?
    ensures var resumed := InitState(w, MidAt(w, c, core, blocks, k).milestone.value.essence);
      && resumed.Some? && j <= k
      && resumed.value == Run(w, c, core, blocks[..j])
      && IsChain(resumed.value, blocks[j..])
      && Run(w, c, resumed.value, blocks[j..]) == Run(w, c, core, blocks)
  {
    hide MidAt, IsChain, NewStateFromMilestone, Run, Reset;
    MilestoneState(w, c, core, blocks, k);
    j := LastReset(w, c, core, blocks[..k]);
    assert blocks[..k][..j] == blocks[..j];
    ChainSuffix(w, c, core, blocks, j);
    RunConcat(w, c, core, blocks[..j], blocks[j..]);
    assert blocks[..j] + blocks[j..] == blocks;
  }

  /** The metadata of a milestone tells the state that its block started from. */
  lemma MilestoneState(w: World, c: Committee, core: Core, blocks: seq<Block>, k: nat)
    requires IsReset(w, core) && FitsLimits(w, c)
    requires k < |blocks| && MidAt(w, c, core, blocks, k).milestone.Some?
    ensures NewStateFromMilestone(MidAt(w, c, core, blocks, k).milestone.value.essence)
      == Some(Run(w, c, core, blocks[..k]).app.state)
  {
    hide Mid, Valid, MadeFrom, NewStateFromMilestone;
    var a, mid := Run(w, c, core, blocks[..k]).app, MidAt(w, c, core, blocks, k);
    ResetValid(w, c, core.app.state);
    RunValid(w, c, core, blocks[..k]);
    MidValid(w, c, a, blocks[k]);
    MidFrozen(w, c, a, blocks[k]);
    ValidMilestone(w, c, mid);
    MadeFromRoundTrip(w, mid.state, mid.milestone.value.essence);
  }

  lemma MadeFromRoundTrip(w: World, state: State, e: Essence)
    requires MadeFrom(w, state, e)
    ensures NewStateFromMilestone(e) == Some(state)
  {
    MetadataRoundTrip(state, e);
  }

  // ----- heights -----

  lemma NoSignaturesYet(w: World, c: Committee, a: App, b: Block)
    requires Valid(w, c, a) && a.milestone.None?
    ensures Mid(w, c, a, b).signaturesByIssuer == map[]
  {
    hide Counted, Made;
    DeliverAllValid(w, c, a, b.txs);
    DeliverAllFrozen(w, c, a, b.txs);
  }

  /** A block that completes a milestone comes at least two blocks after the one that started it: one makes the
      essence, and a later one brings the signatures. */
  lemma {:induction false} CompletedLater(w: World, c: Committee, core: Core, blocks: seq<Block>)
    requires IsReset(w, core) && IsChain(core, blocks) && c.t >= 1
    requires core.info.height + |blocks| < TWO_63
    ensures var last := Run(w, c, core, blocks);
      && last.info.height == core.info.height + |blocks|
      && last.app.state.milestoneHeight + (if last.app.milestone.Some? then 1 else 0) <= last.info.height
    ensures blocks != [] && Complete(c, MidAt(w, c, core, blocks, |blocks| - 1)) ==>
      blocks[|blocks| - 1].header.height >= Run(w, c, core, blocks[..|blocks| - 1]).app.state.milestoneHeight + 2
  {
    hide Mid, NextState, Valid;
    if blocks != [] {
      var n := |blocks| - 1;
      var before, b := blocks[..n], blocks[n];
      var a := Run(w, c, core, before).app;
      ChainPrefix(core, blocks, n);
      CompletedLater(w, c, core, before);
      RunHeight(w, c, core, blocks, n);
      ResetValid(w, c, core.app.state);
      RunValid(w, c, core, before);
      MidFrozen(w, c, a, b);
      if a.milestone.None? {
        NoSignaturesYet(w, c, a, b);
      }
      if Complete(c, Mid(w, c, a, b)) {
        NextStateHeight(w, Mid(w, c, a, b), b.header.height);
      }
    }
  }

  lemma ChainPrefix(core: Core, blocks: seq<Block>, n: nat)
    requires IsChain(core, blocks) && n <= |blocks|
    ensures IsChain(core, blocks[..n])
  {
    forall i | 0 <= i < n
      ensures blocks[..n][i].header.height == NextInt64(HeightBefore(core, blocks[..n], i))
    {
      assert blocks[i].header.height == NextInt64(HeightBefore(core, blocks, i));
    }
  }

  /** The heights recorded for consecutive milestones grow by at least two. */
  lemma {:induction false} MilestoneHeightsGrow(w: World, c: Committee, core: Core, blocks: seq<Block>)
    requires IsReset(w, core) && IsChain(core, blocks) && c.t >= 1 && FitsLimits(w, c)
    requires core.info.height + |blocks| < TWO_63
    ensures var issues := Issues(w, c, core, blocks);
      forall i | 0 <= i < |issues| :: issues[i].height >= LastState(w, core, issues[..i]).milestoneHeight + 2
  {
    hide Mid, Linked, Valid;
    if blocks != [] {
      var n := |blocks| - 1;
      var before := blocks[..n];
      var issues, older := Issues(w, c, core, blocks), Issues(w, c, core, before);
      ChainPrefix(core, blocks, n);
      MilestoneHeightsGrow(w, c, core, before);
      CompletedLater(w, c, core, blocks);
      ResetValid(w, c, core.app.state);
      MilestoneChain(w, c, core, before);
      forall i | 0 <= i < |issues|
        ensures issues[i].height >= LastState(w, core, issues[..i]).milestoneHeight + 2
      {
        assert i < |older| ==> issues[..i] == older[..i] && issues[i] == older[i];
        assert i == |older| ==> issues[..i] == older;
      }
    }
  }

  // ----- one essence per index -----

  /** How many milestones have been completed before the k-th block. */
  ghost function Epoch(w: World, c: Committee, core: Core, blocks: seq<Block>, k: nat): nat
    requires k <= |blocks|
  {
    |Issues(w, c, core, blocks[..k])|
  }

  /** Every completed milestone comes from some block. */
  lemma {:induction false} IssuedAt(w: World, c: Committee, core: Core, blocks: seq<Block>, i: nat) returns (k: nat)
    requires i < |Issues(w, c, core, blocks)|
    ensures k < |blocks| && MidAt(w, c, core, blocks, k).milestone.Some?
    ensures MidAt(w, c, core, blocks, k).milestone.value.essence == Issues(w, c, core, blocks)[i].milestone.essence
    ensures Epoch(w, c, core, blocks, k) == i
  {
    hide Mid;
    var n := |blocks| - 1;
    if i < |Issues(w, c, core, blocks[..n])| {
      k := IssuedAt(w, c, core, blocks[..n], i);
      assert blocks[..n][..k] == blocks[..k];
    } else {
      k := n;
    }
  }

  lemma EpochNext(w: World, c: Committee, core: Core, blocks: seq<Block>, k: nat)
    requires k < |blocks|
    ensures Epoch(w, c, core, blocks, k + 1) ==
      Epoch(w, c, core, blocks, k) + (if Complete(c, MidAt(w, c, core, blocks, k)) then 1 else 0)
  {
    assert blocks[..k + 1][..k] == blocks[..k];
  }

  lemma {:induction false} EpochMonotone(w: World, c: Committee, core: Core, blocks: seq<Block>, j: nat, k: nat)
    requires j <= k <= |blocks|
    ensures Epoch(w, c, core, blocks, j) <= Epoch(w, c, core, blocks, k)
    decreases k - j
  {
    hide Epoch;
    if j < k {
      EpochMonotone(w, c, core, blocks, j, k - 1);
      EpochNext(w, c, core, blocks, k - 1);
    }
  }

  /** The milestone index counts the epochs, modulo 2^32. */
  lemma {:induction false} IndexOfEpoch(w: World, c: Committee, core: Core, blocks: seq<Block>, k: nat)
    requires k <= |blocks|
    ensures Run(w, c, core, blocks[..k]).app.state.milestoneIndex ==
      (core.app.state.milestoneIndex + Epoch(w, c, core, blocks, k)) % TWO_32
  {
    hide Epoch, Run, MidAt, NextState, NextUint32;
    if k == 0 {
      NoEpochs(w, c, core, blocks);
    } else {
      var a := Run(w, c, core, blocks[..k - 1]).app;
      IndexOfEpoch(w, c, core, blocks, k - 1);
      NextIndex(core.app.state.milestoneIndex + Epoch(w, c, core, blocks, k - 1), a.state.milestoneIndex);
      EpochNext(w, c, core, blocks, k - 1);
      StateNext(w, c, core, blocks, k - 1);
    }
  }

  /** The carried-over state only changes when a milestone is completed. */
  lemma StateNext(w: World, c: Committee, core: Core, blocks: seq<Block>, k: nat)
    requires k < |blocks|
    ensures var state, mid := Run(w, c, core, blocks[..k]).app.state, MidAt(w, c, core, blocks, k);
      && mid.state == state
      && Run(w, c, core, blocks[..k + 1]).app.state ==
        (if Complete(c, mid) then NextState(w, mid, blocks[k].header.height) else state)
      && (Complete(c, mid) ==>
        NextState(w, mid, blocks[k].header.height).milestoneIndex == NextUint32(state.milestoneIndex))
  {
    hide Mid;
    RunNext(w, c, core, blocks, k);
    MidFrozen(w, c, Run(w, c, core, blocks[..k]).app, blocks[k]);
  }

  lemma NextIndex(n: nat, index: uint32)
    requires index == n % TWO_32
    ensures NextUint32(index) == (n + 1) % TWO_32
  {
  }

  lemma NoEpochs(w: World, c: Committee, core: Core, blocks: seq<Block>)
    ensures Epoch(w, c, core, blocks, 0) == 0 && Run(w, c, core, blocks[..0]) == core
  {
    assert blocks[..0] == [];
  }

  /** Within an epoch the essence does not change. */
  lemma {:induction false} SameEpochSameMilestone(w: World, c: Committee, core: Core, blocks: seq<Block>,
                                                        j: nat, k: nat)
    requires j <= k < |blocks| && Epoch(w, c, core, blocks, j) == Epoch(w, c, core, blocks, k)
    requires MidAt(w, c, core, blocks, j).milestone.Some?
    ensures MidAt(w, c, core, blocks, k).milestone == MidAt(w, c, core, blocks, j).milestone
    decreases k - j
  {
    hide Epoch, MidAt, Run;
    if j < k {
      EpochMonotone(w, c, core, blocks, j, k - 1);
      EpochMonotone(w, c, core, blocks, k - 1, k);
      SameEpochSameMilestone(w, c, core, blocks, j, k - 1);
      EpochNext(w, c, core, blocks, k - 1);
      MilestoneStays(w, c, core, blocks, k - 1);
    }
  }

  lemma MilestoneStays(w: World, c: Committee, core: Core, blocks: seq<Block>, k: nat)
    requires k + 1 < |blocks|
    requires MidAt(w, c, core, blocks, k).milestone.Some? && !Complete(c, MidAt(w, c, core, blocks, k))
    ensures MidAt(w, c, core, blocks, k + 1).milestone == MidAt(w, c, core, blocks, k).milestone
  {
    hide Mid;
    RunNext(w, c, core, blocks, k);
    MidFrozen(w, c, Run(w, c, core, blocks[..k + 1]).app, blocks[k + 1]);
  }

  /** A chain makes one essence per milestone index, for as long as the 32-bit index does not wrap around: two
      essences have the same index exactly when they are the same, or some multiple of 2^32 milestones apart. */
  lemma OneEssencePerIndex(w: World, c: Committee, core: Core, blocks: seq<Block>, j: nat, k: nat)
    requires Valid(w, c, core.app) && FitsLimits(w, c) && j <= k < |blocks|
    requires MidAt(w, c, core, blocks, j).milestone.Some? && MidAt(w, c, core, blocks, k).milestone.Some?
    ensures var e, e' := MidAt(w, c, core, blocks, j).milestone.value.essence,
                         MidAt(w, c, core, blocks, k).milestone.value.essence;
      var d := Epoch(w, c, core, blocks, k) - Epoch(w, c, core, blocks, j);
      && (e.index == e'.index <==> d % TWO_32 == 0)
      && (e.index == e'.index && d < TWO_32 ==> e == e')
  {
    hide Epoch, Mid, Valid, MadeFrom;
    var d := Epoch(w, c, core, blocks, k) - Epoch(w, c, core, blocks, j);
    EssenceIndex(w, c, core, blocks, j);
    EssenceIndex(w, c, core, blocks, k);
    EpochMonotone(w, c, core, blocks, j, k);
    CongruentIndices(core.app.state.milestoneIndex, Epoch(w, c, core, blocks, j), d);
    if d == 0 {
      SameEpochSameMilestone(w, c, core, blocks, j, k);
    }
  }

  lemma EssenceIndex(w: World, c: Committee, core: Core, blocks: seq<Block>, k: nat)
    requires Valid(w, c, core.app) && FitsLimits(w, c) && k < |blocks|
    requires MidAt(w, c, core, blocks, k).milestone.Some?
    ensures MidAt(w, c, core, blocks, k).milestone.value.essence.index ==
      (core.app.state.milestoneIndex + Epoch(w, c, core, blocks, k)) % TWO_32
  {
    hide Epoch, Mid, Valid;
    var a := Run(w, c, core, blocks[..k]).app;
    RunValid(w, c, core, blocks[..k]);
    MidValid(w, c, a, blocks[k]);
    MidFrozen(w, c, a, blocks[k]);
    ValidMilestone(w, c, MidAt(w, c, core, blocks, k));
    IndexOfEpoch(w, c, core, blocks, k);
  }

  lemma CongruentIndices(start: nat, epoch: nat, d: nat)
    ensures (start + epoch) % TWO_32 == (start + (epoch + d)) % TWO_32 <==> d % TWO_32 == 0
    ensures d < TWO_32 && d % TWO_32 == 0 ==> d == 0
  {
  }
}
