/** What a block does to the committed state, and what every chain of blocks keeps. */
module Blocks {
  import opened ByteStrings
  import opened Codec
  import opened Sets
  import opened Committees
  import opened AppData
  import opened Sorting
  import opened Parents

  /** The time is in Unix seconds. */
  datatype Header = Header(height: int64, time: int)

  /** The header before the first block. */
  const NO_HEADER := Header(0, 0)

  datatype Block = Block(header: Header, txs: seq<seq<byte>>)

  datatype CommitInfo = CommitInfo(height: int64, hash: Byte32)

  /** What is committed. */
  datatype Core = Core(app: App, info: CommitInfo)

  // ----- one block -----

  function DeliverAll(w: World, c: Committee, a: App, txs: seq<seq<byte>>): App {
    if txs == [] then a
    else Deliver(w, c, DeliverAll(w, c, a, txs[..|txs| - 1]), txs[|txs| - 1]).1
  }

  ghost function NewEssence(w: World, c: Committee, a: App, timestamp: uint32): (e: Essence)
    ensures e.timestamp == timestamp
  {
    var parents := MilestoneParents(w, c, a);
    var (inclusion, applied) := w.whiteFlag(a.state.milestoneIndex, timestamp, parents, a.state.lastMilestoneID);
    Essence(a.state.milestoneIndex, timestamp, w.protocolVersion, a.state.lastMilestoneID, parents,
            inclusion, applied, Metadata(a.state))
  }

  ghost function EndBlock(w: World, c: Committee, a: App, header: Header): App {
    if a.milestone.None? && EnoughParents(c, a) then
      a.(milestone := Some(Milestone(NewEssence(w, c, a, ToUint32(header.time)), [])))
    else a
  }

  predicate Complete(c: Committee, a: App) {
    a.milestone.Some? && |a.signaturesByIssuer| >= c.t
  }

  /** The signatures in the order of their public keys. */
  ghost function SignatureList(a: App): (r: seq<Signature>)
    ensures |r| == |Sorted(a.signaturesByIssuer.Keys)|
  {
    var keys := Sorted(a.signaturesByIssuer.Keys);
    seq(|keys|, i requires 0 <= i < |keys| =>
      assert keys[i] in Elements(keys);
      a.signaturesByIssuer[keys[i]])
  }

  ghost function Completed(a: App): Milestone
    requires a.milestone.Some?
  {
    Milestone(a.milestone.value.essence, SignatureList(a))
  }

  /** The state that the next milestone starts from. */
  ghost function NextState(w: World, a: App, height: int64): State
    requires a.milestone.Some?
  {
    State(height, NextUint32(a.state.milestoneIndex), w.milestoneID(Completed(a)), w.blockID(Completed(a)))
  }

  ghost function Commit(w: World, c: Committee, a: App, header: Header): App {
    if Complete(c, a) then Fresh(NextState(w, a, header.height)) else a
  }

  /** The state between EndBlock and Commit. */
  ghost function Mid(w: World, c: Committee, a: App, b: Block): App {
    EndBlock(w, c, DeliverAll(w, c, a, b.txs), b.header)
  }

  ghost function Execute(w: World, c: Committee, core: Core, b: Block): Core {
    var a := Commit(w, c, Mid(w, c, core.app, b), b.header);
    Core(a, CommitInfo(b.header.height, w.hash(a)))
  }

  ghost predicate Accepts(core: Core, b: Block) {
    b.header.height == NextInt64(core.info.height)
  }

  /** The transactions of a block are delivered to the end, without a panic, if and only if none of them is of the
      kind that panics; so a single such transaction stops all the validators, whatever their states are. */
  lemma DeliveredToTheEnd(w: World, c: Committee, a: App, txs: seq<seq<byte>>)
    ensures
      (forall i | 0 <= i < |txs| :: Deliver(w, c, DeliverAll(w, c, a, txs[..i]), txs[i]).0 != Panics) <==>
      (forall raw | raw in txs :: !Stops(raw))
  {
    hide Deliver, Stops, DeliverAll;
    forall i | 0 <= i < |txs|
      ensures Deliver(w, c, DeliverAll(w, c, a, txs[..i]), txs[i]).0 == Panics <==> Stops(txs[i])
    {
      DeliverPanics(w, c, DeliverAll(w, c, a, txs[..i]), txs[i]);
    }
    assert forall i | 0 <= i < |txs| :: txs[i] in txs;
  }

  // ----- the invariant -----

  /** A milestone in the making is the one that the recorded proposals and proofs determine. */
  ghost predicate Made(w: World, c: Committee, a: App) {
    a.milestone.Some? ==>
      var e := a.milestone.value.essence;
      EnoughParents(c, a) && e == NewEssence(w, c, a, e.timestamp)
  }

  ghost predicate Valid(w: World, c: Committee, a: App) {
    Counted(c, a) && Signed(w, a) && Made(w, c, a)
  }

  lemma FreshValid(w: World, c: Committee, state: State)
    ensures Valid(w, c, Fresh(state))
  {
    FreshCounted(c, w, state);
  }

  ghost predicate SameRecords(a: App, a': App) {
    && a'.state == a.state && a'.milestone == a.milestone
    && (a.milestone.Some? ==>
      && a'.parentByIssuer == a.parentByIssuer && a'.issuerCountByParent == a.issuerCountByParent
      && a'.proofIssuersByBlockID == a.proofIssuersByBlockID)
  }

  lemma ApplyFrozen(w: World, a: App, issuer: Byte32, tx: Tx)
    requires Apply(w, a, issuer, tx).Done?
    ensures SameRecords(a, Apply(w, a, issuer, tx).app)
  {
  }

  /** Once there is a milestone, proposals and proofs are frozen. */
  lemma DeliverFrozen(w: World, c: Committee, a: App, raw: seq<byte>)
    ensures SameRecords(a, Deliver(w, c, a, raw).1)
  {
    hide UnmarshalTx, Apply;
    var u := UnmarshalTx(c.members(a.state.milestoneIndex), w.verify, raw);
    if u.Ok? && Apply(w, a, u.issuer, u.tx).Done? {
      ApplyFrozen(w, a, u.issuer, u.tx);
    }
  }

  ghost predicate SameProposals(a: App, a': App) {
    && a'.state == a.state && a'.parentByIssuer == a.parentByIssuer
    && a'.issuerCountByParent == a.issuerCountByParent && a'.proofIssuersByBlockID == a.proofIssuersByBlockID
  }

  lemma SameConfirmed(c: Committee, a: App, a': App)
    requires SameProposals(a, a')
    ensures Confirmed(c, a') == Confirmed(c, a)
    ensures EnoughParents(c, a') <==> EnoughParents(c, a)
  {
    assert Confirmed(c, a') == Confirmed(c, a);
    assert IssuersOf(a', Confirmed(c, a')) == IssuersOf(a, Confirmed(c, a));
  }

  lemma SameFirst(a: App, a': App, s: set<Byte32>, k: int)
    requires SameProposals(a, a')
    ensures First(a', s, k) == First(a, s, k)
  {
    forall x | x in s ensures Predecessors(a', s, x) == Predecessors(a, s, x) {
    }
  }

  lemma SameMilestoneParents(w: World, c: Committee, a: App, a': App)
    requires SameProposals(a, a')
    ensures MilestoneParents(w, c, a') == MilestoneParents(w, c, a)
  {
    hide Confirmed, First, EnoughParents;
    SameConfirmed(c, a, a');
    SameFirst(a, a', Candidates(c, a), w.blockMaxParents - 1);
    assert Kept(w, a', Candidates(c, a')) == Kept(w, a, Candidates(c, a));
  }

  lemma SameParents(w: World, c: Committee, a: App, a': App, timestamp: uint32)
    requires SameProposals(a, a')
    ensures EnoughParents(c, a') <==> EnoughParents(c, a)
    ensures NewEssence(w, c, a', timestamp) == NewEssence(w, c, a, timestamp)
  {
    hide Confirmed, EnoughParents, MilestoneParents;
    SameConfirmed(c, a, a');
    SameMilestoneParents(w, c, a, a');
  }

  lemma DeliverValid(w: World, c: Committee, a: App, raw: seq<byte>)
    requires Valid(w, c, a)
    ensures Valid(w, c, Deliver(w, c, a, raw).1)
  {
    hide Counted, Signed, NewEssence, EnoughParents, Deliver;
    var a' := Deliver(w, c, a, raw).1;
    DeliverKeeps(c, w, a, raw);
    DeliverFrozen(w, c, a, raw);
    if a.milestone.Some? {
      SameParents(w, c, a, a', a.milestone.value.essence.timestamp);
    }
  }

  lemma {:induction false} DeliverAllValid(w: World, c: Committee, a: App, txs: seq<seq<byte>>)
    requires Valid(w, c, a)
    ensures Valid(w, c, DeliverAll(w, c, a, txs))
  {
    hide Valid, Deliver;
    if txs != [] {
      DeliverAllValid(w, c, a, txs[..|txs| - 1]);
      DeliverValid(w, c, DeliverAll(w, c, a, txs[..|txs| - 1]), txs[|txs| - 1]);
    }
  }

  lemma SameCounted(c: Committee, a: App, a': App)
    requires SameProposals(a, a') && a'.signaturesByIssuer == a.signaturesByIssuer && Counted(c, a)
    ensures Counted(c, a')
  {
    forall b ensures IssuersOf(a', {b}) == IssuersOf(a, {b}) && Count(a', b) == Count(a, b) {
    }
  }

  lemma EndBlockValid(w: World, c: Committee, a: App, header: Header)
    requires Valid(w, c, a)
    ensures Valid(w, c, EndBlock(w, c, a, header))
  {
    hide NewEssence, EnoughParents, Counted;
    var a' := EndBlock(w, c, a, header);
    SameParents(w, c, a, a', ToUint32(header.time));
    SameCounted(c, a, a');
  }

  lemma MidValid(w: World, c: Committee, a: App, b: Block)
    requires Valid(w, c, a)
    ensures Valid(w, c, Mid(w, c, a, b))
  {
    DeliverAllValid(w, c, a, b.txs);
    EndBlockValid(w, c, DeliverAll(w, c, a, b.txs), b.header);
  }

  lemma ExecuteValid(w: World, c: Committee, core: Core, b: Block)
    requires Valid(w, c, core.app)
    ensures Valid(w, c, Execute(w, c, core, b).app)
  {
    hide Valid;
    var mid := Mid(w, c, core.app, b);
    MidValid(w, c, core.app, b);
    if Complete(c, mid) {
      FreshValid(w, c, NextState(w, mid, b.header.height));
    }
  }

  /** Up to the commit, a block changes neither the carried-over state nor a milestone that is already there. */
  lemma {:induction false} DeliverAllFrozen(w: World, c: Committee, a: App, txs: seq<seq<byte>>)
    ensures var a' := DeliverAll(w, c, a, txs); a'.state == a.state && a'.milestone == a.milestone
  {
    hide Deliver;
    if txs != [] {
      DeliverAllFrozen(w, c, a, txs[..|txs| - 1]);
      DeliverFrozen(w, c, DeliverAll(w, c, a, txs[..|txs| - 1]), txs[|txs| - 1]);
    }
  }

  lemma MidFrozen(w: World, c: Committee, a: App, b: Block)
    ensures Mid(w, c, a, b).state == a.state
    ensures a.milestone.Some? ==> Mid(w, c, a, b).milestone == a.milestone
    ensures a.milestone.None? && Mid(w, c, a, b).milestone.Some? ==>
      Mid(w, c, a, b).milestone.value.essence.timestamp == ToUint32(b.header.time)
  {
    DeliverAllFrozen(w, c, a, b.txs);
  }

  // ----- progress -----

  /** Nobody has to wait for the faulty members: if the honest ones have proposed and proved each other's parents,
      the essence is made; if they have signed it, the milestone is complete. */
  lemma HonestSuffice(w: World, c: Committee, a: App, header: Header, honest: set<Byte32>)
    requires Counted(c, a) && IsEnough(c, honest)
    ensures (forall p | p in honest ::
        p in a.parentByIssuer && honest <= ProofIssuers(a, a.parentByIssuer[p])) ==>
      EndBlock(w, c, a, header).milestone.Some?
    ensures a.milestone.Some? && honest <= a.signaturesByIssuer.Keys ==> Complete(c, a)
  {
    hide NewEssence;
    if forall p | p in honest :: p in a.parentByIssuer && honest <= ProofIssuers(a, a.parentByIssuer[p]) {
      forall p | p in honest ensures p in IssuersOf(a, Confirmed(c, a)) {
        ProposedAndProved(c, a, p, honest);
      }
      SubsetSize(honest, IssuersOf(a, Confirmed(c, a)));
    }
    if honest <= a.signaturesByIssuer.Keys {
      SubsetSize(honest, a.signaturesByIssuer.Keys);
    }
  }

  lemma ProposedAndProved(c: Committee, a: App, p: Byte32, provers: set<Byte32>)
    requires Counted(c, a) && |provers| > c.f >= 0
    requires p in a.parentByIssuer && provers <= ProofIssuers(a, a.parentByIssuer[p])
    ensures p in IssuersOf(a, Confirmed(c, a))
  {
    SubsetSize(provers, ProofIssuers(a, a.parentByIssuer[p]));
  }

  // ----- chains -----

  /** Every block has the height after the one before it. */
  ghost predicate IsChain(core: Core, blocks: seq<Block>) {
    forall i | 0 <= i < |blocks| :: blocks[i].header.height == NextInt64(HeightBefore(core, blocks, i))
  }

  ghost function HeightBefore(core: Core, blocks: seq<Block>, i: nat): int64
    requires i <= |blocks|
  {
    if i == 0 then core.info.height else blocks[i - 1].header.height
  }

  ghost function Run(w: World, c: Committee, core: Core, blocks: seq<Block>): Core {
    if blocks == [] then core
    else Execute(w, c, Run(w, c, core, blocks[..|blocks| - 1]), blocks[|blocks| - 1])
  }

  lemma RunNext(w: World, c: Committee, core: Core, blocks: seq<Block>, n: nat)
    requires n < |blocks|
    ensures Run(w, c, core, blocks[..n + 1]) == Execute(w, c, Run(w, c, core, blocks[..n]), blocks[n])
  {
    assert blocks[..n + 1][..n] == blocks[..n];
  }

  lemma {:induction false} RunConcat(w: World, c: Committee, core: Core, x: seq<Block>, y: seq<Block>)
    ensures Run(w, c, Run(w, c, core, x), y) == Run(w, c, core, x + y)
  {
    hide Execute;
    if y == [] {
      assert x + y == x;
    } else {
      RunConcat(w, c, core, x, y[..|y| - 1]);
      assert (x + y)[..|x + y| - 1] == x + y[..|y| - 1];
    }
  }

  lemma {:induction false} RunValid(w: World, c: Committee, core: Core, blocks: seq<Block>)
    requires Valid(w, c, core.app)
    ensures Valid(w, c, Run(w, c, core, blocks).app)
  {
    hide Valid;
    if blocks != [] {
      RunValid(w, c, core, blocks[..|blocks| - 1]);
      ExecuteValid(w, c, Run(w, c, core, blocks[..|blocks| - 1]), blocks[|blocks| - 1]);
    }
  }

  lemma RunHeight(w: World, c: Committee, core: Core, blocks: seq<Block>, n: nat)
    requires IsChain(core, blocks) && n < |blocks|
    ensures Accepts(Run(w, c, core, blocks[..n]), blocks[n])
  {
    hide Commit, Mid;
    if n == 0 {
      assert blocks[..n] == [];
    } else {
      RunNext(w, c, core, blocks, n - 1);
      assert Run(w, c, core, blocks[..n]).info.height == blocks[n - 1].header.height;
    }
  }

  // ----- milestones -----

  /** A milestone that was completed, and the height of the block that did it. */
  datatype Issue = Issue(milestone: Milestone, height: int64)

  /** The milestones that a chain of blocks completes, in order. */
  ghost function Issues(w: World, c: Committee, core: Core, blocks: seq<Block>): seq<Issue> {
    if blocks == [] then []
    else
      var before, b := blocks[..|blocks| - 1], blocks[|blocks| - 1];
      var mid := Mid(w, c, Run(w, c, core, before).app, b);
      Issues(w, c, core, before) +
        (if Complete(c, mid) then [Issue(Completed(mid), b.header.height)] else [])
  }

  /** The state that follows from a completed milestone. */
  ghost function StateAfter(w: World, i: Issue): State {
    State(i.height, NextUint32(i.milestone.essence.index), w.milestoneID(i.milestone), w.blockID(i.milestone))
  }

  /** Whether the essence was made from the given state. */
  ghost predicate MadeFrom(w: World, state: State, e: Essence) {
    && e.index == state.milestoneIndex
    && e.previousMilestoneID == state.lastMilestoneID
    && state.lastMilestoneBlockID in e.parents
    && e.metadata == Metadata(state)
    && Ascending(e.parents) && |e.parents| <= w.blockMaxParents
    && e.protocolVersion == w.protocolVersion
    && (e.inclusionMerkleRoot, e.appliedMerkleRoot) ==
      w.whiteFlag(e.index, e.timestamp, e.parents, e.previousMilestoneID)
  }

  /** The signatures that VerifySignatures accepts: enough of them, of different members, all of them valid. */
  ghost predicate Verifies(w: World, c: Committee, ms: Milestone) {
    && c.t <= |ms.signatures| <= |c.members(ms.essence.index)|
    && (forall i, j | 0 <= i < j < |ms.signatures| :: ms.signatures[i].publicKey < ms.signatures[j].publicKey)
    && (forall i | 0 <= i < |ms.signatures| ::
          && ms.signatures[i].publicKey in c.members(ms.essence.index)
          && w.verify(ms.signatures[i].publicKey, w.essenceBytes(ms.essence), ms.signatures[i].signature))
  }

  lemma ValidMilestone(w: World, c: Committee, a: App)
    requires Valid(w, c, a) && FitsLimits(w, c) && a.milestone.Some?
    ensures MadeFrom(w, a.state, a.milestone.value.essence)
  {
    ParentsShape(w, c, a);
  }

  /** Whatever is completed passes the verification before it is submitted. */
  lemma CompletedVerifies(w: World, c: Committee, a: App)
    requires Valid(w, c, a) && Complete(c, a)
    ensures Verifies(w, c, Completed(a))
  {
    hide Sorted, Elements, Valid, Counted, Signed;
    var keys, sigs := Sorted(a.signaturesByIssuer.Keys), Completed(a).signatures;
    ValidFacts(w, c, a);
    AscendingSize(keys);
    SubsetSize(a.signaturesByIssuer.Keys, c.members(a.state.milestoneIndex));
    forall i | 0 <= i < |sigs| { SignatureAt(w, a, i); }
  }

  /** A completed milestone has all the recorded signatures, and fits within the limits that New checks. */
  lemma MilestoneFits(w: World, c: Committee, a: App)
    requires Valid(w, c, a) && Complete(c, a) && FitsLimits(w, c)
    requires |c.members(a.state.milestoneIndex)| <= c.n
    ensures |Completed(a).signatures| == |a.signaturesByIssuer| <= w.maxSignatures
    ensures forall p | p in a.signaturesByIssuer :: a.signaturesByIssuer[p] in Completed(a).signatures
    ensures 1 <= |Completed(a).essence.parents| <= w.blockMaxParents
  {
    hide Sorted, Elements, Valid, Counted, Signed, MilestoneParents;
    var keys := Sorted(a.signaturesByIssuer.Keys);
    ValidFacts(w, c, a);
    ValidParents(w, c, a);
    AscendingSize(keys);
    SubsetSize(a.signaturesByIssuer.Keys, c.members(a.state.milestoneIndex));
    forall p | p in a.signaturesByIssuer ensures a.signaturesByIssuer[p] in Completed(a).signatures {
      var i := PositionOf(keys, p);
      assert SignatureList(a)[i] == a.signaturesByIssuer[p];
    }
  }

  /** The second check of New is needed, too: if there is no room for a signature of each member, then too many of them
      can be recorded. */
  lemma TooManySignatures(w: World, c: Committee, a: App)
    requires !FitsLimits(w, c) && 0 <= c.f && c.f + 1 <= w.blockMaxParents - 1
    requires a.milestone.Some? && |a.signaturesByIssuer| == c.n
    ensures |Completed(a).signatures| > w.maxSignatures
  {
    AscendingSize(Sorted(a.signaturesByIssuer.Keys));
  }

  lemma PositionOf(s: seq<Byte32>, x: Byte32) returns (i: nat)
    requires x in Elements(s)
    ensures i < |s| && s[i] == x
  {
    i :| i < |s| && s[i] == x;
  }

  lemma ValidParents(w: World, c: Committee, a: App)
    requires Valid(w, c, a) && a.milestone.Some? && FitsLimits(w, c)
    ensures 1 <= |a.milestone.value.essence.parents| <= w.blockMaxParents
  {
    hide MilestoneParents;
    ParentsShape(w, c, a);
  }

  lemma ValidFacts(w: World, c: Committee, a: App)
    requires Valid(w, c, a) && a.milestone.Some?
    ensures a.milestone.value.essence.index == a.state.milestoneIndex
    ensures Signed(w, a) && a.signaturesByIssuer.Keys <= c.members(a.state.milestoneIndex)
  {
    hide Signed, EnoughParents;
  }

  lemma SignatureAt(w: World, a: App, i: nat)
    requires Signed(w, a) && a.milestone.Some? && i < |SignatureList(a)|
    ensures var s := SignatureList(a)[i];
      && s.publicKey == Sorted(a.signaturesByIssuer.Keys)[i]
      && s.publicKey in a.signaturesByIssuer
      && w.verify(s.publicKey, w.essenceBytes(a.milestone.value.essence), s.signature)
  {
    var keys := Sorted(a.signaturesByIssuer.Keys);
    assert keys[i] in Elements(keys);
  }

  /** The state of a chain is the one that follows from the last completed milestone. */
  ghost function LastState(w: World, core: Core, issues: seq<Issue>): State {
    if issues == [] then core.app.state else StateAfter(w, issues[|issues| - 1])
  }

  /** Each completed milestone was made from the state that follows from the one before it, and verifies. */
  ghost predicate Linked(w: World, c: Committee, core: Core, issues: seq<Issue>) {
    forall i | 0 <= i < |issues| ::
      && MadeFrom(w, LastState(w, core, issues[..i]), issues[i].milestone.essence)
      && Verifies(w, c, issues[i].milestone)
  }

  lemma LinkedSnoc(w: World, c: Committee, core: Core, issues: seq<Issue>, i: Issue)
    requires Linked(w, c, core, issues)
    requires MadeFrom(w, LastState(w, core, issues), i.milestone.essence) && Verifies(w, c, i.milestone)
    ensures Linked(w, c, core, issues + [i])
  {
    var r := issues + [i];
    forall j | 0 <= j < |r|
      ensures MadeFrom(w, LastState(w, core, r[..j]), r[j].milestone.essence) && Verifies(w, c, r[j].milestone)
    {
      if j < |issues| {
        assert r[..j] == issues[..j];
      } else {
        assert r[..j] == issues;
      }
    }
  }

  /** The milestones of every chain of blocks form a chain themselves: consecutive indices, each one naming the
      ID of the one before it and having its block as a parent. */
  lemma {:induction false} MilestoneChain(w: World, c: Committee, core: Core, blocks: seq<Block>)
    requires Valid(w, c, core.app) && FitsLimits(w, c)
    ensures Linked(w, c, core, Issues(w, c, core, blocks))
    ensures Run(w, c, core, blocks).app.state == LastState(w, core, Issues(w, c, core, blocks))
  {
    hide Linked, Valid, Mid, Completed;
    if blocks == [] {
      NoneLinked(w, c, core);
    } else {
      var before, b := blocks[..|blocks| - 1], blocks[|blocks| - 1];
      MilestoneChain(w, c, core, before);
      MilestoneStep(w, c, core, before, b);
      assert blocks == before + [b];
    }
  }

  lemma NoneLinked(w: World, c: Committee, core: Core)
    ensures Linked(w, c, core, [])
  {
  }

  lemma MilestoneStep(w: World, c: Committee, core: Core, before: seq<Block>, b: Block)
    requires Valid(w, c, core.app) && FitsLimits(w, c)
    requires Linked(w, c, core, Issues(w, c, core, before))
    requires Run(w, c, core, before).app.state == LastState(w, core, Issues(w, c, core, before))
    ensures Linked(w, c, core, Issues(w, c, core, before + [b]))
    ensures Run(w, c, core, before + [b]).app.state == LastState(w, core, Issues(w, c, core, before + [b]))
  {
    hide Valid, Linked, MadeFrom, Verifies, Mid, Completed;
    var a := Run(w, c, core, before).app;
    var mid := Mid(w, c, a, b);
    var blocks := before + [b];
    assert blocks[..|blocks| - 1] == before;
    RunValid(w, c, core, before);
    MidValid(w, c, a, b);
    MidFrozen(w, c, a, b);
    if Complete(c, mid) {
      var i := Issue(Completed(mid), b.header.height);
      ValidMilestone(w, c, mid);
      CompletedVerifies(w, c, mid);
      CompletedEssence(mid);
      LinkedSnoc(w, c, core, Issues(w, c, core, before), i);
      MadeFromIndex(w, mid.state, mid.milestone.value.essence);
    } else {
      assert Issues(w, c, core, blocks) == Issues(w, c, core, before);
    }
  }

  lemma CompletedEssence(a: App)
    requires a.milestone.Some?
    ensures Completed(a).essence == a.milestone.value.essence
  {
  }

  lemma MadeFromIndex(w: World, state: State, e: Essence)
    requires MadeFrom(w, state, e)
    ensures e.index == state.milestoneIndex
  {
  }
}
