/** For which signature thresholds the committee agrees: a smaller one lets two halves of it complete two different
    milestones of the same index. */
module Thresholds {
  import opened ByteStrings
  import opened Sets
  import opened Codec
  import opened Committees
  import opened AppData
  import opened Parents
  import opened Blocks
  import opened Chains
  import opened Sending
  import opened Network
  import opened Liveness
  import opened Progress

  // ----- a fork of the chain -----

  /** The proposals, and two blocks with the proofs whose times differ. */
  datatype Fork = Fork(b1: Block, left: Block, right: Block)

  ghost function Core1(g: Config, x: Fork): Core {
    Execute(g.w, g.c, g.start, x.b1)
  }

  ghost function Core2(g: Config, x: Fork, b: Block): Core {
    Execute(g.w, g.c, Core1(g, x), b)
  }

  /** The second block makes an essence, of the first index and of its own time. */
  ghost predicate MakesEssence(g: Config, t: Team, x: Fork, b: Block) {
    && Proves(t, Core1(g, x), b) && Accepts(Core1(g, x), b)
    && var core := Core2(g, x, b);
    && core.app == Mid(g.w, g.c, Core1(g, x).app, b) && core.app.signaturesByIssuer == map[]
    && core.app.state == g.start.app.state && Blocks.Valid(g.w, g.c, core.app)
    && core.app.milestone.Some?
    && core.app.milestone.value.essence.index == g.start.app.state.milestoneIndex
    && core.app.milestone.value.essence.timestamp == ToUint32(b.header.time)
  }

  ghost predicate IsFork(g: Config, t: Team, x: Fork) {
    && t.w == g.w && t.c == g.c && SignsRight(t) && t.honest !! g.faulty && g.c.t > 0
    && t.honest <= g.c.members(g.start.app.state.milestoneIndex) && g.start.app.state.milestoneIndex != 0
    && g.start.info.height < TWO_63 - 4 && x.b1.header.height == g.start.info.height + 1
    && Proposes(t, g.start, x.b1) && Accepts(g.start, x.b1)
    && t.honest <= Core1(g, x).app.parentByIssuer.Keys && Core1(g, x).app.state == g.start.app.state
    && Core1(g, x).app == MidAt(g.w, g.c, g.start, [x.b1], 0) && Core1(g, x).app.milestone.None?
    && MakesEssence(g, t, x, x.left) && x.left.header.time == 0
    && MakesEssence(g, t, x, x.right) && x.right.header.time == 1
  }

  // ----- no essence without proofs -----

  lemma ProposalProvesNothing(t: Team, a: App, raw: seq<byte>)
    requires SignsRight(t) && t.honest <= t.c.members(a.state.milestoneIndex)
    requires IsProposal(t, a.state.milestoneIndex, raw)
    ensures Deliver(t.w, t.c, a, raw).1.proofIssuersByBlockID == a.proofIssuersByBlockID
  {
    hide Deliver, Encoded, SignsRight;
    var p :| p in t.honest && raw == Encoded(t, p, Parent(a.state.milestoneIndex, t.proposal(p)));
    DeliverEncoded(t, a, p, Parent(a.state.milestoneIndex, t.proposal(p)));
  }

  lemma {:induction false} ProposalsProveNothing(t: Team, a: App, txs: seq<seq<byte>>)
    requires SignsRight(t) && t.honest <= t.c.members(a.state.milestoneIndex)
    requires forall raw | raw in txs :: IsProposal(t, a.state.milestoneIndex, raw)
    ensures DeliverAll(t.w, t.c, a, txs).proofIssuersByBlockID == a.proofIssuersByBlockID
  {
    hide Deliver, IsProposal, SignsRight;
    if txs != [] {
      var before := txs[..|txs| - 1];
      ProposalsProveNothing(t, a, before);
      DeliverAllFrozen(t.w, t.c, a, before);
      ProposalProvesNothing(t, DeliverAll(t.w, t.c, a, before), txs[|txs| - 1]);
    }
  }

  /** A block of proposals alone makes no essence. */
  lemma NoEssenceYet(t: Team, core: Core, b: Block)
    requires SignsRight(t) && t.honest <= t.c.members(core.app.state.milestoneIndex) && t.c.f >= 0
    requires Proposes(t, core, b) && core.app.milestone.None? && core.app.proofIssuersByBlockID == map[]
    ensures Mid(t.w, t.c, core.app, b).milestone.None?
  {
    hide DeliverAll, IsProposal, SignsRight;
    var a := DeliverAll(t.w, t.c, core.app, b.txs);
    ProposalsProveNothing(t, core.app, b.txs);
    DeliverAllFrozen(t.w, t.c, core.app, b.txs);
    assert Confirmed(t.c, a) == {};
    assert IssuersOf(a, {}) == {};
  }

  // ----- making the fork -----

  lemma MakeSecond(g: Config, t: Team, x: Fork, height: int64, time: int) returns (b: Block)
    requires t.w == g.w && t.c == g.c && IsTeam(t, g.start.app.state.milestoneIndex)
    requires Core1(g, x).app.state == g.start.app.state && Blocks.Valid(g.w, g.c, Core1(g, x).app)
    requires Core1(g, x).app.signaturesByIssuer == map[] && Core1(g, x).app.milestone.None?
    requires t.honest <= Core1(g, x).app.parentByIssuer.Keys
    requires height == NextInt64(Core1(g, x).info.height)
    ensures MakesEssence(g, t, x, b) && b.header.time == time
  {
    hide Mid, Execute, Proves, SignsRight, Blocks.Valid, NextInt64;
    b := SecondBlock(t, Core1(g, x), Header(height, time));
    MidFrozen(g.w, g.c, Core1(g, x).app, b);
    EssenceOfState(g.w, g.c, Core2(g, x, b).app);
  }

  lemma MakeFork(g: Config, t: Team) returns (x: Fork)
    requires IsConfig(g) && t.w == g.w && t.c == g.c && t.honest !! g.faulty
    requires IsTeam(t, g.start.app.state.milestoneIndex)
    requires g.start.app.state.milestoneIndex != 0 && g.start.info.height < TWO_63 - 4
    ensures IsFork(g, t, x)
  {
    hide Mid, Execute, Proposes, MakesEssence, SignsRight, Blocks.Valid, DeliverAll;
    ResetValid(g.w, g.c, g.start.app.state);
    var h1 := g.start.info.height + 1;
    var b1 := FirstBlock(t, g.start, Header(h1, 0));
    NoEssenceYet(t, g.start, b1);
    ExecuteHeight(g.w, g.c, g.start, b1);
    x := Fork(b1, b1, b1);
    var left := MakeSecond(g, t, x, h1 + 1, 0);
    var right := MakeSecond(g, t, x, h1 + 1, 1);
    x := Fork(b1, left, right);
    FirstMid(g, x);
    SameEssence(g, t, Fork(b1, b1, b1), x, left);
    SameEssence(g, t, Fork(b1, b1, b1), x, right);
  }

  lemma SameEssence(g: Config, t: Team, x: Fork, x': Fork, b: Block)
    requires MakesEssence(g, t, x, b) && x.b1 == x'.b1
    ensures MakesEssence(g, t, x', b)
  {
  }

  lemma FirstMid(g: Config, x: Fork)
    ensures MidAt(g.w, g.c, g.start, [x.b1], 0) == Mid(g.w, g.c, g.start.app, x.b1)
  {
    hide Mid;
    assert [x.b1][..0] == [];
  }

  // ----- running the fork -----

  /** The members of `s` have executed the second block `b`, and signed its essence. */
  ghost predicate OnBranch(g: Config, n: Net, x: Fork, b: Block, s: set<Byte32>) {
    && At(g, n, s, [x.b1, b], Core2(g, x, b))
    && Core2(g, x, b).app.milestone.Some?
    && forall p | p in s :: (p, Core2(g, x, b).app.milestone.value.essence) in n.signed
  }

  lemma SignBranch(g: Config, n: Net, t: Team, x: Fork, b: Block, s: set<Byte32>) returns (run: seq<Step>)
    requires IsFork(g, t, x) && MakesEssence(g, t, x, b) && s <= t.honest
    requires Proved(n, t, Core1(g, x).app) && At(g, n, s, [x.b1], Core1(g, x))
    ensures IsRun(g, n, run)
    ensures var n' := RunFrom(g, n, run);
      && OnBranch(g, n', x, b, s) && More(n, n')
      && forall q | q !in s :: Chain(n', q) == Chain(n, q) && LiveOf(g, n', q) == LiveOf(g, n, q)
  {
    hide Mid, MidAt, Execute, Proposes, Proves, SignsRight, Enabled, Next, Signs, Blocks.Valid;
    ExecuteHeight(g.w, g.c, g.start, x.b1);
    run := ExecuteAll(g, n, t, s, [x.b1], Core1(g, x), b);
    assert [x.b1] + [b] == [x.b1, b];
    forall p | p in s ensures (p, Core2(g, x, b).app.milestone.value.essence) in RunFrom(g, n, run).signed {
      SignsFirst(g.c, p, Core2(g, x, b).app);
    }
  }

  lemma BranchStays(g: Config, n: Net, n': Net, x: Fork, b: Block, s: set<Byte32>)
    requires OnBranch(g, n, x, b, s) && More(n, n')
    requires forall p | p in s :: Chain(n', p) == Chain(n, p) && LiveOf(g, n', p) == LiveOf(g, n, p)
    ensures OnBranch(g, n', x, b, s)
  {
    hide Execute;
  }

  /** All propose and prove; then the members of `l` execute one second block, and those of `r` another one. */
  lemma RunFork(g: Config, t: Team, x: Fork, l: set<Byte32>, r: set<Byte32>) returns (run: seq<Step>)
    requires IsConfig(g) && IsFork(g, t, x) && l <= t.honest && r <= t.honest && l !! r
    ensures IsRun(g, NOTHING, run)
    ensures OnBranch(g, RunFrom(g, NOTHING, run), x, x.left, l)
    ensures OnBranch(g, RunFrom(g, NOTHING, run), x, x.right, r)
  {
    hide Mid, MidAt, Execute, Proposes, Proves, MakesEssence, SignsRight, Enabled, Next, Invariant, OnBranch;
    var run1 := ProposeRound(g, t, x.b1);
    Reachable(g, run1);
    var run2 := ProveEach(g, RunFrom(g, NOTHING, run1), t, [x.b1], t.honest);
    RunsConcat(g, NOTHING, run1, run2);
    var n2 := RunFrom(g, NOTHING, run1 + run2);
    var run3 := SignBranch(g, n2, t, x, x.left, l);
    RunsConcat(g, NOTHING, run1 + run2, run3);
    var n3 := RunFrom(g, NOTHING, run1 + run2 + run3);
    var run4 := SignBranch(g, n3, t, x, x.right, r);
    RunsConcat(g, NOTHING, run1 + run2 + run3, run4);
    run := run1 + run2 + run3 + run4;
    BranchStays(g, n3, RunFrom(g, NOTHING, run), x, x.left, l);
  }

  // ----- agreement -----

  /** At the end of the run, two different essences of the first index are both signed by quorums. */
  ghost predicate Disagree(g: Config, run: seq<Step>, e: Essence, e': Essence, q: set<Byte32>, q': set<Byte32>) {
    && IsRun(g, NOTHING, run) && e != e' && e.index == e'.index == g.start.app.state.milestoneIndex
    && q <= g.c.members(e.index) && |q| >= g.c.t
    && q' <= g.c.members(e.index) && |q'| >= g.c.t
    && (forall p | p in q && p !in g.faulty :: (p, e) in RunFrom(g, NOTHING, run).signed)
    && (forall p | p in q' && p !in g.faulty :: (p, e') in RunFrom(g, NOTHING, run).signed)
  }

  lemma {:induction false} TakeSome(s: set<Byte32>, n: nat) returns (r: set<Byte32>)
    requires n <= |s|
    ensures r <= s && |r| == n
  {
    r := {};
    if n > 0 {
      var x := Pick(s);
      var rest := TakeSome(s - {x}, n - 1);
      r := rest + {x};
    }
  }

  /** The committee is the one of NewCommitteeFromManager, with N keys for the first index. */
  ghost predicate HasAllKeys(g: Config) {
    g.c.n > 0 && g.c.f == MaxFaulty(g.c.n) && |g.c.members(g.start.app.state.milestoneIndex)| == g.c.n
  }

  /** Two halves of the honest members, each of which is a quorum together with the faulty ones. */
  ghost predicate IsHalves(g: Config, l: set<Byte32>, r: set<Byte32>) {
    var members := g.c.members(g.start.app.state.milestoneIndex);
    && l <= members - g.faulty && r <= members - g.faulty && l !! r && l != {} && r != {}
    && |l + g.faulty * members| >= g.c.t && |r + g.faulty * members| >= g.c.t
  }

  lemma Halves(g: Config) returns (l: set<Byte32>, r: set<Byte32>)
    requires IsConfig(g) && HasAllKeys(g) && g.c.t > 0
    requires !Overlapping(g.c, g.start.app.state.milestoneIndex, g.faulty)
    ensures IsHalves(g, l, r)
  {
    hide FitsLimits, IsReset, MaxFaulty;
    var members := g.c.members(g.start.app.state.milestoneIndex);
    var honest, k := members - g.faulty, g.faulty * members;
    assert members == honest + k && |k| <= g.c.f;
    HalfIsEnough(g.c.n, |k|, g.c.t);
    l := TakeSome(honest, |honest| / 2);
    r := honest - l;
    UnionSize(l, r, honest);
    UnionSize(l, k, l + k);
    UnionSize(r, k, r + k);
  }

  lemma HalfIsEnough(n: int, k: int, t: int)
    requires n > 0 && 0 <= k <= MaxFaulty(n) && 0 < t && 2 * t <= n + k
    ensures 0 < (n - k) / 2 < n - k && (n - k) / 2 + k >= t && n - k - (n - k) / 2 + k >= t
  {
  }

  lemma UnionSize(a: set<Byte32>, b: set<Byte32>, all: set<Byte32>)
    requires a !! b && a + b == all
    ensures |all| == |a| + |b|
  {
  }

  lemma TeamOfAll(g: Config, sign: Byte32 -> seq<byte> -> seq<byte>, proposal: Byte32 -> Byte32)
    requires IsConfig(g) && SignsRight(TeamOf(g, sign, proposal)) && HasAllKeys(g) && g.c.t > 0
    requires !Overlapping(g.c, g.start.app.state.milestoneIndex, g.faulty)
    ensures IsTeam(TeamOf(g, sign, proposal), g.start.app.state.milestoneIndex)
  {
    hide SignsRight;
    assert |g.faulty * g.c.members(g.start.app.state.milestoneIndex)| <= g.c.f;
    EnoughHonest(g.c, g.start.app.state.milestoneIndex, g.faulty);
  }

  lemma NobodySigns(g: Config) returns (e: Essence, e': Essence)
    requires g.c.t <= 0
    ensures Disagree(g, [], e, e', {}, {})
  {
    var index := g.start.app.state.milestoneIndex;
    e, e' := Essence(index, 0, 0, 0, [], 0, 0, []), Essence(index, 1, 0, 0, [], 0, 0, []);
  }

  lemma BranchesDisagree(g: Config, t: Team, x: Fork, run: seq<Step>, l: set<Byte32>, r: set<Byte32>)
    returns (e: Essence, e': Essence, q: set<Byte32>, q': set<Byte32>)
    requires IsFork(g, t, x) && IsRun(g, NOTHING, run) && IsHalves(g, l, r)
    requires OnBranch(g, RunFrom(g, NOTHING, run), x, x.left, l) && OnBranch(g, RunFrom(g, NOTHING, run), x, x.right, r)
    ensures Disagree(g, run, e, e', q, q')
  {
    hide Execute, Mid, MidAt, Proposes, Proves, SignsRight, Blocks.Valid, IsRun;
    var k := g.faulty * g.c.members(g.start.app.state.milestoneIndex);
    e, e' := Core2(g, x, x.left).app.milestone.value.essence, Core2(g, x, x.right).app.milestone.value.essence;
    q, q' := l + k, r + k;
  }

  /** The exact condition for agreement: in no run at all are two different essences of the first index both signed by
      quorums, if and only if twice the threshold exceeds the number of members plus that of the faulty ones. */
  lemma AgreementThreshold(g: Config, sign: Byte32 -> seq<byte> -> seq<byte>, proposal: Byte32 -> Byte32)
    requires IsConfig(g) && SignsRight(TeamOf(g, sign, proposal)) && HasAllKeys(g)
    requires g.start.app.state.milestoneIndex != 0 && g.start.info.height < TWO_63 - 4
    ensures Overlapping(g.c, g.start.app.state.milestoneIndex, g.faulty) <==>
      forall run, e, e', q, q' :: !Disagree(g, run, e, e', q, q')
  {
    hide Disagree, IsConfig, HasAllKeys, Overlapping, SignsRight;
    if Overlapping(g.c, g.start.app.state.milestoneIndex, g.faulty) {
      forall run, e, e', q, q' ensures !Disagree(g, run, e, e', q, q') {
        NoDisagreement(g, run, e, e', q, q');
      }
    } else {
      var run, e, e', q, q' := SomeDisagreement(g, sign, proposal);
    }
  }

  lemma ForkRun(g: Config, sign: Byte32 -> seq<byte> -> seq<byte>, proposal: Byte32 -> Byte32)
    returns (x: Fork, l: set<Byte32>, r: set<Byte32>, run: seq<Step>)
    requires IsConfig(g) && SignsRight(TeamOf(g, sign, proposal)) && HasAllKeys(g) && g.c.t > 0
    requires g.start.app.state.milestoneIndex != 0 && g.start.info.height < TWO_63 - 4
    requires !Overlapping(g.c, g.start.app.state.milestoneIndex, g.faulty)
    ensures IsFork(g, TeamOf(g, sign, proposal), x) && IsHalves(g, l, r) && IsRun(g, NOTHING, run)
    ensures OnBranch(g, RunFrom(g, NOTHING, run), x, x.left, l) && OnBranch(g, RunFrom(g, NOTHING, run), x, x.right, r)
  {
    hide IsConfig, HasAllKeys, Overlapping, IsFork, IsTeam, SignsRight, OnBranch;
    TeamOfAll(g, sign, proposal);
    l, r := Halves(g);
    x := MakeFork(g, TeamOf(g, sign, proposal));
    run := RunFork(g, TeamOf(g, sign, proposal), x, l, r);
  }

  lemma SomeDisagreement(g: Config, sign: Byte32 -> seq<byte> -> seq<byte>, proposal: Byte32 -> Byte32)
    returns (run: seq<Step>, e: Essence, e': Essence, q: set<Byte32>, q': set<Byte32>)
    requires IsConfig(g) && SignsRight(TeamOf(g, sign, proposal)) && HasAllKeys(g)
    requires g.start.app.state.milestoneIndex != 0 && g.start.info.height < TWO_63 - 4
    requires !Overlapping(g.c, g.start.app.state.milestoneIndex, g.faulty)
    ensures Disagree(g, run, e, e', q, q')
  {
    hide Disagree, IsConfig, IsFork, HasAllKeys, Overlapping, IsHalves, SignsRight, OnBranch;
    if g.c.t <= 0 {
      run, q, q' := [], {}, {};
      e, e' := NobodySigns(g);
    } else {
      var x, l, r;
      x, l, r, run := ForkRun(g, sign, proposal);
      e, e', q, q' := BranchesDisagree(g, TeamOf(g, sign, proposal), x, run, l, r);
    }
  }

  lemma NoDisagreement(g: Config, run: seq<Step>, e: Essence, e': Essence, q: set<Byte32>, q': set<Byte32>)
    requires IsConfig(g) && Overlapping(g.c, g.start.app.state.milestoneIndex, g.faulty)
    ensures !Disagree(g, run, e, e', q, q')
  {
    hide IsConfig, Overlapping;
    if Disagree(g, run, e, e', q, q') {
      Agreement(g, run, e, e', q, q');
    }
  }

  // ----- completed milestones -----

  /** All the members, if the faulty ones can sign too. */
  ghost function Everybody(g: Config, sign: Byte32 -> seq<byte> -> seq<byte>, proposal: Byte32 -> Byte32): Team {
    Team(g.w, g.c, g.c.members(g.start.app.state.milestoneIndex), sign, proposal)
  }

  /** A block of signatures is authentic if the honest signers have signed. */
  lemma SignaturesAreAuthentic(g: Config, n: Net, t: Team, core: Core, b: Block)
    requires t.w == g.w && t.c == g.c && SignsRight(t) && t.honest <= g.c.members(core.app.state.milestoneIndex)
    requires SignsBlock(t, core, b)
    requires forall p | p in t.honest && p !in g.faulty :: (p, core.app.milestone.value.essence) in n.signed
    ensures AllAuthentic(g, n, core.app, b.txs)
  {
    hide Authentic, Encoded, DeliverAll, SignsRight;
    var e := core.app.milestone.value.essence;
    forall i | 0 <= i < |b.txs| ensures Authentic(g, n, DeliverAll(g.w, g.c, core.app, b.txs[..i]), b.txs[i]) {
      var a := DeliverAll(g.w, g.c, core.app, b.txs[..i]);
      DeliverAllFrozen(g.w, g.c, core.app, b.txs[..i]);
      assert IsSignature(t, e, b.txs[i]);
      var p :| p in t.honest && b.txs[i] == Encoded(t, p, OwnSignature(t, p, e));
      SignatureIsAuthentic(g, n, t, a, p, e);
    }
  }

  lemma SignatureIsAuthentic(g: Config, n: Net, t: Team, a: App, p: Byte32, e: Essence)
    requires t.w == g.w && t.c == g.c && SignsRight(t) && p in t.honest && p in g.c.members(a.state.milestoneIndex)
    requires a.milestone.Some? && a.milestone.value.essence == e && (p in g.faulty || (p, e) in n.signed)
    ensures Authentic(g, n, a, Encoded(t, p, OwnSignature(t, p, e)))
  {
    hide Authentic, Encoded;
    EncodedIsAuthentic(g, n, t, a, p, OwnSignature(t, p, e));
  }

  /** The member has completed a milestone with this essence by the third block of its chain. */
  ghost predicate CompletedBy(g: Config, n: Net, p: Byte32, e: Essence) {
    |Chain(n, p)| == 3 && Complete(g.c, MidOf(g, n, p, 2)) && MidOf(g, n, p, 2).milestone.value.essence == e
  }

  /** A member of a branch executes a block with the signatures of the others there and of the faulty members. */
  lemma CompleteBranch(g: Config, n: Net, t: Team, signers: Team, x: Fork, b: Block, s: set<Byte32>, p: Byte32)
    returns (step: Step)
    requires IsFork(g, t, x) && MakesEssence(g, t, x, b) && OnBranch(g, n, x, b, s) && p in s && p !in g.faulty
    requires signers.w == g.w && signers.c == g.c && SignsRight(signers) && g.c.t <= |signers.honest|
    requires signers.honest <= g.c.members(g.start.app.state.milestoneIndex) && signers.honest <= s + g.faulty
    ensures step.ExecuteBlock? && step.id == p && Enabled(g, n, step)
    ensures More(n, Next(g, n, step)) &&
      CompletedBy(g, Next(g, n, step), p, Core2(g, x, b).app.milestone.value.essence)
  {
    hide Mid, MidAt, Execute, Proposes, Proves, SignsBlock, SignsRight, Complete, Blocks.Valid, AllAuthentic;
    var core := Core2(g, x, b);
    ExecuteHeight(g.w, g.c, g.start, x.b1);
    ExecuteHeight(g.w, g.c, Core1(g, x), b);
    var b3 := ThirdBlock(signers, core, Header(NextInt64(core.info.height), 0));
    SignsSome(signers, core, b3);
    SignaturesAreAuthentic(g, n, signers, core, b3);
    ThreeBlocks(g, x.b1, b, b3);
    assert [x.b1, b] + [b3] == [x.b1, b, b3];
    step := ExecuteBlock(p, b3);
  }

  lemma SignsSome(t: Team, core: Core, b: Block)
    requires SignsBlock(t, core, b)
    ensures core.app.milestone.Some?
  {
  }

  /** Two honest members complete milestones of the first index with different essences. */
  ghost predicate CompleteTwo(g: Config, run: seq<Step>, p: Byte32, k: nat, p': Byte32, k': nat) {
    && IsRun(g, NOTHING, run) && p !in g.faulty && p' !in g.faulty
    && var n := RunFrom(g, NOTHING, run);
    && k < |Chain(n, p)| && Complete(g.c, MidOf(g, n, p, k))
    && k' < |Chain(n, p')| && Complete(g.c, MidOf(g, n, p', k'))
    && var e, e' := MidOf(g, n, p, k).milestone.value.essence, MidOf(g, n, p', k').milestone.value.essence;
    e != e' && e.index == e'.index == g.start.app.state.milestoneIndex
  }

  lemma CompletedAfter(g: Config, n: Net, step: Step, p: Byte32, e: Essence)
    requires step.ExecuteBlock? && step.id != p && Enabled(g, n, step) && CompletedBy(g, n, p, e)
    ensures CompletedBy(g, Next(g, n, step), p, e)
  {
    hide Mid, Execute, MidAt, Complete, Enabled;
    assert MidOf(g, Next(g, n, step), p, 2) == MidOf(g, n, p, 2);
  }

  lemma ForkEssences(g: Config, t: Team, x: Fork)
    requires IsFork(g, t, x)
    ensures Core2(g, x, x.left).app.milestone.Some? && Core2(g, x, x.right).app.milestone.Some?
    ensures var e := Core2(g, x, x.left).app.milestone.value.essence;
      var e' := Core2(g, x, x.right).app.milestone.value.essence;
      e != e' && e.index == e'.index == g.start.app.state.milestoneIndex
  {
    hide Mid, MidAt, Execute, Proposes, Proves, SignsRight, Blocks.Valid;
  }

  /** The two branches complete their milestones. */
  lemma CompleteFork(g: Config, t: Team, everybody: Team, x: Fork, run: seq<Step>, l: set<Byte32>, r: set<Byte32>)
    returns (run': seq<Step>, p: Byte32, p': Byte32)
    requires IsFork(g, t, x) && IsRun(g, NOTHING, run) && IsHalves(g, l, r)
    requires everybody.w == g.w && everybody.c == g.c && SignsRight(everybody)
    requires everybody.honest == g.c.members(g.start.app.state.milestoneIndex)
    requires OnBranch(g, RunFrom(g, NOTHING, run), x, x.left, l) && OnBranch(g, RunFrom(g, NOTHING, run), x, x.right, r)
    ensures p !in g.faulty && p' !in g.faulty && IsRun(g, NOTHING, run')
    ensures CompletedBy(g, RunFrom(g, NOTHING, run'), p, Core2(g, x, x.left).app.milestone.value.essence)
    ensures CompletedBy(g, RunFrom(g, NOTHING, run'), p', Core2(g, x, x.right).app.milestone.value.essence)
  {
    hide Core2, IsFork, MakesEssence, Enabled, Next, SignsRight, CompletedBy, OnBranch;
    var k := g.faulty * everybody.honest;
    var n := RunFrom(g, NOTHING, run);
    ForkEssences(g, t, x);
    p, p' := Pick(l), Pick(r);
    var step := CompleteHalf(g, n, t, everybody, x, x.left, l, p);
    var n' := Next(g, n, step);
    BranchAfter(g, n, step, x, x.right, r);
    var step' := CompleteHalf(g, n', t, everybody, x, x.right, r, p');
    RunSnoc(g, NOTHING, run, step);
    RunSnoc(g, NOTHING, run + [step], step');
    CompletedAfter(g, n', step', p, Core2(g, x, x.left).app.milestone.value.essence);
    run' := run + [step] + [step'];
  }

  lemma CompleteHalf(g: Config, n: Net, t: Team, everybody: Team, x: Fork, b: Block, s: set<Byte32>, p: Byte32)
    returns (step: Step)
    requires IsFork(g, t, x) && (b == x.left || b == x.right) && OnBranch(g, n, x, b, s)
    requires p in s && p !in g.faulty
    requires everybody.w == g.w && everybody.c == g.c && SignsRight(everybody)
    requires everybody.honest == g.c.members(g.start.app.state.milestoneIndex) && s <= everybody.honest
    requires g.c.t <= |s + g.faulty * everybody.honest|
    ensures Core2(g, x, b).app.milestone.Some?
    ensures step.ExecuteBlock? && step.id == p && Enabled(g, n, step)
    ensures CompletedBy(g, Next(g, n, step), p, Core2(g, x, b).app.milestone.value.essence)
  {
    hide Execute, Mid, MidAt, Proposes, MakesEssence, Enabled, Next, SignsRight, CompletedBy, OnBranch;
    var signers := s + g.faulty * everybody.honest;
    SomeSignRight(everybody, signers);
    ForkEssences(g, t, x);
    step := CompleteBranch(g, n, t, everybody.(honest := signers), x, b, s, p);
  }

  lemma SomeSignRight(t: Team, s: set<Byte32>)
    requires SignsRight(t) && s <= t.honest
    ensures SignsRight(t.(honest := s))
  {
  }

  lemma BranchAfter(g: Config, n: Net, step: Step, x: Fork, b: Block, s: set<Byte32>)
    requires step.ExecuteBlock? && Enabled(g, n, step) && step.id !in s && OnBranch(g, n, x, b, s)
    ensures OnBranch(g, Next(g, n, step), x, b, s)
  {
    hide Mid, Execute, Enabled;
    BranchStays(g, n, Next(g, n, step), x, b, s);
  }

  /** The condition is also exact for the milestones themselves: in no run at all do two honest members complete
      different ones of the first index, if and only if quorums overlap. */
  lemma CompletionThreshold(g: Config, sign: Byte32 -> seq<byte> -> seq<byte>, proposal: Byte32 -> Byte32)
    requires IsConfig(g) && SignsRight(Everybody(g, sign, proposal)) && HasAllKeys(g) && g.c.t > 0
    requires g.start.app.state.milestoneIndex != 0 && g.start.info.height < TWO_63 - 4
    ensures Overlapping(g.c, g.start.app.state.milestoneIndex, g.faulty) <==>
      forall run, p, k, p', k' :: !CompleteTwo(g, run, p, k, p', k')
  {
    hide CompleteTwo, IsConfig, HasAllKeys, Overlapping, SignsRight;
    if Overlapping(g.c, g.start.app.state.milestoneIndex, g.faulty) {
      forall run, p, k, p', k' ensures !CompleteTwo(g, run, p, k, p', k') {
        NeverTwo(g, run, p, k, p', k');
      }
    } else {
      var run, p, p' := TwoMilestones(g, sign, proposal);
    }
  }

  lemma NeverTwo(g: Config, run: seq<Step>, p: Byte32, k: nat, p': Byte32, k': nat)
    requires IsConfig(g) && Overlapping(g.c, g.start.app.state.milestoneIndex, g.faulty)
    ensures !CompleteTwo(g, run, p, k, p', k')
  {
    hide IsConfig, Overlapping, MidAt;
    if CompleteTwo(g, run, p, k, p', k') {
      CompletedAgree(g, run, p, k, p', k');
    }
  }

  lemma TwoMilestones(g: Config, sign: Byte32 -> seq<byte> -> seq<byte>, proposal: Byte32 -> Byte32)
    returns (run: seq<Step>, p: Byte32, p': Byte32)
    requires IsConfig(g) && SignsRight(Everybody(g, sign, proposal)) && HasAllKeys(g) && g.c.t > 0
    requires g.start.app.state.milestoneIndex != 0 && g.start.info.height < TWO_63 - 4
    requires !Overlapping(g.c, g.start.app.state.milestoneIndex, g.faulty)
    ensures CompleteTwo(g, run, p, 2, p', 2)
  {
    hide IsConfig, HasAllKeys, Overlapping, IsFork, IsHalves, SignsRight, OnBranch, CompleteTwo, CompletedBy;
    SomeSignRight(Everybody(g, sign, proposal), TeamOf(g, sign, proposal).honest);
    assert Everybody(g, sign, proposal).(honest := TeamOf(g, sign, proposal).honest) == TeamOf(g, sign, proposal);
    var x, l, r, before := ForkRun(g, sign, proposal);
    run, p, p' := CompleteFork(g, TeamOf(g, sign, proposal), Everybody(g, sign, proposal), x, before, l, r);
    ForkEssences(g, TeamOf(g, sign, proposal), x);
    AreTwo(g, run, p, p', Core2(g, x, x.left).app.milestone.value.essence,
           Core2(g, x, x.right).app.milestone.value.essence);
  }

  lemma AreTwo(g: Config, run: seq<Step>, p: Byte32, p': Byte32, e: Essence, e': Essence)
    requires IsRun(g, NOTHING, run) && p !in g.faulty && p' !in g.faulty
    requires CompletedBy(g, RunFrom(g, NOTHING, run), p, e) && CompletedBy(g, RunFrom(g, NOTHING, run), p', e')
    requires e != e' && e.index == e'.index == g.start.app.state.milestoneIndex
    ensures CompleteTwo(g, run, p, 2, p', 2)
  {
    hide MidAt, Complete, IsRun;
  }

  // ----- progress -----

  /** Only members of `s` have contributed to the state. */
  ghost predicate Within(a: App, s: set<Byte32>) {
    a.signaturesByIssuer.Keys <= s && forall b :: ProofIssuers(a, b) <= s
  }

  /** Whatever the committee is, the transaction is not one of others. */
  ghost predicate IsBy(w: World, c: Committee, s: set<Byte32>, raw: seq<byte>) {
    forall index: uint32 ::
      var u := UnmarshalTx(c.members(index), w.verify, raw);
      u.Ok? ==> u.issuer in s
  }

  ghost predicate BlocksBy(w: World, c: Committee, s: set<Byte32>, blocks: seq<Block>) {
    forall i | 0 <= i < |blocks| :: TxsBy(w, c, s, blocks[i].txs)
  }

  ghost predicate TxsBy(w: World, c: Committee, s: set<Byte32>, txs: seq<seq<byte>>) {
    forall raw | raw in txs :: IsBy(w, c, s, raw)
  }

  lemma ApplyWithin(w: World, a: App, issuer: Byte32, tx: Tx, s: set<Byte32>)
    requires Within(a, s) && issuer in s && Apply(w, a, issuer, tx).Done?
    ensures Within(Apply(w, a, issuer, tx).app, s)
  {
    var a' := Apply(w, a, issuer, tx).app;
    forall b ensures ProofIssuers(a', b) <= s {
      assert ProofIssuers(a, b) <= s;
    }
  }

  lemma {:induction false} DeliverWithin(w: World, c: Committee, a: App, txs: seq<seq<byte>>, s: set<Byte32>)
    requires Within(a, s) && TxsBy(w, c, s, txs)
    ensures Within(DeliverAll(w, c, a, txs), s)
  {
    hide UnmarshalTx, Apply, Within;
    if txs != [] {
      var last := |txs| - 1;
      var before := DeliverAll(w, c, a, txs[..last]);
      DeliverWithin(w, c, a, txs[..last], s);
      assert IsBy(w, c, s, txs[last]);
      var u := UnmarshalTx(c.members(before.state.milestoneIndex), w.verify, txs[last]);
      if u.Ok? && Apply(w, before, u.issuer, u.tx).Done? {
        ApplyWithin(w, before, u.issuer, u.tx, s);
      }
    }
  }

  lemma MidWithin(w: World, c: Committee, a: App, b: Block, s: set<Byte32>)
    requires Within(a, s) && TxsBy(w, c, s, b.txs)
    ensures Within(Mid(w, c, a, b), s)
  {
    hide DeliverAll, EnoughParents, NewEssence, TxsBy;
    DeliverWithin(w, c, a, b.txs, s);
    forall x ensures ProofIssuers(Mid(w, c, a, b), x) <= s {
      assert ProofIssuers(DeliverAll(w, c, a, b.txs), x) <= s;
    }
  }

  lemma {:induction false} RunWithin(w: World, c: Committee, core: Core, blocks: seq<Block>, s: set<Byte32>)
    requires Within(core.app, s) && BlocksBy(w, c, s, blocks)
    ensures Within(Run(w, c, core, blocks).app, s)
  {
    hide Mid, TxsBy, NextState;
    if blocks != [] {
      var last := |blocks| - 1;
      RunWithin(w, c, core, blocks[..last], s);
      MidWithin(w, c, Run(w, c, core, blocks[..last]).app, blocks[last], s);
    }
  }

  /** That the honest members are enough is needed, too: if nobody else contributes to a chain on which a milestone is
      completed, then they reach both thresholds. */
  lemma EnoughIsNeeded(w: World, c: Committee, core: Core, blocks: seq<Block>, k: nat, s: set<Byte32>)
    requires IsReset(w, core) && c.f >= 0 && c.t > 0
    requires BlocksBy(w, c, s, blocks) && k < |blocks| && Complete(c, MidAt(w, c, core, blocks, k))
    ensures IsEnough(c, s)
  {
    hide Run, Mid, Counted, Signed, EnoughParents, TxsBy;
    var mid := MidAt(w, c, core, blocks, k);
    ResetValid(w, c, core.app.state);
    RunValid(w, c, core, blocks[..k]);
    MidValid(w, c, Run(w, c, core, blocks[..k]).app, blocks[k]);
    RunWithin(w, c, core, blocks[..k], s);
    MidWithin(w, c, Run(w, c, core, blocks[..k]).app, blocks[k], s);
    var b := ConfirmedBlock(c, mid);
    SubsetSize(ProofIssuers(mid, b), s);
    SubsetSize(mid.signaturesByIssuer.Keys, s);
  }
}
