/** The system makes progress: there is a run in which every honest member completes a milestone. */
module Progress {
  import opened ByteStrings
  import opened Codec
  import opened Committees
  import opened AppData
  import opened Blocks
  import opened Chains
  import opened Sending
  import opened Network
  import opened Liveness

  /** The honest members of the system. */
  ghost function TeamOf(g: Config, sign: Byte32 -> seq<byte> -> seq<byte>, proposal: Byte32 -> Byte32): Team {
    Team(g.w, g.c, g.c.members(g.start.app.state.milestoneIndex) - g.faulty, sign, proposal)
  }

  // ----- runs -----

  lemma {:induction false} RunsConcat(g: Config, n: Net, x: seq<Step>, y: seq<Step>)
    requires IsRun(g, n, x) && IsRun(g, RunFrom(g, n, x), y)
    ensures IsRun(g, n, x + y) && RunFrom(g, n, x + y) == RunFrom(g, RunFrom(g, n, x), y)
    decreases |x|
  {
    hide Enabled, Next;
    if x == [] {
      assert x + y == y;
    } else {
      RunsConcat(g, Next(g, n, x[0]), x[1..], y);
      assert (x + y)[0] == x[0] && (x + y)[1..] == x[1..] + y;
    }
  }

  lemma RunSnoc(g: Config, n: Net, x: seq<Step>, s: Step)
    requires IsRun(g, n, x) && Enabled(g, RunFrom(g, n, x), s)
    ensures IsRun(g, n, x + [s]) && RunFrom(g, n, x + [s]) == Next(g, RunFrom(g, n, x), s)
  {
    hide Enabled, Next;
    RunsConcat(g, n, x, [s]);
  }

  // ----- authentic transactions -----

  lemma EncodedIsAuthentic(g: Config, n: Net, t: Team, a: App, p: Byte32, tx: Tx)
    requires t.w == g.w && t.c == g.c && SignsRight(t) && p in t.honest && p in g.c.members(a.state.milestoneIndex)
    requires tx.PartialSignature? ==> |tx.signature| == SIGNATURE_SIZE
    requires p in g.faulty ||
      if tx.PartialSignature? then a.milestone.Some? && (p, a.milestone.value.essence) in n.signed
      else (p, tx) in n.sent
    ensures Authentic(g, n, a, Encoded(t, p, tx))
  {
    hide MarshalTx, UnmarshalTx;
    TxRoundTrip(t.c.members(a.state.milestoneIndex), t.w.verify, p, t.sign(p), tx);
  }

  /** All the proposals that the team can make were made. */
  ghost predicate Proposed(n: Net, t: Team, index: uint32) {
    forall p | p in t.honest :: (p, Parent(index, t.proposal(p))) in n.sent
  }

  ghost predicate Proved(n: Net, t: Team, a: App) {
    forall p, q | p in t.honest && q in t.honest && p in a.parentByIssuer ::
      (q, Proof(a.state.milestoneIndex, a.parentByIssuer[p])) in n.sent
  }

  ghost predicate SignedBy(n: Net, t: Team, e: Essence) {
    forall p | p in t.honest :: (p, e) in n.signed
  }

  /** The block consists of what the team has sent or signed. */
  ghost predicate Ready(n: Net, t: Team, core: Core, b: Block) {
    var index := core.app.state.milestoneIndex;
    || b.txs == []
    || (Proposes(t, core, b) && Proposed(n, t, index))
    || (Proves(t, core, b) && Proved(n, t, core.app))
    || (SignsBlock(t, core, b) && SignedBy(n, t, core.app.milestone.value.essence))
  }

  lemma ReadyRaw(g: Config, n: Net, t: Team, core: Core, b: Block, a: App, raw: seq<byte>)
    requires t.w == g.w && t.c == g.c && SignsRight(t) && t.honest <= g.c.members(core.app.state.milestoneIndex)
    requires Ready(n, t, core, b) && raw in b.txs && a.state == core.app.state && a.milestone == core.app.milestone
    ensures Authentic(g, n, a, raw)
  {
    hide Authentic, Encoded;
    var index := core.app.state.milestoneIndex;
    if Proposes(t, core, b) && Proposed(n, t, index) {
      assert IsProposal(t, index, raw);
      var p :| p in t.honest && raw == Encoded(t, p, Parent(index, t.proposal(p)));
      EncodedIsAuthentic(g, n, t, a, p, Parent(index, t.proposal(p)));
    } else if Proves(t, core, b) && Proved(n, t, core.app) {
      assert IsProof(t, core.app, raw);
      var p :| IsProofOf(t, core.app, p, raw);
      var q :| q in t.honest && raw == Encoded(t, q, Proof(index, core.app.parentByIssuer[p]));
      EncodedIsAuthentic(g, n, t, a, q, Proof(index, core.app.parentByIssuer[p]));
    } else {
      var e := core.app.milestone.value.essence;
      assert IsSignature(t, e, raw);
      var p :| p in t.honest && raw == Encoded(t, p, OwnSignature(t, p, e));
      EncodedIsAuthentic(g, n, t, a, p, OwnSignature(t, p, e));
    }
  }

  lemma ReadyIsAuthentic(g: Config, n: Net, t: Team, core: Core, b: Block)
    requires t.w == g.w && t.c == g.c && SignsRight(t) && t.honest <= g.c.members(core.app.state.milestoneIndex)
    requires Ready(n, t, core, b)
    ensures AllAuthentic(g, n, core.app, b.txs)
  {
    hide Authentic, Ready, SignsRight, DeliverAll;
    forall i | 0 <= i < |b.txs| ensures Authentic(g, n, DeliverAll(g.w, g.c, core.app, b.txs[..i]), b.txs[i]) {
      DeliverAllFrozen(g.w, g.c, core.app, b.txs[..i]);
      ReadyRaw(g, n, t, core, b, DeliverAll(g.w, g.c, core.app, b.txs[..i]), b.txs[i]);
    }
  }

  // ----- everybody does it -----

  /** The members of `s` have executed `blocks`, and are in the state `core`. */
  ghost predicate At(g: Config, n: Net, s: set<Byte32>, blocks: seq<Block>, core: Core) {
    forall p | p in s :: Chain(n, p) == blocks && LiveOf(g, n, p) == Live(core, |blocks|)
  }

  ghost predicate More(n: Net, n': Net) {
    n.sent <= n'.sent && n.signed <= n'.signed
  }

  lemma ReadyMore(n: Net, n': Net, t: Team, core: Core, b: Block)
    requires Ready(n, t, core, b) && More(n, n')
    ensures Ready(n', t, core, b)
  {
    hide Proposes, Proves, IsSignature;
  }

  lemma ExecuteOne(g: Config, n: Net, t: Team, p: Byte32, blocks: seq<Block>, core: Core, b: Block)
    requires t.w == g.w && t.c == g.c && SignsRight(t) && t.honest <= g.c.members(core.app.state.milestoneIndex)
    requires Ready(n, t, core, b) && Accepts(core, b) && core.info.height < TWO_63 - 1
    requires p !in g.faulty && At(g, n, {p}, blocks, core)
    ensures Enabled(g, n, ExecuteBlock(p, b))
    ensures var n' := Next(g, n, ExecuteBlock(p, b));
      && More(n, n') && At(g, n', {p}, blocks + [b], Execute(g.w, g.c, core, b))
      && (forall q | q != p :: Chain(n', q) == Chain(n, q) && LiveOf(g, n', q) == LiveOf(g, n, q))
      && var mid := Mid(g.w, g.c, core.app, b);
      Signs(g.c, p, mid) ==> (p, mid.milestone.value.essence) in n'.signed
  {
    hide AllAuthentic, Ready, SignsRight, Execute, Mid;
    ReadyIsAuthentic(g, n, t, core, b);
  }

  lemma {:induction false} ExecuteAll(g: Config, n: Net, t: Team, s: set<Byte32>,
                                            blocks: seq<Block>, core: Core, b: Block)
    returns (run: seq<Step>)
    requires t.w == g.w && t.c == g.c && SignsRight(t) && t.honest <= g.c.members(core.app.state.milestoneIndex)
    requires Ready(n, t, core, b) && Accepts(core, b) && core.info.height < TWO_63 - 1
    requires s !! g.faulty && At(g, n, s, blocks, core)
    ensures IsRun(g, n, run)
    ensures var n' := RunFrom(g, n, run);
      && More(n, n') && At(g, n', s, blocks + [b], Execute(g.w, g.c, core, b))
      && (forall q | q !in s :: Chain(n', q) == Chain(n, q) && LiveOf(g, n', q) == LiveOf(g, n, q))
      && var mid := Mid(g.w, g.c, core.app, b);
      forall p | p in s && Signs(g.c, p, mid) :: (p, mid.milestone.value.essence) in n'.signed
  {
    hide Ready, SignsRight, Execute, Mid, Enabled, Next, Signs, Accepts;
    run := [];
    if s != {} {
      var p := Pick(s);
      var before := ExecuteAll(g, n, t, s - {p}, blocks, core, b);
      var n' := RunFrom(g, n, before);
      ReadyMore(n, n', t, core, b);
      ExecuteOne(g, n', t, p, blocks, core, b);
      RunSnoc(g, n, before, ExecuteBlock(p, b));
      run := before + [ExecuteBlock(p, b)];
    }
  }

  /** The members of `s` propose. */
  lemma {:induction false} ProposeEach(g: Config, n: Net, t: Team, index: uint32, s: set<Byte32>)
    returns (run: seq<Step>)
    requires s !! g.faulty
    ensures IsRun(g, n, run)
    ensures var n' := RunFrom(g, n, run);
      && More(n, n') && n'.chains == n.chains && n'.live == n.live
      && forall p | p in s :: (p, Parent(index, t.proposal(p))) in n'.sent
  {
    run := [];
    if s != {} {
      var p := Pick(s);
      var before := ProposeEach(g, n, t, index, s - {p});
      var step := Propose(p, index, Meta(t.proposal(p), true, 0, false));
      RunSnoc(g, n, before, step);
      run := before + [step];
    }
  }

  /** The member `q` proves the block of `p`, which it has registered a callback for, unless it has done so before. */
  lemma ProveIt(g: Config, n: Net, t: Team, blocks: seq<Block>, p: Byte32, q: Byte32) returns (run: seq<Step>)
    requires Invariant(g, n) && q !in g.faulty && blocks != [] && Chain(n, q) == blocks
    requires var mid := MidAt(g.w, g.c, g.start, blocks, |blocks| - 1);
      mid.milestone.None? && mid.state.milestoneIndex != 0 && p in mid.parentByIssuer
    ensures IsRun(g, n, run)
    ensures var n' := RunFrom(g, n, run);
      var mid := MidAt(g.w, g.c, g.start, blocks, |blocks| - 1);
      && More(n, n') && n'.chains == n.chains && n'.live == n.live
      && (q, Proof(mid.state.milestoneIndex, mid.parentByIssuer[p])) in n'.sent
  {
    hide MidAt, Invariant, Attributed;
    var k: nat := |blocks| - 1;
    var mid := MidAt(g.w, g.c, g.start, blocks, k);
    var b := mid.parentByIssuer[p];
    if q in ProofIssuers(mid, b) {
      ProvedBefore(g, n, q, k, b);
      run := [];
    } else {
      var step := Solid(q, k, mid.state.milestoneIndex, Meta(b, true, 0, false));
      assert Awaited(q, mid, b);
      run := [step];
    }
  }

  lemma ProvedBefore(g: Config, n: Net, q: Byte32, k: nat, b: Byte32)
    requires Invariant(g, n) && q !in g.faulty && k < |Chain(n, q)| && q in ProofIssuers(MidOf(g, n, q, k), b)
    ensures (q, Proof(MidOf(g, n, q, k).state.milestoneIndex, b)) in n.sent
  {
    hide MidAt, Run, AllLive, Honest;
    assert Attributed(g, n, MidOf(g, n, q, k));
  }

  lemma {:induction false} ProveFor(g: Config, n: Net, t: Team, blocks: seq<Block>, p: Byte32, s: set<Byte32>)
    returns (run: seq<Step>)
    requires IsConfig(g) && Invariant(g, n) && s !! g.faulty && blocks != []
    requires forall q | q in s :: Chain(n, q) == blocks
    requires var mid := MidAt(g.w, g.c, g.start, blocks, |blocks| - 1);
      mid.milestone.None? && mid.state.milestoneIndex != 0 && p in mid.parentByIssuer
    ensures IsRun(g, n, run)
    ensures var n' := RunFrom(g, n, run);
      var mid := MidAt(g.w, g.c, g.start, blocks, |blocks| - 1);
      && Invariant(g, n') && More(n, n') && n'.chains == n.chains && n'.live == n.live
      && forall q | q in s :: (q, Proof(mid.state.milestoneIndex, mid.parentByIssuer[p])) in n'.sent
  {
    hide MidAt, Invariant, Enabled, Next;
    run := [];
    if s != {} {
      var q := Pick(s);
      var before := ProveFor(g, n, t, blocks, p, s - {q});
      var more := ProveIt(g, RunFrom(g, n, before), t, blocks, p, q);
      RunsConcat(g, n, before, more);
      run := before + more;
      Network.RunInvariant(g, n, run);
    }
  }

  /** The honest members prove the blocks of the members of `s`. */
  lemma {:induction false} ProveEach(g: Config, n: Net, t: Team, blocks: seq<Block>, s: set<Byte32>)
    returns (run: seq<Step>)
    requires IsConfig(g) && Invariant(g, n) && t.honest !! g.faulty && blocks != []
    requires forall q | q in t.honest :: Chain(n, q) == blocks
    requires var mid := MidAt(g.w, g.c, g.start, blocks, |blocks| - 1);
      mid.milestone.None? && mid.state.milestoneIndex != 0 && s <= mid.parentByIssuer.Keys
    ensures IsRun(g, n, run)
    ensures var n' := RunFrom(g, n, run);
      var mid := MidAt(g.w, g.c, g.start, blocks, |blocks| - 1);
      && Invariant(g, n') && More(n, n') && n'.chains == n.chains && n'.live == n.live
      && forall p, q | p in s && q in t.honest :: (q, Proof(mid.state.milestoneIndex, mid.parentByIssuer[p])) in n'.sent
  {
    hide MidAt, Invariant, Enabled, Next;
    run := [];
    if s != {} {
      var p := Pick(s);
      var before := ProveEach(g, n, t, blocks, s - {p});
      var more := ProveFor(g, RunFrom(g, n, before), t, blocks, p, t.honest);
      RunsConcat(g, n, before, more);
      run := before + more;
    }
  }

  // ----- three rounds -----

  /** What the three blocks do to the state of everybody who executes them. */
  lemma ThreeBlocks(g: Config, b1: Block, b2: Block, b3: Block)
    ensures MidAt(g.w, g.c, g.start, [b1], 0) == Mid(g.w, g.c, g.start.app, b1)
    ensures MidAt(g.w, g.c, g.start, [b1, b2, b3], 2) ==
      Mid(g.w, g.c, Execute(g.w, g.c, Execute(g.w, g.c, g.start, b1), b2).app, b3)
  {
    hide Execute, Mid;
    var blocks := [b1, b2, b3];
    assert [b1][..0] == [] && blocks[..0] == [] && blocks[..1] == [b1] && blocks[..2] == [b1, b2];
    RunNext(g.w, g.c, g.start, blocks, 0);
    RunNext(g.w, g.c, g.start, blocks, 1);
  }

  lemma ThreeHeights(core: Core, b1: Block, b2: Block, b3: Block)
    requires IsChain(core, [b1, b2, b3]) && core.info.height < TWO_63 - 4
    ensures b1.header.height == core.info.height + 1 && b2.header.height == core.info.height + 2
    ensures b3.header.height == core.info.height + 3
  {
    var blocks := [b1, b2, b3];
    assert blocks[0].header.height == NextInt64(HeightBefore(core, blocks, 0));
    assert blocks[1].header.height == NextInt64(HeightBefore(core, blocks, 1));
    assert blocks[2].header.height == NextInt64(HeightBefore(core, blocks, 2));
  }

  lemma ExecuteHeight(w: World, c: Committee, core: Core, b: Block)
    ensures Execute(w, c, core, b).info.height == b.header.height
  {
  }

  /** The proofs that the second block needs. */
  lemma ProveRound(g: Config, n: Net, t: Team, b1: Block, b2: Block, core1: Core) returns (run: seq<Step>)
    requires IsConfig(g) && Invariant(g, n) && t.honest !! g.faulty && At(g, n, t.honest, [b1], core1)
    requires core1.app == MidAt(g.w, g.c, g.start, [b1], 0) && core1.app.state.milestoneIndex != 0
    requires t.honest <= core1.app.parentByIssuer.Keys
    requires Proves(t, core1, b2) && (core1.app.milestone.Some? ==> b2.txs == [])
    ensures IsRun(g, n, run)
    ensures var n' := RunFrom(g, n, run);
      At(g, n', t.honest, [b1], core1) && Ready(n', t, core1, b2)
  {
    hide MidAt, Invariant, Proves, Enabled, Next;
    run := [];
    if core1.app.milestone.None? {
      run := ProveEach(g, n, t, [b1], t.honest);
    }
  }

  lemma SignsFirst(c: Committee, p: Byte32, a: App)
    requires c.t > 0 && a.milestone.Some? && a.signaturesByIssuer == map[]
    ensures Signs(c, p, a)
  {
  }

  /** The blocks of the three rounds, and the states after the first two. */
  datatype Plan = Plan(b1: Block, b2: Block, b3: Block, core1: Core, core2: Core)

  ghost predicate IsPlan(g: Config, t: Team, x: Plan) {
    && t.w == g.w && t.c == g.c && SignsRight(t) && t.honest !! g.faulty && g.c.t > 0
    && t.honest <= g.c.members(g.start.app.state.milestoneIndex) && g.start.app.state.milestoneIndex != 0
    && x.core1 == Execute(g.w, g.c, g.start, x.b1) && x.core2 == Execute(g.w, g.c, x.core1, x.b2)
    && x.core1.app.state == x.core2.app.state == g.start.app.state
    && x.core1.app == MidAt(g.w, g.c, g.start, [x.b1], 0) && x.core2.app == Mid(g.w, g.c, x.core1.app, x.b2)
    && t.honest <= x.core1.app.parentByIssuer.Keys && x.core2.app.signaturesByIssuer == map[]
    && Proposes(t, g.start, x.b1) && SignsBlock(t, x.core2, x.b3)
    && Proves(t, x.core1, x.b2) && (x.core1.app.milestone.Some? ==> x.b2.txs == [])
    && Accepts(g.start, x.b1) && Accepts(x.core1, x.b2) && Accepts(x.core2, x.b3)
    && g.start.info.height < TWO_63 - 1 && x.core1.info.height < TWO_63 - 1 && x.core2.info.height < TWO_63 - 1
    && var mid := MidAt(g.w, g.c, g.start, [x.b1, x.b2, x.b3], 2);
    Complete(g.c, mid) && mid.milestone.value.essence.index == g.start.app.state.milestoneIndex
  }

  lemma MakePlan(g: Config, t: Team, times: (int, int, int)) returns (x: Plan)
    requires IsConfig(g) && t.w == g.w && t.c == g.c && t.honest !! g.faulty
    requires IsTeam(t, g.start.app.state.milestoneIndex)
    requires g.start.app.state.milestoneIndex != 0 && g.start.info.height < TWO_63 - 4
    ensures IsPlan(g, t, x)
  {
    hide Mid, MidAt, Execute, Proposes, Proves, SignsBlock, Complete, SignsRight, Blocks.Valid, IsChain;
    ResetValid(g.w, g.c, g.start.app.state);
    var b1, b2, b3 := HonestBlocksComplete(t, g.start, times);
    var core1 := Execute(g.w, g.c, g.start, b1);
    var core2 := Execute(g.w, g.c, core1, b2);
    ThreeHeights(g.start, b1, b2, b3);
    ExecuteHeight(g.w, g.c, g.start, b1);
    ExecuteHeight(g.w, g.c, core1, b2);
    ThreeBlocks(g, b1, b2, b3);
    x := Plan(b1, b2, b3, core1, core2);
  }

  lemma ProposeRound(g: Config, t: Team, b1: Block) returns (run: seq<Step>)
    requires t.w == g.w && t.c == g.c && SignsRight(t) && t.honest !! g.faulty
    requires t.honest <= g.c.members(g.start.app.state.milestoneIndex)
    requires Proposes(t, g.start, b1) && Accepts(g.start, b1) && g.start.info.height < TWO_63 - 1
    ensures IsRun(g, NOTHING, run)
    ensures At(g, RunFrom(g, NOTHING, run), t.honest, [b1], Execute(g.w, g.c, g.start, b1))
  {
    hide Mid, MidAt, Execute, Proposes, Proves, SignsBlock, Complete, SignsRight, Enabled, Next;
    var first := ProposeEach(g, NOTHING, t, g.start.app.state.milestoneIndex, t.honest);
    var second := ExecuteAll(g, RunFrom(g, NOTHING, first), t, t.honest, [], g.start, b1);
    RunsConcat(g, NOTHING, first, second);
    assert [] + [b1] == [b1];
    run := first + second;
  }

  lemma Round1(g: Config, t: Team, x: Plan) returns (run: seq<Step>)
    requires IsPlan(g, t, x)
    ensures IsRun(g, NOTHING, run) && At(g, RunFrom(g, NOTHING, run), t.honest, [x.b1], x.core1)
  {
    hide Mid, MidAt, Execute, Proposes, Proves, SignsBlock, Complete, SignsRight, Enabled, Next;
    run := ProposeRound(g, t, x.b1);
  }

  lemma Round2(g: Config, n: Net, t: Team, x: Plan) returns (run: seq<Step>)
    requires IsConfig(g) && Invariant(g, n) && IsPlan(g, t, x) && At(g, n, t.honest, [x.b1], x.core1)
    ensures IsRun(g, n, run)
    ensures At(g, RunFrom(g, n, run), t.honest, [x.b1, x.b2], x.core2)
    ensures SignedBy(RunFrom(g, n, run), t, x.core2.app.milestone.value.essence)
  {
    hide Mid, MidAt, Execute, Proposes, Proves, Complete, SignsRight, Enabled, Next, Invariant, Signs;
    var first := ProveRound(g, n, t, x.b1, x.b2, x.core1);
    var second := ExecuteAll(g, RunFrom(g, n, first), t, t.honest, [x.b1], x.core1, x.b2);
    RunsConcat(g, n, first, second);
    assert [x.b1] + [x.b2] == [x.b1, x.b2];
    run := first + second;
    forall p | p in t.honest ensures (p, x.core2.app.milestone.value.essence) in RunFrom(g, n, run).signed {
      SignsFirst(g.c, p, x.core2.app);
    }
  }

  lemma Round3(g: Config, n: Net, t: Team, x: Plan) returns (run: seq<Step>)
    requires IsPlan(g, t, x) && At(g, n, t.honest, [x.b1, x.b2], x.core2)
    requires SignedBy(n, t, x.core2.app.milestone.value.essence)
    ensures IsRun(g, n, run)
    ensures forall p | p in t.honest :: Chain(RunFrom(g, n, run), p) == [x.b1, x.b2, x.b3]
  {
    hide Mid, MidAt, Execute, Proposes, Proves, Complete, SignsRight, Enabled, Next;
    run := ExecuteAll(g, n, t, t.honest, [x.b1, x.b2], x.core2, x.b3);
    assert [x.b1, x.b2] + [x.b3] == [x.b1, x.b2, x.b3];
  }

  /** In every committee with enough honest members, and whatever they propose, there is a run in which all of them
      complete the first milestone, without any help of the faulty ones. */
  lemma MilestoneHappens(g: Config, sign: Byte32 -> seq<byte> -> seq<byte>, proposal: Byte32 -> Byte32,
                         times: (int, int, int)) returns (run: seq<Step>)
    requires IsConfig(g) && SignsRight(TeamOf(g, sign, proposal)) && IsEnough(g.c, TeamOf(g, sign, proposal).honest)
    requires g.start.app.state.milestoneIndex != 0 && g.start.info.height < TWO_63 - 4
    ensures IsRun(g, NOTHING, run)
    ensures var n := RunFrom(g, NOTHING, run);
      forall p | p in TeamOf(g, sign, proposal).honest ::
        && |Chain(n, p)| == 3 && Complete(g.c, MidOf(g, n, p, 2))
        && MidOf(g, n, p, 2).milestone.value.essence.index == g.start.app.state.milestoneIndex
  {
    hide IsPlan, MidAt, Complete, SignsRight, Invariant, Enabled, Next, At, SignedBy;
    var t := TeamOf(g, sign, proposal);
    var x := MakePlan(g, t, times);
    var run1 := Round1(g, t, x);
    Reachable(g, run1);
    var run2 := Round2(g, RunFrom(g, NOTHING, run1), t, x);
    RunsConcat(g, NOTHING, run1, run2);
    var run3 := Round3(g, RunFrom(g, NOTHING, run1 + run2), t, x);
    RunsConcat(g, NOTHING, run1 + run2, run3);
    run := run1 + run2 + run3;
    PlanCompletes(g, t, x);
  }

  lemma PlanCompletes(g: Config, t: Team, x: Plan)
    requires IsPlan(g, t, x)
    ensures var mid := MidAt(g.w, g.c, g.start, [x.b1, x.b2, x.b3], 2);
      Complete(g.c, mid) && mid.milestone.value.essence.index == g.start.app.state.milestoneIndex
  {
    hide MidAt, Mid, Execute;
  }
}
