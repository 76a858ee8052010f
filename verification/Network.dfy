/** All the validators together: the honest ones do what the program does, the faulty ones anything at all. */
module Network {
  import opened ByteStrings
  import opened Sets
  import opened Codec
  import opened Committees
  import opened AppData
  import opened Parents
  import opened Blocks
  import opened Chains
  import opened Sending

  // ----- the system -----

  /** Everybody starts from the same state; `faulty` are the members that need not follow the program. */
  datatype Config = Config(w: World, c: Committee, start: Core, faulty: set<Byte32>)

  ghost predicate IsConfig(g: Config) {
    && FitsLimits(g.w, g.c) && IsReset(g.w, g.start)
    && forall index: uint32 :: |g.faulty * g.c.members(index)| <= g.c.f
  }

  /** The state of a running member, and how many blocks of its chain it contains. */
  datatype Live = Live(core: Core, pos: nat)

  /** The blocks that each honest member has ever executed, in which state it is now, and what honest members have
      made: proposals and proofs, the blocks they found to be valid parents, and signatures of milestone essences. */
  datatype Net = Net(
    chains: map<Byte32, seq<Block>>,
    live: map<Byte32, Live>,
    sent: set<(Byte32, Tx)>,
    seen: set<(Byte32, uint32, Byte32)>,
    signed: set<(Byte32, Essence)>)

  datatype Step =
    | Propose(id: Byte32, index: uint32, meta: Meta)
    | Solid(id: Byte32, k: nat, index: uint32, meta: Meta)
    | ExecuteBlock(id: Byte32, block: Block)
    | Restart(id: Byte32, e: Essence, pos: nat)

  const NOTHING := Net(map[], map[], {}, {}, {})

  ghost function Chain(n: Net, id: Byte32): seq<Block> {
    if id in n.chains then n.chains[id] else []
  }

  ghost function LiveOf(g: Config, n: Net, id: Byte32): Live {
    if id in n.live then n.live[id] else Live(g.start, 0)
  }

  ghost function CoreOf(g: Config, n: Net, id: Byte32): Core {
    Run(g.w, g.c, g.start, Chain(n, id))
  }

  ghost function MidOf(g: Config, n: Net, id: Byte32, k: nat): App
    requires k < |Chain(n, id)|
  {
    MidAt(g.w, g.c, g.start, Chain(n, id), k)
  }

  /** Nobody can sign for an honest member: a transaction that decodes as its proposal or proof was made by it,
      and a partial signature of it that verifies was made by it. */
  ghost predicate Authentic(g: Config, n: Net, a: App, raw: seq<byte>) {
    var u := UnmarshalTx(g.c.members(a.state.milestoneIndex), g.w.verify, raw);
    u.Ok? && u.issuer !in g.faulty ==>
      match u.tx
      case PartialSignature(s) =>
        a.milestone.Some? && g.w.verify(u.issuer, g.w.essenceBytes(a.milestone.value.essence), s) ==>
          (u.issuer, a.milestone.value.essence) in n.signed
      case tx => (u.issuer, tx) in n.sent
  }

  /** A member that was restarted executes the blocks of its chain again, before it executes new ones. It restarts
      from any milestone, whoever made it, that leads to the state that its own chain had at some position; which
      milestones do is shown in `RestartEnabled`. */
  ghost predicate Enabled(g: Config, n: Net, s: Step) {
    s.id !in g.faulty &&
    match s
    case Propose(id, index, meta) => ValidParent(meta)
    case Solid(id, k, index, meta) =>
      && k < |Chain(n, id)| && index == MidOf(g, n, id, k).state.milestoneIndex
      && Awaited(id, MidOf(g, n, id, k), meta.blockID)
    case ExecuteBlock(id, b) =>
      var live := LiveOf(g, n, id);
      && Accepts(live.core, b) && live.core.info.height < TWO_63 - 1
      && if live.pos < |Chain(n, id)| then b == Chain(n, id)[live.pos] else AllAuthentic(g, n, live.core.app, b.txs)
    case Restart(id, e, pos) =>
      && pos <= |Chain(n, id)|
      && InitState(g.w, e) == Some(Run(g.w, g.c, g.start, Chain(n, id)[..pos]))
  }

  ghost predicate AllAuthentic(g: Config, n: Net, a: App, txs: seq<seq<byte>>) {
    forall i | 0 <= i < |txs| :: Authentic(g, n, DeliverAll(g.w, g.c, a, txs[..i]), txs[i])
  }

  ghost function Next(g: Config, n: Net, s: Step): Net
    requires Enabled(g, n, s)
  {
    match s
    case Propose(id, index, meta) => n.(sent := n.sent + {(id, Parent(index, meta.blockID))})
    case Solid(id, k, index, meta) =>
      (match ProcessParent(index, meta)
       case None => n
       case Some(tx) => n.(sent := n.sent + {(id, tx)}, seen := n.seen + {(id, index, meta.blockID)}))
    case ExecuteBlock(id, b) =>
      var live := LiveOf(g, n, id);
      var mid := Mid(g.w, g.c, live.core.app, b);
      n.(chains := if live.pos < |Chain(n, id)| then n.chains else n.chains[id := Chain(n, id) + [b]],
         live := n.live[id := Live(Execute(g.w, g.c, live.core, b), live.pos + 1)],
         signed := if Signs(g.c, id, mid) then n.signed + {(id, mid.milestone.value.essence)} else n.signed)
    case Restart(id, e, pos) => n.(live := n.live[id := Live(InitState(g.w, e).value, pos)])
  }

  ghost predicate IsRun(g: Config, n: Net, run: seq<Step>)
    decreases |run|
  {
    run == [] || (Enabled(g, n, run[0]) && IsRun(g, Next(g, n, run[0]), run[1..]))
  }

  ghost function RunFrom(g: Config, n: Net, run: seq<Step>): Net
    requires IsRun(g, n, run)
    decreases |run|
  {
    if run == [] then n else RunFrom(g, Next(g, n, run[0]), run[1..])
  }

  // ----- the invariant -----

  /** What the state `a` records of honest members was made by them. */
  ghost predicate Attributed(g: Config, n: Net, a: App) {
    && (forall p | p in a.parentByIssuer && p !in g.faulty ::
          (p, Parent(a.state.milestoneIndex, a.parentByIssuer[p])) in n.sent)
    && (forall b, p | b in a.proofIssuersByBlockID && p in a.proofIssuersByBlockID[b] && p !in g.faulty ::
          (p, Proof(a.state.milestoneIndex, b)) in n.sent)
    && (forall p | p in a.signaturesByIssuer && p !in g.faulty ::
          a.milestone.Some? && (p, a.milestone.value.essence) in n.signed)
  }

  /** The member signed what its chain made. */
  ghost predicate SignedOnChain(g: Config, n: Net, id: Byte32, e: Essence) {
    exists k :: 0 <= k < |Chain(n, id)| &&
      MidOf(g, n, id, k).milestone.Some? && MidOf(g, n, id, k).milestone.value.essence == e
  }

  ghost predicate Honest(g: Config, n: Net) {
    && (forall id: Byte32, index: uint32, b: Byte32 | (id, Proof(index, b)) in n.sent ::
          (id, index, b) in n.seen && index != 0)
    && (forall id, e | (id, e) in n.signed :: SignedOnChain(g, n, id, e))
  }

  ghost predicate ChainsAttributed(g: Config, n: Net) {
    && (forall id | id in n.chains :: Attributed(g, n, CoreOf(g, n, id).app))
    && (forall id, k | id in n.chains && 0 <= k < |n.chains[id]| :: Attributed(g, n, MidOf(g, n, id, k)))
  }

  /** The state of the member is the one that its chain has at its position. */
  ghost predicate LiveRight(g: Config, n: Net, id: Byte32) {
    var live, blocks := LiveOf(g, n, id), Chain(n, id);
    && IsChain(g.start, blocks) && g.start.info.height + |blocks| < TWO_63
    && live.pos <= |blocks| && live.core == Run(g.w, g.c, g.start, blocks[..live.pos])
  }

  ghost predicate AllLive(g: Config, n: Net) {
    forall id :: LiveRight(g, n, id)
  }

  /** Whatever a member was to sign along its chain, it has signed. */
  ghost predicate SignsAll(g: Config, n: Net) {
    forall id, k: nat | id in n.chains && k < |n.chains[id]| && Signs(g.c, id, MidOf(g, n, id, k)) ::
      (id, MidOf(g, n, id, k).milestone.value.essence) in n.signed
  }

  ghost predicate Invariant(g: Config, n: Net) {
    Honest(g, n) && ChainsAttributed(g, n) && AllLive(g, n) && SignsAll(g, n)
  }

  lemma AttributedGrows(g: Config, n: Net, n': Net, a: App)
    requires Attributed(g, n, a) && n.sent <= n'.sent && n.signed <= n'.signed
    ensures Attributed(g, n', a)
  {
  }

  lemma ApplyAttributed(g: Config, n: Net, a: App, issuer: Byte32, tx: Tx)
    requires Attributed(g, n, a) && Apply(g.w, a, issuer, tx).Done?
    requires issuer !in g.faulty ==>
      match tx
      case PartialSignature(s) =>
        a.milestone.Some? && g.w.verify(issuer, g.w.essenceBytes(a.milestone.value.essence), s) ==>
          (issuer, a.milestone.value.essence) in n.signed
      case _ => (issuer, tx) in n.sent
    ensures Attributed(g, n, Apply(g.w, a, issuer, tx).app)
  {
  }

  lemma DeliverAttributed(g: Config, n: Net, a: App, raw: seq<byte>)
    requires Attributed(g, n, a) && Authentic(g, n, a, raw)
    ensures Attributed(g, n, Deliver(g.w, g.c, a, raw).1)
  {
    hide Attributed, UnmarshalTx, Apply;
    var u := UnmarshalTx(g.c.members(a.state.milestoneIndex), g.w.verify, raw);
    if u.Ok? && Apply(g.w, a, u.issuer, u.tx).Done? {
      ApplyAttributed(g, n, a, u.issuer, u.tx);
    }
  }

  lemma {:induction false} DeliverAllAttributed(g: Config, n: Net, a: App, txs: seq<seq<byte>>)
    requires Attributed(g, n, a)
    requires AllAuthentic(g, n, a, txs)
    ensures Attributed(g, n, DeliverAll(g.w, g.c, a, txs))
  {
    hide Attributed, Authentic, Deliver;
    if txs != [] {
      var last := |txs| - 1;
      forall i | 0 <= i < last ensures Authentic(g, n, DeliverAll(g.w, g.c, a, txs[..last][..i]), txs[..last][i]) {
        assert txs[..last][..i] == txs[..i];
      }
      DeliverAllAttributed(g, n, a, txs[..last]);
      DeliverAttributed(g, n, DeliverAll(g.w, g.c, a, txs[..last]), txs[last]);
    }
  }

  lemma EndBlockAttributed(g: Config, n: Net, a: App, header: Header)
    requires Attributed(g, n, a) && (a.milestone.None? ==> a.signaturesByIssuer == map[])
    ensures Attributed(g, n, EndBlock(g.w, g.c, a, header))
  {
    hide NewEssence, EnoughParents;
  }

  lemma CommitAttributed(g: Config, n: Net, a: App, header: Header)
    requires Attributed(g, n, a)
    ensures Attributed(g, n, Commit(g.w, g.c, a, header))
  {
    hide NextState;
  }

  lemma MidAttributed(g: Config, n: Net, a: App, b: Block)
    requires Attributed(g, n, a) && Valid(g.w, g.c, a)
    requires AllAuthentic(g, n, a, b.txs)
    ensures Attributed(g, n, Mid(g.w, g.c, a, b))
  {
    hide Attributed, Authentic, DeliverAll, EndBlock, Counted, Made;
    DeliverAllAttributed(g, n, a, b.txs);
    DeliverAllValid(g.w, g.c, a, b.txs);
    EndBlockAttributed(g, n, DeliverAll(g.w, g.c, a, b.txs), b.header);
  }

  lemma MidExtend(g: Config, blocks: seq<Block>, b: Block, k: nat)
    requires k <= |blocks|
    ensures MidAt(g.w, g.c, g.start, blocks + [b], k) ==
      if k < |blocks| then MidAt(g.w, g.c, g.start, blocks, k)
      else Mid(g.w, g.c, Run(g.w, g.c, g.start, blocks).app, b)
  {
    assert (blocks + [b])[..k] == blocks[..k];
    if k == |blocks| { assert blocks[..k] == blocks; }
  }

  lemma CoreExtend(g: Config, blocks: seq<Block>, b: Block)
    ensures Run(g.w, g.c, g.start, blocks + [b]) == Execute(g.w, g.c, Run(g.w, g.c, g.start, blocks), b)
  {
    assert (blocks + [b])[..|blocks|] == blocks;
  }

  /** Steps that execute no new block keep what is known of the chains. */
  lemma SameChains(g: Config, n: Net, n': Net)
    requires Honest(g, n) && ChainsAttributed(g, n)
    requires n'.chains == n.chains && n.sent <= n'.sent && n.seen <= n'.seen && n.signed <= n'.signed
    requires forall id: Byte32, index: uint32, b: Byte32 |
      (id, Proof(index, b)) in n'.sent && (id, Proof(index, b)) !in n.sent :: (id, index, b) in n'.seen && index != 0
    requires forall id, e | (id, e) in n'.signed && (id, e) !in n.signed :: SignedOnChain(g, n, id, e)
    ensures Honest(g, n') && ChainsAttributed(g, n')
  {
    hide Attributed, MidAt, Run;
    forall id | id in n.chains ensures Attributed(g, n', CoreOf(g, n', id).app) {
      AttributedGrows(g, n, n', CoreOf(g, n, id).app);
    }
    forall id, k | id in n.chains && 0 <= k < |n.chains[id]| ensures Attributed(g, n', MidOf(g, n', id, k)) {
      AttributedGrows(g, n, n', MidOf(g, n, id, k));
    }
    forall id, e | (id, e) in n'.signed ensures SignedOnChain(g, n', id, e) {
      assert SignedOnChain(g, n, id, e);
      SignedStays(g, n, n', id, e);
    }
  }

  lemma SignsAllStays(g: Config, n: Net, n': Net)
    requires SignsAll(g, n) && n'.chains == n.chains && n.signed <= n'.signed
    ensures SignsAll(g, n')
  {
    hide MidAt;
    forall id, k: nat | id in n'.chains && k < |n'.chains[id]| && Signs(g.c, id, MidOf(g, n', id, k))
      ensures (id, MidOf(g, n', id, k).milestone.value.essence) in n'.signed
    {
      assert MidOf(g, n', id, k) == MidOf(g, n, id, k);
    }
  }

  lemma SignedStays(g: Config, n: Net, n': Net, id: Byte32, e: Essence)
    requires SignedOnChain(g, n, id, e) && Chain(n', id) == Chain(n, id)
    ensures SignedOnChain(g, n', id, e)
  {
    hide MidAt;
    var k :| 0 <= k < |Chain(n, id)| &&
      MidOf(g, n, id, k).milestone.Some? && MidOf(g, n, id, k).milestone.value.essence == e;
    assert MidOf(g, n', id, k) == MidOf(g, n, id, k);
  }

  lemma SendStep(g: Config, n: Net, s: Step)
    requires Invariant(g, n) && Enabled(g, n, s) && (s.Propose? || s.Solid?)
    ensures Invariant(g, Next(g, n, s))
  {
    hide Honest, ChainsAttributed, LiveRight, MidAt, SignedOnChain;
    var n' := Next(g, n, s);
    SameChains(g, n, n');
    SignsAllStays(g, n, n');
    LiveStays(g, n, n');
  }

  lemma LiveStays(g: Config, n: Net, n': Net)
    requires AllLive(g, n) && n'.live == n.live && n'.chains == n.chains
    ensures AllLive(g, n')
  {
    forall id ensures LiveRight(g, n', id) {
      assert LiveRight(g, n, id);
    }
  }

  lemma LiveOthers(g: Config, n: Net, n': Net, id: Byte32)
    requires AllLive(g, n) && LiveRight(g, n', id)
    requires forall i | i != id :: LiveOf(g, n', i) == LiveOf(g, n, i) && Chain(n', i) == Chain(n, i)
    ensures AllLive(g, n')
  {
    forall i ensures LiveRight(g, n', i) {
      assert LiveRight(g, n, i);
    }
  }

  // ----- heights -----

  lemma {:induction false} HeightAt(core: Core, blocks: seq<Block>, i: nat)
    requires IsChain(core, blocks) && core.info.height + |blocks| < TWO_63 && i <= |blocks|
    ensures HeightBefore(core, blocks, i) == core.info.height + i
  {
    if i > 0 {
      HeightAt(core, blocks, i - 1);
      assert blocks[i - 1].header.height == NextInt64(HeightBefore(core, blocks, i - 1));
    }
  }

  lemma HeightOfRun(w: World, c: Committee, core: Core, blocks: seq<Block>, i: nat)
    requires i <= |blocks|
    ensures Run(w, c, core, blocks[..i]).info.height == HeightBefore(core, blocks, i)
  {
    hide Mid, Commit;
    if i == 0 {
      assert blocks[..0] == [];
    } else {
      RunNext(w, c, core, blocks, i - 1);
    }
  }

  // ----- executing a block again -----

  lemma ReplayStep(g: Config, n: Net, id: Byte32, b: Block)
    requires Invariant(g, n) && Enabled(g, n, ExecuteBlock(id, b)) && LiveOf(g, n, id).pos < |Chain(n, id)|
    ensures Invariant(g, Next(g, n, ExecuteBlock(id, b)))
  {
    hide Honest, ChainsAttributed, Run, Mid, Execute, IsChain;
    var n', live, blocks := Next(g, n, ExecuteBlock(id, b)), LiveOf(g, n, id), Chain(n, id);
    assert LiveRight(g, n, id);
    RunNext(g.w, g.c, g.start, blocks, live.pos);
    ReplaySigns(g, n, id);
    SameChains(g, n, n');
    SignsAllStays(g, n, n');
    LiveOthers(g, n, n', id);
  }

  /** What is signed when a block is executed again is what was to be signed the first time. */
  lemma ReplaySigns(g: Config, n: Net, id: Byte32)
    requires LiveRight(g, n, id) && LiveOf(g, n, id).pos < |Chain(n, id)|
    ensures var live := LiveOf(g, n, id);
      var mid := Mid(g.w, g.c, live.core.app, Chain(n, id)[live.pos]);
      mid.milestone.Some? ==> SignedOnChain(g, n, id, mid.milestone.value.essence)
  {
    hide Mid, Run, IsChain;
    var live := LiveOf(g, n, id);
    assert MidOf(g, n, id, live.pos) == Mid(g.w, g.c, live.core.app, Chain(n, id)[live.pos]);
  }

  // ----- executing a new block -----

  lemma ExecuteHonest(g: Config, n: Net, id: Byte32, b: Block)
    requires Honest(g, n) && Enabled(g, n, ExecuteBlock(id, b))
    requires LiveOf(g, n, id) == Live(CoreOf(g, n, id), |Chain(n, id)|)
    ensures Honest(g, Next(g, n, ExecuteBlock(id, b)))
  {
    hide MidAt, Run, Mid, AllAuthentic, SignedOnChain;
    var n' := Next(g, n, ExecuteBlock(id, b));
    forall i, e | (i, e) in n'.signed ensures SignedOnChain(g, n', i, e) {
      if (i, e) in n.signed {
        if i == id {
          SignedExtend(g, n, n', id, b, e);
        } else {
          SignedStays(g, n, n', i, e);
        }
      } else {
        SignedNow(g, n', id, Chain(n, id), b, e);
      }
    }
  }

  lemma SignedExtend(g: Config, n: Net, n': Net, id: Byte32, b: Block, e: Essence)
    requires SignedOnChain(g, n, id, e) && Chain(n', id) == Chain(n, id) + [b]
    ensures SignedOnChain(g, n', id, e)
  {
    hide MidAt, Mid, Run;
    var k :| 0 <= k < |Chain(n, id)| &&
      MidOf(g, n, id, k).milestone.Some? && MidOf(g, n, id, k).milestone.value.essence == e;
    MidExtend(g, Chain(n, id), b, k);
    assert MidOf(g, n', id, k) == MidOf(g, n, id, k);
  }

  lemma SignedNow(g: Config, n': Net, id: Byte32, blocks: seq<Block>, b: Block, e: Essence)
    requires Chain(n', id) == blocks + [b]
    requires var mid := Mid(g.w, g.c, Run(g.w, g.c, g.start, blocks).app, b);
      mid.milestone.Some? && mid.milestone.value.essence == e
    ensures SignedOnChain(g, n', id, e)
  {
    hide MidAt, Mid, Run;
    MidExtend(g, blocks, b, |blocks|);
    assert MidOf(g, n', id, |blocks|).milestone.Some?;
  }

  lemma ExecuteAttributed(g: Config, n: Net, id: Byte32, b: Block)
    requires IsConfig(g) && Honest(g, n) && ChainsAttributed(g, n) && Enabled(g, n, ExecuteBlock(id, b))
    requires LiveOf(g, n, id) == Live(CoreOf(g, n, id), |Chain(n, id)|)
    ensures ChainsAttributed(g, Next(g, n, ExecuteBlock(id, b)))
  {
    hide MidAt, Run, Mid, AllAuthentic, Attributed, Valid, Honest, Commit;
    var n', core := Next(g, n, ExecuteBlock(id, b)), CoreOf(g, n, id);
    StartAttributed(g, n);
    ResetValid(g.w, g.c, g.start.app.state);
    RunValid(g.w, g.c, g.start, Chain(n, id));
    CoreAttributed(g, n, id);
    MidAttributed(g, n, core.app, b);
    CommitAttributed(g, n, Mid(g.w, g.c, core.app, b), b.header);
    CoreExtend(g, Chain(n, id), b);
    forall i | i in n'.chains ensures Attributed(g, n', CoreOf(g, n', i).app) {
      AttributedGrows(g, n, n', if i == id then CoreOf(g, n', i).app else CoreOf(g, n, i).app);
    }
    forall i, k | i in n'.chains && 0 <= k < |n'.chains[i]| ensures Attributed(g, n', MidOf(g, n', i, k)) {
      if i == id {
        MidExtend(g, Chain(n, id), b, k);
        if k < |Chain(n, id)| {
          assert MidOf(g, n', id, k) == MidOf(g, n, id, k);
          assert Attributed(g, n, MidOf(g, n, id, k));
        }
      } else {
        assert MidOf(g, n', i, k) == MidOf(g, n, i, k);
        assert Attributed(g, n, MidOf(g, n, i, k));
      }
      AttributedGrows(g, n, n', MidOf(g, n', i, k));
    }
  }

  /** The chain stays one, and the state stays that of the chain. */
  lemma ExecuteLive(g: Config, n: Net, id: Byte32, b: Block)
    requires AllLive(g, n) && Enabled(g, n, ExecuteBlock(id, b))
    requires LiveOf(g, n, id) == Live(CoreOf(g, n, id), |Chain(n, id)|)
    ensures AllLive(g, Next(g, n, ExecuteBlock(id, b)))
  {
    hide Run, Execute, Mid, AllAuthentic, IsChain, NextInt64;
    var n', blocks := Next(g, n, ExecuteBlock(id, b)), Chain(n, id);
    assert LiveRight(g, n, id);
    assert blocks[..|blocks|] == blocks && (blocks + [b])[..|blocks| + 1] == blocks + [b];
    HeightOfRun(g.w, g.c, g.start, blocks, |blocks|);
    HeightAt(g.start, blocks, |blocks|);
    ChainSnoc(g.start, blocks, b);
    CoreExtend(g, blocks, b);
    LiveOthers(g, n, n', id);
  }

  lemma ChainSnoc(core: Core, blocks: seq<Block>, b: Block)
    requires IsChain(core, blocks) && b.header.height == NextInt64(HeightBefore(core, blocks, |blocks|))
    ensures IsChain(core, blocks + [b])
  {
    hide NextInt64;
    var r := blocks + [b];
    forall i | 0 <= i < |r| ensures r[i].header.height == NextInt64(HeightBefore(core, r, i)) {
      if i < |blocks| {
        assert blocks[i].header.height == NextInt64(HeightBefore(core, blocks, i));
      }
    }
  }

  lemma AppendStep(g: Config, n: Net, id: Byte32, b: Block)
    requires IsConfig(g) && Invariant(g, n) && Enabled(g, n, ExecuteBlock(id, b))
    requires LiveOf(g, n, id).pos >= |Chain(n, id)|
    ensures Invariant(g, Next(g, n, ExecuteBlock(id, b)))
  {
    hide Enabled, Next, Honest, ChainsAttributed, Run, IsChain;
    assert LiveRight(g, n, id);
    assert Chain(n, id)[..|Chain(n, id)|] == Chain(n, id);
    ExecuteHonest(g, n, id, b);
    ExecuteAttributed(g, n, id, b);
    ExecuteLive(g, n, id, b);
    ExecuteSigns(g, n, id, b);
  }

  lemma ExecuteSigns(g: Config, n: Net, id: Byte32, b: Block)
    requires SignsAll(g, n) && Enabled(g, n, ExecuteBlock(id, b))
    requires LiveOf(g, n, id) == Live(CoreOf(g, n, id), |Chain(n, id)|)
    ensures SignsAll(g, Next(g, n, ExecuteBlock(id, b)))
  {
    hide MidAt, Run, Mid, Execute, AllAuthentic, Accepts;
    var n' := Next(g, n, ExecuteBlock(id, b));
    forall i, k: nat | i in n'.chains && k < |n'.chains[i]| && Signs(g.c, i, MidOf(g, n', i, k))
      ensures (i, MidOf(g, n', i, k).milestone.value.essence) in n'.signed
    {
      if i == id {
        MidExtend(g, Chain(n, id), b, k);
        if k < |Chain(n, id)| {
          assert MidOf(g, n', i, k) == MidOf(g, n, i, k);
        }
      } else {
        assert MidOf(g, n', i, k) == MidOf(g, n, i, k);
      }
    }
  }

  // ----- restarting -----

  /** A restarted member is where its chain was at some position. */
  lemma RestartStep(g: Config, n: Net, id: Byte32, e: Essence, pos: nat)
    requires Invariant(g, n) && Enabled(g, n, Restart(id, e, pos))
    ensures Invariant(g, Next(g, n, Restart(id, e, pos)))
  {
    hide Honest, ChainsAttributed, Run, IsChain, InitState, SignedOnChain;
    var n' := Next(g, n, Restart(id, e, pos));
    assert LiveRight(g, n, id);
    SameChains(g, n, n');
    SignsAllStays(g, n, n');
    LiveOthers(g, n, n', id);
  }

  /** The member's own chain is the same as `blocks` up to the height in the metadata of the milestone; the block of
      that height is the last one before `pos`. */
  ghost predicate SharedUpTo(g: Config, n: Net, id: Byte32, blocks: seq<Block>, e: Essence, pos: nat) {
    && pos <= |blocks| && pos <= |Chain(n, id)| && blocks[..pos] == Chain(n, id)[..pos]
    && match InitState(g.w, e)
    case None => true
    case Some(core) => core.info.height == HeightBefore(g.start, blocks, pos)
  }

  /** A member can restart from every milestone that was made anywhere on the blockchain, also by blocks that it has
      not executed itself, if the blockchain and the member's own chain are the same up to the height in the
      metadata of the milestone. The position to restart at is the one after the block of that height. */
  lemma RestartEnabled(g: Config, n: Net, id: Byte32, blocks: seq<Block>, k: nat, pos: nat)
    requires IsConfig(g) && id !in g.faulty
    requires IsChain(g.start, blocks) && g.start.info.height + |blocks| < TWO_63
    requires k < |blocks| && MidAt(g.w, g.c, g.start, blocks, k).milestone.Some?
    requires SharedUpTo(g, n, id, blocks, MidAt(g.w, g.c, g.start, blocks, k).milestone.value.essence, pos)
    ensures pos <= k
    ensures Enabled(g, n, Restart(id, MidAt(g.w, g.c, g.start, blocks, k).milestone.value.essence, pos))
  {
    hide Run, IsChain, MidAt, InitState, HeightBefore;
    var j := CrashRecovery(g.w, g.c, g.start, blocks, k);
    HeightOfRun(g.w, g.c, g.start, blocks, j);
    HeightAt(g.start, blocks, j);
    HeightAt(g.start, blocks, pos);
  }

  lemma StartAttributed(g: Config, n: Net)
    requires IsConfig(g)
    ensures Attributed(g, n, g.start.app)
  {
  }

  lemma CoreAttributed(g: Config, n: Net, id: Byte32)
    requires IsConfig(g) && ChainsAttributed(g, n)
    ensures Attributed(g, n, CoreOf(g, n, id).app)
  {
    hide Attributed;
    if id !in n.chains {
      StartAttributed(g, n);
    }
  }

  lemma NetStep(g: Config, n: Net, s: Step)
    requires IsConfig(g) && Invariant(g, n) && Enabled(g, n, s)
    ensures Invariant(g, Next(g, n, s))
  {
    hide Enabled, Next, Invariant;
    match s
    case ExecuteBlock(id, b) =>
      if LiveOf(g, n, id).pos < |Chain(n, id)| {
        ReplayStep(g, n, id, b);
      } else {
        AppendStep(g, n, id, b);
      }
    case Restart(id, e, pos) => RestartStep(g, n, id, e, pos);
    case _ => SendStep(g, n, s);
  }

  lemma {:induction false} RunInvariant(g: Config, n: Net, run: seq<Step>)
    requires IsConfig(g) && Invariant(g, n) && IsRun(g, n, run)
    ensures Invariant(g, RunFrom(g, n, run))
    decreases |run|
  {
    hide Invariant;
    if run != [] {
      NetStep(g, n, run[0]);
      RunInvariant(g, Next(g, n, run[0]), run[1..]);
    }
  }

  lemma NothingLive(g: Config)
    requires IsConfig(g)
    ensures Invariant(g, NOTHING)
  {
    forall id ensures LiveRight(g, NOTHING, id) {
      assert Chain(NOTHING, id)[..0] == [];
    }
  }

  lemma Reachable(g: Config, run: seq<Step>)
    requires IsConfig(g) && IsRun(g, NOTHING, run)
    ensures Invariant(g, RunFrom(g, NOTHING, run))
  {
    NothingLive(g);
    RunInvariant(g, NOTHING, run);
  }

  // ----- the index never wraps around -----

  /** What a milestone in the making says of the state it is in. */
  lemma MidFacts(g: Config, blocks: seq<Block>, k: nat)
    requires IsConfig(g) && k < |blocks| && MidAt(g.w, g.c, g.start, blocks, k).milestone.Some?
    ensures var mid := MidAt(g.w, g.c, g.start, blocks, k);
      var e := mid.milestone.value.essence;
      && Counted(g.c, mid) && EnoughParents(g.c, mid)
      && e.index == mid.state.milestoneIndex && e.parents == MilestoneParents(g.w, g.c, mid)
  {
    hide Mid, Run, Counted, Signed, EnoughParents;
    ResetValid(g.w, g.c, g.start.app.state);
    RunValid(g.w, g.c, g.start, blocks[..k]);
    MidValid(g.w, g.c, Run(g.w, g.c, g.start, blocks[..k]).app, blocks[k]);
  }

  /** No essence is ever made for the index 0, since no honest member sends a proof for it. */
  lemma NoEssenceAtZero(g: Config, n: Net, id: Byte32, k: nat)
    requires IsConfig(g) && Invariant(g, n) && k < |Chain(n, id)|
    requires MidOf(g, n, id, k).milestone.Some?
    ensures MidOf(g, n, id, k).milestone.value.essence.index != 0
  {
    hide MidAt, EnoughParents, MilestoneParents;
    var mid := MidOf(g, n, id, k);
    MidFacts(g, Chain(n, id), k);
    var b := ConfirmedBlock(g.c, mid);
    assert Attributed(g, n, mid);
    SubsetSize(ProofIssuers(mid, b) * g.faulty, g.faulty * g.c.members(mid.state.milestoneIndex));
    var p := GoodElement(ProofIssuers(mid, b), g.faulty, g.c.f);
    assert (p, Proof(mid.state.milestoneIndex, b)) in n.sent;
  }

  lemma ConfirmedBlock(c: Committee, a: App) returns (b: Byte32)
    requires EnoughParents(c, a) && c.f >= 0
    ensures b in a.proofIssuersByBlockID && |ProofIssuers(a, b)| > c.f
  {
    var issuers := IssuersOf(a, Confirmed(c, a));
    assert issuers != {};
    var p :| p in issuers;
    b := a.parentByIssuer[p];
  }

  /** So no member ever completes so many milestones that the 32-bit index wraps around: at the index 0 the
      committee would make no progress. */
  lemma NeverWraps(g: Config, n: Net, id: Byte32)
    requires IsConfig(g) && Invariant(g, n)
    ensures |Issues(g.w, g.c, g.start, Chain(n, id))| < TWO_32
    ensures g.start.app.state.milestoneIndex > 0 ==>
      g.start.app.state.milestoneIndex + |Issues(g.w, g.c, g.start, Chain(n, id))| <= TWO_32
    ensures g.start.app.state.milestoneIndex == 0 ==> Issues(g.w, g.c, g.start, Chain(n, id)) == []
  {
    hide MidAt, Issues, Valid, Epoch, Invariant;
    var blocks, start := Chain(n, id), g.start.app.state.milestoneIndex;
    var i: nat := if start == 0 then 0 else TWO_32 - start;
    if i < |Issues(g.w, g.c, g.start, blocks)| {
      var k := IssuedAt(g.w, g.c, g.start, blocks, i);
      ResetValid(g.w, g.c, g.start.app.state);
      EssenceIndex(g.w, g.c, g.start, blocks, k);
      NoEssenceAtZero(g, n, id, k);
      assert false;
    }
  }

  // ----- agreement -----

  /** An honest member signs at most one essence per milestone index. */
  lemma SignsOncePerIndex(g: Config, n: Net, id: Byte32, e: Essence, e': Essence)
    requires IsConfig(g) && Invariant(g, n)
    requires (id, e) in n.signed && (id, e') in n.signed && e.index == e'.index
    ensures e == e'
  {
    hide MidAt, Issues, Valid, ChainsAttributed;
    var blocks := Chain(n, id);
    NeverWraps(g, n, id);
    assert SignedOnChain(g, n, id, e) && SignedOnChain(g, n, id, e');
    var j :| 0 <= j < |blocks| &&
      MidOf(g, n, id, j).milestone.Some? && MidOf(g, n, id, j).milestone.value.essence == e;
    var k :| 0 <= k < |blocks| &&
      MidOf(g, n, id, k).milestone.Some? && MidOf(g, n, id, k).milestone.value.essence == e';
    ResetValid(g.w, g.c, g.start.app.state);
    SameOnChain(g, blocks, if j <= k then j else k, if j <= k then k else j);
  }

  lemma SameOnChain(g: Config, blocks: seq<Block>, j: nat, k: nat)
    requires IsConfig(g) && Valid(g.w, g.c, g.start.app) && |Issues(g.w, g.c, g.start, blocks)| < TWO_32
    requires j <= k < |blocks|
    requires MidAt(g.w, g.c, g.start, blocks, j).milestone.Some? && MidAt(g.w, g.c, g.start, blocks, k).milestone.Some?
    requires MidAt(g.w, g.c, g.start, blocks, j).milestone.value.essence.index
      == MidAt(g.w, g.c, g.start, blocks, k).milestone.value.essence.index
    ensures MidAt(g.w, g.c, g.start, blocks, j).milestone.value.essence
      == MidAt(g.w, g.c, g.start, blocks, k).milestone.value.essence
  {
    hide MidAt, Valid;
    EpochMonotone(g.w, g.c, g.start, blocks, k, |blocks|);
    assert blocks[..|blocks|] == blocks;
    OneEssencePerIndex(g.w, g.c, g.start, blocks, j, k);
  }

  /** Whatever blocks the members execute, two different essences of the same index cannot both be signed by a
      quorum, if every two quorums share an honest member. This is so for N keys and a threshold with 2T > N + F, since
      at most F members are faulty. */
  lemma Agreement(g: Config, run: seq<Step>, e: Essence, e': Essence, q: set<Byte32>, q': set<Byte32>)
    requires IsConfig(g) && IsRun(g, NOTHING, run)
    requires e.index == e'.index && Overlapping(g.c, e.index, g.faulty)
    requires q <= g.c.members(e.index) && |q| >= g.c.t
    requires q' <= g.c.members(e.index) && |q'| >= g.c.t
    requires forall p | p in q && p !in g.faulty :: (p, e) in RunFrom(g, NOTHING, run).signed
    requires forall p | p in q' && p !in g.faulty :: (p, e') in RunFrom(g, NOTHING, run).signed
    ensures e == e'
  {
    var members := g.c.members(e.index);
    Reachable(g, run);
    QuorumsShareMoreThanFaulty(g.c, e.index, g.faulty, q, q');
    SubsetSize(q * q' * g.faulty, g.faulty * members);
    var p := GoodElement(q * q', g.faulty, |g.faulty * members|);
    SignsOncePerIndex(g, RunFrom(g, NOTHING, run), p, e, e');
  }

  /** Every essence that is signed by more members than are faulty (as that of a confirmed milestone is, for a
      threshold above F) was made by the chain of one of its honest signers. So every honest member can restart from it
      whose own chain is the same as that one up to the height in the metadata. */
  lemma ConfirmedRestart(g: Config, run: seq<Step>, e: Essence, q: set<Byte32>) returns (p: Byte32, k: nat)
    requires IsConfig(g) && IsRun(g, NOTHING, run)
    requires q <= g.c.members(e.index) && |q| > |g.faulty * g.c.members(e.index)|
    requires forall p | p in q && p !in g.faulty :: (p, e) in RunFrom(g, NOTHING, run).signed
    ensures p in q && p !in g.faulty && k < |Chain(RunFrom(g, NOTHING, run), p)|
    ensures MidOf(g, RunFrom(g, NOTHING, run), p, k).milestone.Some?
    ensures MidOf(g, RunFrom(g, NOTHING, run), p, k).milestone.value.essence == e
    ensures forall id: Byte32, pos: nat | id !in g.faulty &&
      SharedUpTo(g, RunFrom(g, NOTHING, run), id, Chain(RunFrom(g, NOTHING, run), p), e, pos) ::
      Enabled(g, RunFrom(g, NOTHING, run), Restart(id, e, pos))
  {
    hide MidAt, Run, IsChain, Enabled, SharedUpTo, ChainsAttributed, SignsAll;
    var n := RunFrom(g, NOTHING, run);
    Reachable(g, run);
    SubsetSize(q * g.faulty, g.faulty * g.c.members(e.index));
    p := GoodElement(q, g.faulty, |g.faulty * g.c.members(e.index)|);
    assert SignedOnChain(g, n, p, e) && LiveRight(g, n, p);
    k :| k < |Chain(n, p)| && MidOf(g, n, p, k).milestone.Some? && MidOf(g, n, p, k).milestone.value.essence == e;
    forall id: Byte32, pos: nat | id !in g.faulty && SharedUpTo(g, n, id, Chain(n, p), e, pos)
      ensures Enabled(g, n, Restart(id, e, pos))
    {
      RestartEnabled(g, n, id, Chain(n, p), k, pos);
    }
  }

  /** All honest members complete the same milestones: those of the same index have the same essence. */
  lemma CompletedAgree(g: Config, run: seq<Step>, id: Byte32, k: nat, id': Byte32, k': nat)
    requires IsConfig(g) && IsRun(g, NOTHING, run)
    requires k < |Chain(RunFrom(g, NOTHING, run), id)| && k' < |Chain(RunFrom(g, NOTHING, run), id')|
    requires Complete(g.c, MidOf(g, RunFrom(g, NOTHING, run), id, k))
    requires Complete(g.c, MidOf(g, RunFrom(g, NOTHING, run), id', k'))
    requires MidOf(g, RunFrom(g, NOTHING, run), id, k).milestone.value.essence.index
      == MidOf(g, RunFrom(g, NOTHING, run), id', k').milestone.value.essence.index
    requires Overlapping(g.c, MidOf(g, RunFrom(g, NOTHING, run), id, k).milestone.value.essence.index, g.faulty)
    ensures MidOf(g, RunFrom(g, NOTHING, run), id, k).milestone.value.essence
      == MidOf(g, RunFrom(g, NOTHING, run), id', k').milestone.value.essence
  {
    hide MidAt, EnoughParents, MilestoneParents;
    var n := RunFrom(g, NOTHING, run);
    Reachable(g, run);
    MidFacts(g, Chain(n, id), k);
    MidFacts(g, Chain(n, id'), k');
    var mid, mid' := MidOf(g, n, id, k), MidOf(g, n, id', k');
    assert Attributed(g, n, mid) && Attributed(g, n, mid');
    Agreement(g, run, mid.milestone.value.essence, mid'.milestone.value.essence,
              mid.signaturesByIssuer.Keys, mid'.signaturesByIssuer.Keys);
  }

  // ----- validity -----

  /** The member `p` found the block `b` to be a valid parent for the index during the run: it processed the callback
      that it had registered for this block in a state with this index, and the block was solid, not referenced by any
      milestone and not below max depth. */
  ghost predicate FoundValid(run: seq<Step>, p: Byte32, index: uint32, b: Byte32) {
    exists j :: 0 <= j < |run| && IsFinding(run[j], p, index, b)
  }

  ghost predicate IsFinding(s: Step, p: Byte32, index: uint32, b: Byte32) {
    && s.Solid? && s.id == p && s.index == index && s.meta.blockID == b
    && s.meta.solid && s.meta.referencedByMilestoneIndex == 0 && !s.meta.shouldReattach
  }

  lemma {:induction false} SeenIsValid(g: Config, n: Net, run: seq<Step>, p: Byte32, index: uint32, b: Byte32)
    requires IsRun(g, n, run) && (p, index, b) in RunFrom(g, n, run).seen && (p, index, b) !in n.seen
    ensures FoundValid(run, p, index, b)
    decreases |run|
  {
    hide MidAt, Run;
    var n' := Next(g, n, run[0]);
    if (p, index, b) in n'.seen {
      assert IsFinding(run[0], p, index, b);
    } else {
      SeenIsValid(g, n', run[1..], p, index, b);
      var j :| 0 <= j < |run[1..]| && IsFinding(run[1..][j], p, index, b);
      assert IsFinding(run[j + 1], p, index, b);
    }
  }

  /** Every parent of every essence but the last milestone block was found to be a valid parent by an honest member,
      for that milestone index. */
  lemma HonestValidation(g: Config, run: seq<Step>, id: Byte32, k: nat, b: Byte32) returns (p: Byte32)
    requires IsConfig(g) && IsRun(g, NOTHING, run)
    requires k < |Chain(RunFrom(g, NOTHING, run), id)|
    requires MidOf(g, RunFrom(g, NOTHING, run), id, k).milestone.Some?
    requires b in MidOf(g, RunFrom(g, NOTHING, run), id, k).milestone.value.essence.parents
    requires b != MidOf(g, RunFrom(g, NOTHING, run), id, k).state.lastMilestoneBlockID
    ensures p !in g.faulty
    ensures (p, MidOf(g, RunFrom(g, NOTHING, run), id, k).milestone.value.essence.index, b)
      in RunFrom(g, NOTHING, run).seen
    ensures FoundValid(run, p, MidOf(g, RunFrom(g, NOTHING, run), id, k).milestone.value.essence.index, b)
  {
    hide MidAt, EnoughParents, MilestoneParents;
    var n := RunFrom(g, NOTHING, run);
    var mid := MidOf(g, n, id, k);
    Reachable(g, run);
    MidFacts(g, Chain(n, id), k);
    assert Attributed(g, n, mid);
    p := HonestProof(g.w, g.c, mid, g.faulty, b);
    assert (p, Proof(mid.state.milestoneIndex, b)) in n.sent;
    SeenIsValid(g, NOTHING, run, p, mid.state.milestoneIndex, b);
  }

  /** Every essence has a parent that an honest member proposed, for that milestone index. */
  lemma HonestProposal(g: Config, run: seq<Step>, id: Byte32, k: nat) returns (p: Byte32, b: Byte32)
    requires IsConfig(g) && IsRun(g, NOTHING, run)
    requires k < |Chain(RunFrom(g, NOTHING, run), id)|
    requires MidOf(g, RunFrom(g, NOTHING, run), id, k).milestone.Some?
    ensures p !in g.faulty && b in MidOf(g, RunFrom(g, NOTHING, run), id, k).milestone.value.essence.parents
    ensures (p, Parent(MidOf(g, RunFrom(g, NOTHING, run), id, k).milestone.value.essence.index, b))
      in RunFrom(g, NOTHING, run).sent
  {
    hide MidAt, EnoughParents, MilestoneParents;
    var n := RunFrom(g, NOTHING, run);
    var mid := MidOf(g, n, id, k);
    Reachable(g, run);
    MidFacts(g, Chain(n, id), k);
    assert Attributed(g, n, mid);
    p := HonestParentSurvives(g.w, g.c, mid, g.faulty);
    b := mid.parentByIssuer[p];
  }
}
