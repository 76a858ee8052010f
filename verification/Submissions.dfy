/** Why a validator broadcasts what it broadcasts; and that the system of all validators lets it do so. */
module Submissions {
  import opened ByteStrings
  import opened Codec
  import opened Committees
  import opened AppData
  import opened Blocks
  import opened Chains
  import opened Sending
  import opened Abci
  import Network

  /** The state of the validator at the end of the k-th block. */
  ghost function StateAt(v: Validator, core: Core, blocks: seq<Block>, k: nat): App
    requires k < |blocks|
  {
    MidAt(v.w, v.c, core, blocks, k)
  }

  /** The callback was registered for a block that was awaited at the end of the k-th block, with its index. */
  ghost predicate AwaitedAt(v: Validator, core: Core, blocks: seq<Block>, k: nat, b: Byte32, index: uint32) {
    k < |blocks| && Awaited(v.c.id, StateAt(v, core, blocks, k), b)
    && index == StateAt(v, core, blocks, k).state.milestoneIndex
  }

  ghost predicate Registered(v: Validator, core: Core, blocks: seq<Block>, r: Registration) {
    exists k: nat :: AwaitedAt(v, core, blocks, k, r.block, r.callback.index)
  }

  /** It is the partial signature of the milestone at the end of the k-th block, which lacks this signature. */
  ghost predicate SignedAt(v: Validator, core: Core, blocks: seq<Block>, k: nat, u: Broadcast) {
    k < |blocks| && [u] == OwnPartial(v, StateAt(v, core, blocks, k))
  }

  /** It is the proof of a block that was awaited at the end of the k-th block, and found to be valid. */
  ghost predicate ProvedAt(v: Validator, core: Core, blocks: seq<Block>, k: nat, index: uint32, meta: Meta,
                           u: Broadcast) {
    AwaitedAt(v, core, blocks, k, meta.blockID, index) && ProcessParent(index, meta) == Some(u.tx)
  }

  ghost predicate Explained(v: Validator, core: Core, blocks: seq<Block>, u: Broadcast) {
    match u.key
    case Partial => exists k: nat :: SignedAt(v, core, blocks, k, u)
    case Peer(_) => exists k: nat, index: uint32, meta: Meta :: ProvedAt(v, core, blocks, k, index, meta, u)
  }

  // ----- where the calls are in the sequence of all calls -----

  lemma {:induction false} DeliveriesAre(txs: seq<seq<byte>>)
    ensures |Deliveries(txs)| == |txs| && forall i | 0 <= i < |txs| :: Deliveries(txs)[i].DeliverTx?
  {
    if txs != [] {
      DeliveriesAre(txs[..|txs| - 1]);
    }
  }

  /** The calls for a block up to its end. */
  function ToEndBlock(b: Block): seq<Call> {
    [BeginBlock(b.header)] + Deliveries(b.txs) + [Call.EndBlock]
  }

  lemma BlockCallsAre(b: Block, i: nat)
    requires i < |BlockCalls(b)|
    ensures BlockCalls(b) == ToEndBlock(b) + [Call.Commit]
    ensures BlockCalls(b)[i] == Call.EndBlock ==> i + 1 == |ToEndBlock(b)|
    ensures BlockCalls(b)[i] == Call.Commit ==> i == |ToEndBlock(b)|
  {
    DeliveriesAre(b.txs);
    if 0 < i <= |b.txs| {
      assert BlockCalls(b)[i] == Deliveries(b.txs)[i - 1];
    }
  }

  /** The calls up to an EndBlock, or up to just before a Commit, are those for some blocks, and for another one up to
      its end. */
  lemma {:induction false} Locate(blocks: seq<Block>, i: nat) returns (k: nat)
    requires i < |Calls(blocks)| && (Calls(blocks)[i] == Call.EndBlock || Calls(blocks)[i] == Call.Commit)
    ensures k < |blocks|
    ensures Calls(blocks)[..if Calls(blocks)[i] == Call.EndBlock then i + 1 else i] ==
      Calls(blocks[..k]) + ToEndBlock(blocks[k])
  {
    hide BlockCalls, ToEndBlock;
    var n := |blocks| - 1;
    var before, last := Calls(blocks[..n]), BlockCalls(blocks[n]);
    assert Calls(blocks) == before + last;
    if i < |before| {
      k := Locate(blocks[..n], i);
      assert blocks[..n][..k] == blocks[..k];
    } else {
      k := n;
      BlockCallsAre(blocks[n], i - |before|);
    }
  }

  /** The state after those calls. */
  lemma ActsToEndBlock(w: World, c: Committee, x: Replica, b: Block)
    requires b.header.height == NextInt64(x.info.height)
    ensures Acts(w, c, x, ToEndBlock(b)).app == Mid(w, c, x.app, b)
  {
    hide Deliver, Blocks.EndBlock, DeliverAll, Deliveries;
    var begin, txs := [BeginBlock(b.header)], Deliveries(b.txs);
    ActsOne(w, c, x, begin[0]);
    var x1 := x.(header := b.header);
    ActsConcat(w, c, x, begin, txs);
    DeliveriesAct(w, c, x1, b.txs);
    ActsConcat(w, c, x, begin + txs, [Call.EndBlock]);
    ActsOne(w, c, x1.(app := DeliverAll(w, c, x.app, b.txs)), Call.EndBlock);
  }

  lemma ActsAt(w: World, c: Committee, x: Replica, blocks: seq<Block>, k: nat)
    requires IsChain(Core(x.app, x.info), blocks) && k < |blocks|
    ensures Acts(w, c, x, Calls(blocks[..k]) + ToEndBlock(blocks[k])).app ==
      MidAt(w, c, Core(x.app, x.info), blocks, k)
  {
    hide Act, Mid, ToEndBlock, IsChain, Calls;
    var core := Core(x.app, x.info);
    ChainPrefix(core, blocks, k);
    BlocksAct(w, c, x, blocks[..k]);
    RunHeight(w, c, core, blocks, k);
    ActsConcat(w, c, x, Calls(blocks[..k]), ToEndBlock(blocks[k]));
    ActsToEndBlock(w, c, Acts(w, c, x, Calls(blocks[..k])), blocks[k]);
  }

  // ----- all runs -----

  ghost predicate AllExplained(v: Validator, core: Core, blocks: seq<Block>, s: Node) {
    && (forall r | r in s.registered :: Registered(v, core, blocks, r))
    && (forall u | u in s.submitted :: Explained(v, core, blocks, u))
  }

  lemma EndBlockExplained(v: Validator, core: Core, blocks: seq<Block>, k: nat, s: Node, s': Node)
    requires AllExplained(v, core, blocks, s) && Next(v, s, Call.EndBlock, s')
    requires k < |blocks| && s'.deliver == StateAt(v, core, blocks, k)
    ensures AllExplained(v, core, blocks, s')
  {
    hide StateAt, Explained, Blocks.EndBlock;
    EndBlockSame(v.w, v.c, s.deliver, s.header);
    forall r | r in s'.registered && r !in s.registered ensures Registered(v, core, blocks, r) {
      assert AwaitedAt(v, core, blocks, k, r.block, r.callback.index);
    }
  }

  lemma EndBlockSame(w: World, c: Committee, a: App, header: Header)
    ensures Blocks.EndBlock(w, c, a, header).milestone.None? ==> Blocks.EndBlock(w, c, a, header) == a
  {
    hide NewEssence;
  }

  lemma CommitExplained(v: Validator, core: Core, blocks: seq<Block>, k: nat, s: Node, s': Node)
    requires AllExplained(v, core, blocks, s) && Next(v, s, Call.Commit, s')
    requires k < |blocks| && s.deliver == StateAt(v, core, blocks, k)
    ensures AllExplained(v, core, blocks, s')
  {
    hide StateAt, Registered, Blocks.Commit, MarshalTx;
    forall u | u in s'.submitted ensures Explained(v, core, blocks, u) {
      if u !in s.submitted {
        assert SignedAt(v, core, blocks, k, u);
      }
    }
  }

  lemma SolidExplained(v: Validator, core: Core, blocks: seq<Block>, s: Node, r: Registration, meta: Meta, s': Node)
    requires AllExplained(v, core, blocks, s) && Next(v, s, BecameSolid(r, meta), s')
    ensures AllExplained(v, core, blocks, s')
  {
    hide AwaitedAt, MarshalTx;
    forall u | u in s'.submitted ensures Explained(v, core, blocks, u) {
      if u !in s.submitted {
        assert Registered(v, core, blocks, r);
        var k: nat :| AwaitedAt(v, core, blocks, k, r.block, r.callback.index);
        assert ProvedAt(v, core, blocks, k, r.callback.index, meta, u);
      }
    }
  }

  lemma OtherExplained(v: Validator, core: Core, blocks: seq<Block>, s: Node, call: Call, s': Node)
    requires AllExplained(v, core, blocks, s) && Next(v, s, call, s')
    requires !call.EndBlock? && !call.Commit? && !call.BecameSolid?
    ensures AllExplained(v, core, blocks, s')
  {
    hide Registered, Explained, Deliver, NextInt64;
  }

  /** In every run along a chain of blocks, the last of which may be under way, each broadcast is a partial signature
      that the end of some block called for, or the proof of a block that was awaited then. */
  lemma {:induction false} SubmissionsAreExplained(v: Validator, states: seq<Node>, calls: seq<Call>,
                                                   blocks: seq<Block>)
    requires IsRun(v, states, calls) && Erase(calls) <= Calls(blocks)
    requires IsChain(Core(states[0].deliver, states[0].info), blocks)
    requires states[0].submitted == [] && states[0].registered == {}
    ensures AllExplained(v, Core(states[0].deliver, states[0].info), blocks, states[|calls|])
  {
    hide Next, Calls, IsChain, AllExplained, Act;
    var core := Core(states[0].deliver, states[0].info);
    if calls == [] {
      NothingExplained(v, core, blocks, states[0]);
    } else {
      var n := |calls| - 1;
      RunPrefix(v, states, calls);
      SubmissionsAreExplained(v, states[..|calls|], calls[..n], blocks);
      if calls[n] == Call.EndBlock || calls[n] == Call.Commit {
        var k := CallAt(v, states, calls, blocks);
        if calls[n] == Call.EndBlock {
          EndBlockExplained(v, core, blocks, k, states[n], states[n + 1]);
        } else {
          CommitExplained(v, core, blocks, k, states[n], states[n + 1]);
        }
      } else if calls[n].BecameSolid? {
        SolidExplained(v, core, blocks, states[n], calls[n].r, calls[n].meta, states[n + 1]);
      } else {
        OtherExplained(v, core, blocks, states[n], calls[n], states[n + 1]);
      }
    }
  }

  lemma NothingExplained(v: Validator, core: Core, blocks: seq<Block>, s: Node)
    requires s.submitted == [] && s.registered == {}
    ensures AllExplained(v, core, blocks, s)
  {
  }

  /** The state after the last call, if it is EndBlock, or before it, if it is Commit, is that at the end of a block. */
  lemma CallAt(v: Validator, states: seq<Node>, calls: seq<Call>, blocks: seq<Block>) returns (k: nat)
    requires IsRun(v, states, calls) && Erase(calls) <= Calls(blocks) && calls != []
    requires IsChain(Core(states[0].deliver, states[0].info), blocks)
    requires calls[|calls| - 1] == Call.EndBlock || calls[|calls| - 1] == Call.Commit
    ensures k < |blocks|
    ensures states[if calls[|calls| - 1] == Call.EndBlock then |calls| else |calls| - 1].deliver ==
      StateAt(v, Core(states[0].deliver, states[0].info), blocks, k)
  {
    hide Next, Calls, IsChain, Act, Acts, ToEndBlock, MidAt;
    var n := |calls| - 1;
    var erased := Erase(calls[..n]);
    RunPrefix(v, states, calls);
    assert Erase(calls) == erased + [calls[n]];
    assert Calls(blocks)[|erased|] == calls[n];
    assert Calls(blocks)[..|erased|] == erased && Calls(blocks)[..|erased| + 1] == Erase(calls);
    k := Locate(blocks, |erased|);
    ReplicaIsDetermined(v, states, calls);
    ReplicaIsDetermined(v, states[..|calls|], calls[..n]);
    ActsAt(v.w, v.c, ReplicaOf(states[0]), blocks, k);
  }

  // ----- in the system of all validators -----

  lemma SameMidAt(w: World, c: Committee, c': Committee, core: Core, blocks: seq<Block>, k: nat)
    requires SameRules(c, c') && k < |blocks|
    ensures MidAt(w, c', core, blocks, k) == MidAt(w, c, core, blocks, k)
  {
    hide DeliverAll, Blocks.EndBlock, Run;
    var a := Run(w, c, core, blocks[..k]).app;
    SameRun(w, c, c', core, blocks[..k]);
    SameDeliverAll(w, c, c', a, blocks[k].txs);
    SameEndBlock(w, c, c', DeliverAll(w, c, a, blocks[k].txs), blocks[k].header);
  }

  lemma MidAtSuffix(w: World, c: Committee, core: Core, blocks: seq<Block>, pos: nat, k: nat)
    requires pos + k < |blocks|
    ensures MidAt(w, c, Run(w, c, core, blocks[..pos]), blocks[pos..], k) == MidAt(w, c, core, blocks, pos + k)
  {
    hide Mid, Run;
    assert blocks[pos..][..k] == blocks[pos..pos + k] && blocks[..pos] + blocks[pos..pos + k] == blocks[..pos + k];
    RunConcat(w, c, core, blocks[..pos], blocks[pos..pos + k]);
  }

  /** The validator `v` is an honest member, which started (or restarted) in the state that its chain has at `pos`, and
      has executed the blocks from there on, the last one maybe in part. */
  ghost predicate IsMember(g: Network.Config, n: Network.Net, v: Validator, state: State, pos: nat,
                           states: seq<Node>, calls: seq<Call>)
  {
    && v.w == g.w && SameRules(g.c, v.c) && v.c.id !in g.faulty
    && pos <= |Network.Chain(n, v.c.id)|
    && IsRun(v, states, calls) && states[0] == Start(v.w, state)
    && Reset(g.w, state) == Run(g.w, g.c, g.start, Network.Chain(n, v.c.id)[..pos])
    && Erase(calls) <= Calls(Network.Chain(n, v.c.id)[pos..])
  }

  lemma MemberState(g: Network.Config, n: Network.Net, v: Validator, state: State, pos: nat,
                    states: seq<Node>, calls: seq<Call>, k: nat)
    requires IsMember(g, n, v, state, pos, states, calls) && k < |Network.Chain(n, v.c.id)[pos..]|
    ensures StateAt(v, Reset(g.w, state), Network.Chain(n, v.c.id)[pos..], k) ==
      Network.MidOf(g, n, v.c.id, pos + k)
  {
    hide MidAt, Run, Reset, Calls, IsRun;
    var blocks := Network.Chain(n, v.c.id);
    SameMidAt(g.w, g.c, v.c, Reset(g.w, state), blocks[pos..], k);
    MidAtSuffix(g.w, g.c, g.start, blocks, pos, k);
  }

  lemma MemberExplained(g: Network.Config, n: Network.Net, v: Validator, state: State, pos: nat,
                        states: seq<Node>, calls: seq<Call>, u: Broadcast)
    requires Network.Invariant(g, n) && IsMember(g, n, v, state, pos, states, calls)
    requires u in states[|calls|].submitted
    ensures Explained(v, Reset(g.w, state), Network.Chain(n, v.c.id)[pos..], u)
  {
    hide Explained, IsRun, Run, Calls, IsChain, Network.Honest, Network.ChainsAttributed, Network.SignsAll;
    var id := v.c.id;
    assert Network.LiveRight(g, n, id);
    ChainSuffix(g.w, g.c, g.start, Network.Chain(n, id), pos);
    SubmissionsAreExplained(v, states, calls, Network.Chain(n, id)[pos..]);
  }

  /** Every partial signature that an honest validator broadcasts is one of an essence that the system says it has
      signed; so what is proved of those (`Network.Agreement`) holds of what the program does. */
  lemma PartialIsSigned(g: Network.Config, n: Network.Net, v: Validator, state: State, pos: nat,
                        states: seq<Node>, calls: seq<Call>, u: Broadcast) returns (e: Essence)
    requires Network.Invariant(g, n) && IsMember(g, n, v, state, pos, states, calls)
    requires u in states[|calls|].submitted && u.key.Partial?
    ensures (v.c.id, e) in n.signed && u.tx == PartialSignature(v.sign(v.w.essenceBytes(e)))
  {
    hide IsRun, Run, Calls, MarshalTx, MidAt, Reset, Network.Honest, Network.ChainsAttributed, Network.AllLive;
    var core, blocks := Reset(g.w, state), Network.Chain(n, v.c.id)[pos..];
    MemberExplained(g, n, v, state, pos, states, calls, u);
    var k: nat :| SignedAt(v, core, blocks, k, u);
    MemberState(g, n, v, state, pos, states, calls, k);
    var mid := Network.MidOf(g, n, v.c.id, pos + k);
    assert Signs(g.c, v.c.id, mid);
    e := mid.milestone.value.essence;
  }

  /** And every proof that it broadcasts is one that the system lets it send, by a step for a block that it found to be
      a valid parent. */
  lemma ProofIsSent(g: Network.Config, n: Network.Net, v: Validator, state: State, pos: nat,
                    states: seq<Node>, calls: seq<Call>, u: Broadcast) returns (s: Network.Step)
    requires Network.Invariant(g, n) && IsMember(g, n, v, state, pos, states, calls)
    requires u in states[|calls|].submitted && u.key.Peer?
    ensures s.Solid? && Network.Enabled(g, n, s)
    ensures (v.c.id, u.tx) in Network.Next(g, n, s).sent
    ensures s.meta.solid && s.meta.referencedByMilestoneIndex == 0 && !s.meta.shouldReattach
  {
    hide IsRun, Run, Calls, MidAt, Reset, Awaited, Network.Invariant;
    var core, blocks := Reset(g.w, state), Network.Chain(n, v.c.id)[pos..];
    MemberExplained(g, n, v, state, pos, states, calls, u);
    var k: nat, index: uint32, meta: Meta :| ProvedAt(v, core, blocks, k, index, meta, u);
    MemberState(g, n, v, state, pos, states, calls, k);
    s := Network.Solid(v.c.id, pos + k, index, meta);
  }
}
