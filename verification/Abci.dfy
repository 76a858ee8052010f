/** One validator as a machine whose steps are the calls of Tendermint and of the node. */
module Abci {
  import opened ByteStrings
  import opened Codec
  import opened Committees
  import opened AppData
  import opened Parents
  import opened Blocks
  import opened Chains
  import opened Sending

  /** The committee tells the validator's own ID; `sign` signs with its private key. */
  datatype Validator = Validator(w: World, c: Committee, sign: seq<byte> -> seq<byte>)

  /** The keys of the broadcast queue. */
  datatype Key = Partial | Peer(id: Byte32)

  /** A transaction submitted to the broadcast queue, and its encoding. */
  datatype Broadcast = Broadcast(key: Key, tx: Tx, raw: seq<byte>)

  /** What is to be done once a block becomes solid: process it as the parent proposed by `peer`. */
  datatype Callback = Callback(index: uint32, peer: Byte32)

  /** A callback that was registered, and after how many milestones. */
  datatype Registration = Registration(epoch: nat, block: Byte32, callback: Callback)

  /** `epoch` and `registered` are history: the number of completed milestones, and all callbacks so far. A
      callback can still be under way after it was removed. */
  datatype Node = Node(
    check: App, deliver: App, header: Header, info: CommitInfo, callbacks: map<Byte32, Callback>,
    submitted: seq<Broadcast>, epoch: nat, registered: set<Registration>)

  datatype Call =
    | CheckTx(raw: seq<byte>)
    | BeginBlock(header: Header)
    | DeliverTx(raw: seq<byte>)
    | EndBlock
    | Commit
    | BecameSolid(r: Registration, meta: Meta)
    | Removed(block: Byte32)

  /** A validator that was created and not initialized. */
  function Created(): Node {
    var zero := Fresh(State(0, 0, 0, 0));
    Node(zero, zero, NO_HEADER, CommitInfo(0, 0), map[], [], 0, {})
  }

  /** What initState does: it resets both states and the commit info, and nothing else. */
  ghost function Initialized(w: World, s: Node, state: State): Node {
    var core := Reset(w, state);
    s.(check := core.app, deliver := core.app, info := core.info, epoch := 0, registered := {})
  }

  /** A validator that was created and then initialized. */
  ghost function Start(w: World, state: State): Node {
    Initialized(w, Created(), state)
  }

  // ----- the steps -----

  function Submission(v: Validator, key: Key, tx: Tx): Broadcast {
    Broadcast(key, tx, MarshalTx(v.c.id, v.sign, tx))
  }

  function OwnPartial(v: Validator, a: App): seq<Broadcast> {
    if Signs(v.c, v.c.id, a) then
      [Submission(v, Partial, PartialSignature(v.sign(v.w.essenceBytes(a.milestone.value.essence))))]
    else []
  }

  function OwnProof(v: Validator, callback: Callback, meta: Meta): seq<Broadcast> {
    match ProcessParent(callback.index, meta)
    case None => []
    case Some(tx) => [Submission(v, Peer(callback.peer), tx)]
  }

  /** `callback` processes the block `b` as the parent that its peer proposed, and a proof of it is missing. */
  ghost predicate Rightful(id: Byte32, a: App, b: Byte32, callback: Callback) {
    && callback.index == a.state.milestoneIndex
    && callback.peer in a.parentByIssuer && a.parentByIssuer[callback.peer] == b
    && id !in ProofIssuers(a, b)
  }

  /** Callbacks are only added, and only rightful ones. */
  ghost predicate Extends(id: Byte32, a: App, before: map<Byte32, Callback>, after: map<Byte32, Callback>) {
    && (forall b | b in before :: b in after && after[b] == before[b])
    && (forall b | b in after && b !in before :: Rightful(id, a, b, after[b]))
  }

  ghost function Added(epoch: nat, before: map<Byte32, Callback>, after: map<Byte32, Callback>): set<Registration> {
    set b | b in after && b !in before :: Registration(epoch, b, after[b])
  }

  /** What EndBlock does to the callbacks: they are cleared when a milestone is made, and registered for all the
      awaited blocks as long as there is none. */
  ghost predicate CallbacksAfter(v: Validator, s: Node, s': Node) {
    if s'.deliver.milestone.None? then
      && Extends(v.c.id, s.deliver, s.callbacks, s'.callbacks)
      && (forall b | Awaited(v.c.id, s.deliver, b) :: b in s'.callbacks)
      && s'.registered == s.registered + Added(s.epoch, s.callbacks, s'.callbacks)
    else
      && s'.callbacks == (if s.deliver.milestone.None? then map[] else s.callbacks)
      && s'.registered == s.registered
  }

  ghost predicate EndBlockNext(v: Validator, s: Node, s': Node) {
    && s' == s.(deliver := Blocks.EndBlock(v.w, v.c, s.deliver, s.header),
                callbacks := s'.callbacks, registered := s'.registered)
    && CallbacksAfter(v, s, s')
  }

  ghost function CommitNext(v: Validator, s: Node): Node {
    var a := Blocks.Commit(v.w, v.c, s.deliver, s.header);
    s.(check := a, deliver := a, info := CommitInfo(s.header.height, v.w.hash(a)),
       submitted := s.submitted + OwnPartial(v, s.deliver),
       epoch := s.epoch + if Complete(v.c, s.deliver) then 1 else 0)
  }

  ghost predicate Next(v: Validator, s: Node, call: Call, s': Node) {
    match call
    case CheckTx(raw) => s' == s.(check := Deliver(v.w, v.c, s.check, raw).1)
    case BeginBlock(header) => s' == if header.height == NextInt64(s.info.height) then s.(header := header) else s
    case DeliverTx(raw) => s' == s.(deliver := Deliver(v.w, v.c, s.deliver, raw).1)
    case EndBlock => EndBlockNext(v, s, s')
    case Commit => s' == CommitNext(v, s)
    case BecameSolid(r, meta) =>
      r in s.registered && meta.blockID == r.block
      && s' == s.(submitted := s.submitted + OwnProof(v, r.callback, meta))
    case Removed(b) => s' == s.(callbacks := s.callbacks - {b})
  }

  lemma NextCases(v: Validator, s: Node, s': Node)
    ensures EndBlockNext(v, s, s') <==> Next(v, s, EndBlock, s')
    ensures s' == CommitNext(v, s) <==> Next(v, s, Commit, s')
    ensures forall raw :: Next(v, s, CheckTx(raw), s') <==> s' == s.(check := Deliver(v.w, v.c, s.check, raw).1)
    ensures forall raw :: Next(v, s, DeliverTx(raw), s') <==> s' == s.(deliver := Deliver(v.w, v.c, s.deliver, raw).1)
  {
    hide Deliver;
  }

  /** EndBlock, part by part. */
  lemma EndBlockParts(v: Validator, s: Node, s': Node)
    requires s'.check == s.check && s'.deliver == Blocks.EndBlock(v.w, v.c, s.deliver, s.header)
    requires s'.header == s.header && s'.info == s.info && s'.submitted == s.submitted && s'.epoch == s.epoch
    requires CallbacksAfter(v, s, s')
    ensures Next(v, s, EndBlock, s')
  {
    hide Blocks.EndBlock, CallbacksAfter;
  }

  lemma InitializedIs(w: World, s: Node, state: State)
    ensures Initialized(w, s, state) ==
      s.(check := Fresh(state), deliver := Fresh(state), epoch := 0, registered := {},
         info := CommitInfo(state.milestoneHeight, w.hash(Fresh(state))))
  {
  }

  /** `states` are the states before, between and after the calls. */
  ghost predicate IsRun(v: Validator, states: seq<Node>, calls: seq<Call>) {
    && |states| == |calls| + 1
    && forall i | 0 <= i < |calls| :: Next(v, states[i], calls[i], states[i + 1])
  }

  lemma RunPrefix(v: Validator, states: seq<Node>, calls: seq<Call>)
    requires IsRun(v, states, calls) && calls != []
    ensures IsRun(v, states[..|calls|], calls[..|calls| - 1])
    ensures Next(v, states[|calls| - 1], calls[|calls| - 1], states[|calls|])
  {
    hide Next;
    var n := |calls| - 1;
    forall i | 0 <= i < n
      ensures Next(v, states[..|calls|][i], calls[..n][i], states[..|calls|][i + 1])
    {
      assert Next(v, states[i], calls[i], states[i + 1]);
    }
  }

  // ----- determinism and non-interference -----

  /** The replicated part of the state. */
  datatype Replica = Replica(app: App, header: Header, info: CommitInfo)

  function ReplicaOf(s: Node): Replica {
    Replica(s.deliver, s.header, s.info)
  }

  predicate Replicated(call: Call) {
    call.BeginBlock? || call.DeliverTx? || call.EndBlock? || call.Commit?
  }

  /** The calls that come from the blockchain. */
  function Erase(calls: seq<Call>): seq<Call> {
    if calls == [] then []
    else
      var last := calls[|calls| - 1];
      Erase(calls[..|calls| - 1]) + if Replicated(last) then [last] else []
  }

  ghost function Act(w: World, c: Committee, x: Replica, call: Call): Replica {
    match call
    case BeginBlock(header) => if header.height == NextInt64(x.info.height) then x.(header := header) else x
    case DeliverTx(raw) => x.(app := Deliver(w, c, x.app, raw).1)
    case EndBlock => x.(app := Blocks.EndBlock(w, c, x.app, x.header))
    case Commit =>
      var a := Blocks.Commit(w, c, x.app, x.header);
      x.(app := a, info := CommitInfo(x.header.height, w.hash(a)))
    case _ => x
  }

  ghost function Acts(w: World, c: Committee, x: Replica, calls: seq<Call>): Replica {
    if calls == [] then x
    else Act(w, c, Acts(w, c, x, calls[..|calls| - 1]), calls[|calls| - 1])
  }

  lemma {:induction false} ActsConcat(w: World, c: Committee, x: Replica, a: seq<Call>, b: seq<Call>)
    ensures Acts(w, c, x, a + b) == Acts(w, c, Acts(w, c, x, a), b)
  {
    hide Act;
    if b == [] {
      assert a + b == a;
    } else {
      ActsConcat(w, c, x, a, b[..|b| - 1]);
      assert (a + b)[..|a + b| - 1] == a + b[..|b| - 1];
    }
  }

  lemma ActsOne(w: World, c: Committee, x: Replica, call: Call)
    ensures Acts(w, c, x, [call]) == Act(w, c, x, call)
  {
    assert [call][..0] == [];
  }

  lemma {:induction false} ReplicaIsDetermined(v: Validator, states: seq<Node>, calls: seq<Call>)
    requires IsRun(v, states, calls)
    ensures ReplicaOf(states[|calls|]) == Acts(v.w, v.c, ReplicaOf(states[0]), Erase(calls))
  {
    hide Next, Act;
    if calls != [] {
      var n := |calls| - 1;
      var erased := Erase(calls[..n]);
      RunPrefix(v, states, calls);
      ReplicaIsDetermined(v, states[..|calls|], calls[..n]);
      NextReplica(v, states[n], calls[n], states[n + 1]);
      if Replicated(calls[n]) {
        ActsConcat(v.w, v.c, ReplicaOf(states[0]), erased, [calls[n]]);
        ActsOne(v.w, v.c, ReplicaOf(states[n]), calls[n]);
      } else {
        assert erased + [] == erased;
      }
    }
  }

  lemma NextReplica(v: Validator, s: Node, call: Call, s': Node)
    requires Next(v, s, call, s')
    ensures ReplicaOf(s') == if Replicated(call) then Act(v.w, v.c, ReplicaOf(s), call) else ReplicaOf(s)
  {
    hide Deliver, Blocks.EndBlock, Blocks.Commit, CallbacksAfter;
  }

  /** The calls for the given blocks. */
  function Calls(blocks: seq<Block>): seq<Call> {
    if blocks == [] then [] else Calls(blocks[..|blocks| - 1]) + BlockCalls(blocks[|blocks| - 1])
  }

  function Deliveries(txs: seq<seq<byte>>): seq<Call> {
    if txs == [] then [] else Deliveries(txs[..|txs| - 1]) + [DeliverTx(txs[|txs| - 1])]
  }

  function BlockCalls(b: Block): seq<Call> {
    [BeginBlock(b.header)] + Deliveries(b.txs) + [EndBlock] + [Commit]
  }

  lemma {:induction false} DeliveriesAct(w: World, c: Committee, x: Replica, txs: seq<seq<byte>>)
    ensures Acts(w, c, x, Deliveries(txs)) == x.(app := DeliverAll(w, c, x.app, txs))
  {
    hide Deliver;
    if txs != [] {
      var before, last := txs[..|txs| - 1], DeliverTx(txs[|txs| - 1]);
      DeliveriesAct(w, c, x, before);
      ActsConcat(w, c, x, Deliveries(before), [last]);
      ActsOne(w, c, Acts(w, c, x, Deliveries(before)), last);
    }
  }

  lemma BlockActs(w: World, c: Committee, x: Replica, b: Block)
    requires b.header.height == NextInt64(x.info.height)
    ensures var core := Execute(w, c, Core(x.app, x.info), b);
      Acts(w, c, x, BlockCalls(b)) == Replica(core.app, b.header, core.info)
  {
    hide Deliver, Blocks.EndBlock, Blocks.Commit, DeliverAll, Deliveries;
    var begin, txs := [BeginBlock(b.header)], Deliveries(b.txs);
    ActsOne(w, c, x, begin[0]);
    var x1 := x.(header := b.header);
    ActsConcat(w, c, x, begin, txs);
    DeliveriesAct(w, c, x1, b.txs);
    var x2 := x1.(app := DeliverAll(w, c, x.app, b.txs));
    ActsConcat(w, c, x, begin + txs, [EndBlock]);
    ActsOne(w, c, x2, EndBlock);
    var x3 := x2.(app := Blocks.EndBlock(w, c, x2.app, b.header));
    ActsConcat(w, c, x, begin + txs + [EndBlock], [Commit]);
    ActsOne(w, c, x3, Commit);
  }

  lemma {:induction false} BlocksAct(w: World, c: Committee, x: Replica, blocks: seq<Block>)
    requires IsChain(Core(x.app, x.info), blocks)
    ensures var y := Acts(w, c, x, Calls(blocks)); Core(y.app, y.info) == Run(w, c, Core(x.app, x.info), blocks)
  {
    hide Execute, BlockCalls, Act, NextInt64;
    if blocks != [] {
      var n := |blocks| - 1;
      var core := Core(x.app, x.info);
      ChainPrefix(core, blocks, n);
      BlocksAct(w, c, x, blocks[..n]);
      RunHeight(w, c, core, blocks, n);
      ActsConcat(w, c, x, Calls(blocks[..n]), BlockCalls(blocks[n]));
      BlockActs(w, c, Acts(w, c, x, Calls(blocks[..n])), blocks[n]);
    }
  }

  /** Whatever transactions are checked and whichever callbacks fire in between, and in whatever order maps are
      visited: the blocks alone determine what is committed. */
  lemma NonInterference(v: Validator, states: seq<Node>, calls: seq<Call>, blocks: seq<Block>)
    requires IsRun(v, states, calls) && Erase(calls) == Calls(blocks)
    requires IsChain(Core(states[0].deliver, states[0].info), blocks)
    ensures Core(states[|calls|].deliver, states[|calls|].info) ==
      Run(v.w, v.c, Core(states[0].deliver, states[0].info), blocks)
  {
    hide Act, Run, Calls, IsChain, Next;
    ReplicaIsDetermined(v, states, calls);
    BlocksAct(v.w, v.c, ReplicaOf(states[0]), blocks);
  }

  // ----- all validators -----

  /** The committees of two validators differ in whose they are only. */
  ghost predicate SameRules(c: Committee, c': Committee) {
    c' == c.(id := c'.id)
  }

  lemma {:induction false} SameDeliverAll(w: World, c: Committee, c': Committee, a: App, txs: seq<seq<byte>>)
    requires SameRules(c, c')
    ensures DeliverAll(w, c', a, txs) == DeliverAll(w, c, a, txs)
  {
    hide Apply, UnmarshalTx;
    if txs != [] {
      SameDeliverAll(w, c, c', a, txs[..|txs| - 1]);
    }
  }

  lemma SameEndBlock(w: World, c: Committee, c': Committee, a: App, header: Header)
    requires SameRules(c, c')
    ensures Blocks.EndBlock(w, c', a, header) == Blocks.EndBlock(w, c, a, header)
  {
    hide Kept, IssuersOf;
    assert Confirmed(c', a) == Confirmed(c, a);
  }

  lemma SameExecute(w: World, c: Committee, c': Committee, core: Core, b: Block)
    requires SameRules(c, c')
    ensures Execute(w, c', core, b) == Execute(w, c, core, b)
  {
    hide DeliverAll, Blocks.EndBlock, NextState;
    SameDeliverAll(w, c, c', core.app, b.txs);
    SameEndBlock(w, c, c', DeliverAll(w, c, core.app, b.txs), b.header);
  }

  lemma {:induction false} SameRun(w: World, c: Committee, c': Committee, core: Core, blocks: seq<Block>)
    requires SameRules(c, c')
    ensures Run(w, c', core, blocks) == Run(w, c, core, blocks)
  {
    hide Execute;
    if blocks != [] {
      var n := |blocks| - 1;
      SameRun(w, c, c', core, blocks[..n]);
      SameExecute(w, c, c', Run(w, c, core, blocks[..n]), blocks[n]);
    }
  }

  /** Two validators that start alike and execute the same blocks commit the same state and the same hash,
      whatever else each of them is asked to do, and whoever they are. */
  lemma ReplicasAgree(v: Validator, states: seq<Node>, calls: seq<Call>,
                      v': Validator, states': seq<Node>, calls': seq<Call>, blocks: seq<Block>)
    requires IsRun(v, states, calls) && Erase(calls) == Calls(blocks)
    requires IsRun(v', states', calls') && Erase(calls') == Calls(blocks)
    requires v'.w == v.w && SameRules(v.c, v'.c)
    requires states[0].deliver == states'[0].deliver && states[0].info == states'[0].info
    requires IsChain(Core(states[0].deliver, states[0].info), blocks)
    ensures states[|calls|].deliver == states'[|calls'|].deliver
    ensures states[|calls|].info == states'[|calls'|].info
  {
    hide Run, Calls, IsChain, Next, Erase, SameRules;
    var core := Core(states[0].deliver, states[0].info);
    NonInterference(v, states, calls, blocks);
    NonInterference(v', states', calls', blocks);
    SameRun(v.w, v.c, v'.c, core, blocks);
  }

  lemma CheckIsCommitted(v: Validator, states: seq<Node>, calls: seq<Call>)
    requires IsRun(v, states, calls) && calls != [] && calls[|calls| - 1].Commit?
    ensures states[|calls|].check == states[|calls|].deliver
  {
    hide Blocks.Commit;
    var n := |calls| - 1;
    assert Next(v, states[n], calls[n], states[n + 1]);
  }

  /** A validator that crashes, resumes from any milestone made on the way and replays the blocks after the height
      in its metadata, ends in the same state, check state and commit info as one that was never interrupted. */
  lemma Restart(v: Validator, state: State, blocks: seq<Block>, k: nat) returns (j: nat)
    requires FitsLimits(v.w, v.c) && IsChain(Reset(v.w, state), blocks)
    requires k < |blocks| && MidAt(v.w, v.c, Reset(v.w, state), blocks, k).milestone.Some?
    ensures j <= k
    ensures var e := MidAt(v.w, v.c, Reset(v.w, state), blocks, k).milestone.value.essence;
      NewStateFromMilestone(e).Some? &&
      forall states: seq<Node>, calls: seq<Call> ::
        IsRun(v, states, calls) && Erase(calls) == Calls(blocks[j..]) &&
        states[0].deliver == Fresh(NewStateFromMilestone(e).value) &&
        states[0].info == Reset(v.w, NewStateFromMilestone(e).value).info ==>
          && Core(states[|calls|].deliver, states[|calls|].info) == Run(v.w, v.c, Reset(v.w, state), blocks)
          && (calls != [] && calls[|calls| - 1].Commit? ==> states[|calls|].check == states[|calls|].deliver)
  {
    hide MidAt, Run, Calls, IsChain, Next, Erase, NewStateFromMilestone;
    var core := Reset(v.w, state);
    var e := MidAt(v.w, v.c, core, blocks, k).milestone.value.essence;
    j := CrashRecovery(v.w, v.c, core, blocks, k);
    forall states: seq<Node>, calls: seq<Call> |
      IsRun(v, states, calls) && Erase(calls) == Calls(blocks[j..]) &&
      states[0].deliver == Fresh(NewStateFromMilestone(e).value) &&
      states[0].info == Reset(v.w, NewStateFromMilestone(e).value).info
      ensures Core(states[|calls|].deliver, states[|calls|].info) == Run(v.w, v.c, core, blocks)
      ensures calls != [] && calls[|calls| - 1].Commit? ==> states[|calls|].check == states[|calls|].deliver
    {
      NonInterference(v, states, calls, blocks[j..]);
      if calls != [] && calls[|calls| - 1].Commit? {
        CheckIsCommitted(v, states, calls);
      }
    }
  }
}
