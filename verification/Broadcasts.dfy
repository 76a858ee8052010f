/** What a validator broadcasts: which callbacks it may still run, and what it puts into the broadcast queue. */
module Broadcasts {
  import opened ByteStrings
  import opened Sets
  import opened Codec
  import opened Committees
  import opened AppData
  import opened Parents
  import opened Blocks
  import opened Sending
  import opened Abci
  import Queue = QueueMachine

  /** The callback belongs to the current milestone index and to what its peer proposed for it. */
  predicate Current(a: App, b: Byte32, callback: Callback) {
    && callback.index == a.state.milestoneIndex
    && callback.peer in a.parentByIssuer && a.parentByIssuer[callback.peer] == b
  }

  /** Nothing that is registered is out of date, and all of it is cleared once there is a milestone. */
  ghost predicate CallbacksCurrent(s: Node) {
    && (s.deliver.milestone.Some? ==> s.callbacks == map[])
    && (forall b | b in s.callbacks :: Current(s.deliver, b, s.callbacks[b]))
  }

  function IndexAt(start: uint32, epoch: nat): uint32 {
    (start + epoch) % TWO_32
  }

  ghost predicate RegisteredRight(c: Committee, start: uint32, s: Node) {
    && s.deliver.state.milestoneIndex == IndexAt(start, s.epoch)
    && (forall r | r in s.registered ::
          && r.epoch <= s.epoch && r.callback.index == IndexAt(start, r.epoch)
          && r.callback.peer in c.members(r.callback.index)
          && (r.epoch == s.epoch ==> Current(s.deliver, r.block, r.callback)))
    && (forall r, r' | r in s.registered && r' in s.registered && r.epoch == r'.epoch ::
          r.callback.peer == r'.callback.peer ==> r.block == r'.block)
  }

  /** The submission is a partial signature, or the proof of the parent that the key's peer proposed. */
  ghost predicate Justified(v: Validator, s: Node, u: Broadcast) {
    && u.raw == MarshalTx(v.c.id, v.sign, u.tx)
    && match u.key
       case Partial => u.tx.PartialSignature?
       case Peer(p) => exists r :: r in s.registered && r.callback.peer == p && u.tx == Proof(r.callback.index, r.block)
  }

  ghost predicate NodeInvariant(v: Validator, start: uint32, s: Node) {
    && Blocks.Valid(v.w, v.c, s.deliver)
    && CallbacksCurrent(s)
    && RegisteredRight(v.c, start, s)
    && forall u | u in s.submitted :: Justified(v, s, u)
  }

  // ----- every step keeps it -----

  ghost predicate Grows(a: App, a': App) {
    && a'.state == a.state && a'.milestone == a.milestone
    && forall p | p in a.parentByIssuer :: p in a'.parentByIssuer && a'.parentByIssuer[p] == a.parentByIssuer[p]
  }

  lemma ApplyGrows(w: World, a: App, issuer: Byte32, tx: Tx)
    requires Apply(w, a, issuer, tx).Done?
    ensures Grows(a, Apply(w, a, issuer, tx).app)
  {
  }

  lemma DeliverGrows(w: World, c: Committee, a: App, raw: seq<byte>)
    ensures Grows(a, Deliver(w, c, a, raw).1)
  {
    hide UnmarshalTx, Apply;
    var u := UnmarshalTx(c.members(a.state.milestoneIndex), w.verify, raw);
    if u.Ok? && Apply(w, a, u.issuer, u.tx).Done? {
      ApplyGrows(w, a, u.issuer, u.tx);
    }
  }

  lemma StartInvariant(v: Validator, state: State)
    ensures NodeInvariant(v, state.milestoneIndex, Start(v.w, state))
  {
    FreshValid(v.w, v.c, state);
  }

  lemma DeliverStep(v: Validator, start: uint32, s: Node, raw: seq<byte>, s': Node)
    requires NodeInvariant(v, start, s) && Next(v, s, DeliverTx(raw), s')
    ensures NodeInvariant(v, start, s')
  {
    hide Blocks.Valid, Deliver;
    DeliverValid(v.w, v.c, s.deliver, raw);
    DeliverGrows(v.w, v.c, s.deliver, raw);
    forall u | u in s.submitted { KeepJustified(v, s, s', u); }
  }

  lemma KeepJustified(v: Validator, s: Node, s': Node, u: Broadcast)
    requires Justified(v, s, u) && s.registered <= s'.registered
    ensures Justified(v, s', u)
  {
    hide MarshalTx;
  }

  lemma EndBlockFacts(w: World, c: Committee, a: App, header: Header)
    ensures var a' := Blocks.EndBlock(w, c, a, header);
      && a'.state == a.state && a'.parentByIssuer == a.parentByIssuer
      && (a.milestone.Some? || a'.milestone.None? ==> a' == a)
  {
    hide NewEssence, EnoughParents;
  }

  lemma EndBlockStep(v: Validator, start: uint32, s: Node, s': Node)
    requires NodeInvariant(v, start, s) && Next(v, s, Call.EndBlock, s')
    ensures NodeInvariant(v, start, s')
  {
    hide Blocks.Valid, Blocks.EndBlock, Justified, RegisteredRight, Awaited;
    EndBlockValid(v.w, v.c, s.deliver, s.header);
    EndBlockFacts(v.w, v.c, s.deliver, s.header);
    EndBlockRegistered(v, start, s, s');
    forall u | u in s.submitted { KeepJustified(v, s, s', u); }
  }

  lemma ProposersAreMembers(w: World, c: Committee, a: App, p: Byte32)
    requires Blocks.Valid(w, c, a) && p in a.parentByIssuer
    ensures p in c.members(a.state.milestoneIndex)
  {
  }

  lemma EndBlockRegistered(v: Validator, start: uint32, s: Node, s': Node)
    requires NodeInvariant(v, start, s) && Next(v, s, Call.EndBlock, s')
    ensures RegisteredRight(v.c, start, s')
  {
    hide Blocks.Valid, Blocks.EndBlock, Justified, Awaited, IndexAt;
    EndBlockFacts(v.w, v.c, s.deliver, s.header);
    if s'.deliver.milestone.None? {
      forall r | r in s'.registered && r !in s.registered
        ensures r.epoch == s.epoch && Current(s.deliver, r.block, r.callback)
        ensures r.callback.peer in v.c.members(s.deliver.state.milestoneIndex)
      {
        ProposersAreMembers(v.w, v.c, s.deliver, r.callback.peer);
      }
    }
  }

  lemma NextIndexAt(start: uint32, epoch: nat)
    ensures NextUint32(IndexAt(start, epoch)) == IndexAt(start, epoch + 1)
  {
  }

  lemma CommitFacts(w: World, c: Committee, a: App, header: Header)
    ensures var a' := Blocks.Commit(w, c, a, header);
      if Complete(c, a) then
        a.milestone.Some? && a'.milestone.None? && a'.state.milestoneIndex == NextUint32(a.state.milestoneIndex)
      else a' == a
    ensures Blocks.Valid(w, c, a) ==> Blocks.Valid(w, c, Blocks.Commit(w, c, a, header))
  {
    hide Blocks.Valid, Completed;
    if Complete(c, a) {
      FreshValid(w, c, NextState(w, a, header.height));
    }
  }

  lemma CommitStep(v: Validator, start: uint32, s: Node, s': Node)
    requires NodeInvariant(v, start, s) && Next(v, s, Call.Commit, s')
    ensures NodeInvariant(v, start, s')
  {
    hide Blocks.Valid, Blocks.Commit, MarshalTx, Complete, IndexAt, NextUint32;
    CommitFacts(v.w, v.c, s.deliver, s.header);
    NextIndexAt(start, s.epoch);
    forall u | u in s'.submitted ensures Justified(v, s', u) {
      if u in s.submitted { KeepJustified(v, s, s', u); }
    }
  }

  lemma BecameSolidStep(v: Validator, start: uint32, s: Node, r: Registration, meta: Meta, s': Node)
    requires NodeInvariant(v, start, s) && Next(v, s, BecameSolid(r, meta), s')
    ensures NodeInvariant(v, start, s')
  {
    hide Blocks.Valid, MarshalTx, RegisteredRight;
    KeepRegistered(v.c, start, s, s');
    forall u | u in s'.submitted ensures Justified(v, s', u) {
      if u in s.submitted { KeepJustified(v, s, s', u); }
    }
  }

  lemma KeepRegistered(c: Committee, start: uint32, s: Node, s': Node)
    requires RegisteredRight(c, start, s)
    requires s'.deliver == s.deliver && s'.epoch == s.epoch && s'.registered == s.registered
    ensures RegisteredRight(c, start, s')
  {
  }

  lemma OtherStep(v: Validator, start: uint32, s: Node, call: Call, s': Node)
    requires NodeInvariant(v, start, s) && Next(v, s, call, s')
    requires call.CheckTx? || call.BeginBlock? || call.Removed?
    ensures NodeInvariant(v, start, s')
  {
    hide Blocks.Valid, Deliver, RegisteredRight, NextInt64;
    KeepRegistered(v.c, start, s, s');
    forall u | u in s.submitted { KeepJustified(v, s, s', u); }
  }

  lemma NodeStep(v: Validator, start: uint32, s: Node, call: Call, s': Node)
    requires NodeInvariant(v, start, s) && Next(v, s, call, s')
    ensures NodeInvariant(v, start, s')
  {
    hide NodeInvariant, Next;
    match call
    case DeliverTx(raw) => DeliverStep(v, start, s, raw, s');
    case EndBlock => EndBlockStep(v, start, s, s');
    case Commit => CommitStep(v, start, s, s');
    case BecameSolid(r, meta) => BecameSolidStep(v, start, s, r, meta, s');
    case _ => OtherStep(v, start, s, call, s');
  }

  lemma {:induction false} RunInvariant(v: Validator, start: uint32, states: seq<Node>, calls: seq<Call>)
    requires IsRun(v, states, calls) && NodeInvariant(v, start, states[0])
    ensures NodeInvariant(v, start, states[|calls|])
  {
    hide NodeInvariant, Next;
    if calls != [] {
      var n := |calls| - 1;
      RunPrefix(v, states, calls);
      RunInvariant(v, start, states[..|calls|], calls[..n]);
      NodeStep(v, start, states[n], calls[n], states[n + 1]);
    }
  }

  // ----- what follows -----

  /** In every run no callback is ever out of date. */
  lemma NoStaleCallbacks(v: Validator, state: State, states: seq<Node>, calls: seq<Call>)
    requires IsRun(v, states, calls) && states[0] == Start(v.w, state)
    ensures CallbacksCurrent(states[|calls|])
  {
    hide Next, CallbacksCurrent, RegisteredRight;
    StartInvariant(v, state);
    RunInvariant(v, state.milestoneIndex, states, calls);
  }

  /** Two proofs submitted under the same key for the same milestone index are the same transaction, so that the
      one that replaces the other in the queue loses nothing. */
  lemma ProofsAgree(v: Validator, state: State, states: seq<Node>, calls: seq<Call>, t: Broadcast, u: Broadcast)
    requires IsRun(v, states, calls) && states[0] == Start(v.w, state)
    requires states[|calls|].epoch < TWO_32
    requires t in states[|calls|].submitted && u in states[|calls|].submitted
    requires t.key == u.key && t.key.Peer?
    ensures t.tx.Proof? && u.tx.Proof?
    ensures t.tx.index == u.tx.index ==> t == u
  {
    hide Next, Blocks.Valid, CallbacksCurrent, MarshalTx;
    var s := states[|calls|];
    StartInvariant(v, state);
    RunInvariant(v, state.milestoneIndex, states, calls);
    var r :| r in s.registered && r.callback.peer == t.key.id && t.tx == Proof(r.callback.index, r.block);
    var r' :| r' in s.registered && r'.callback.peer == u.key.id && u.tx == Proof(r'.callback.index, r'.block);
    if t.tx.index == u.tx.index {
      SameEpoch(state.milestoneIndex, r.epoch, r'.epoch);
    }
  }

  lemma SameEpoch(start: uint32, e: nat, e': nat)
    requires e < TWO_32 && e' < TWO_32 && IndexAt(start, e) == IndexAt(start, e')
    ensures e == e'
  {
  }

  ghost function KeysOf(members: set<Byte32>): set<Key> {
    {Partial} + set p | p in members :: Peer(p)
  }

  lemma {:induction false} KeysSize(members: set<Byte32>)
    ensures |KeysOf(members)| == |members| + 1
  {
    if members == {} {
      assert KeysOf(members) == {Partial};
    } else {
      var p :| p in members;
      KeysSize(members - {p});
      assert KeysOf(members) == KeysOf(members - {p}) + {Peer(p)};
    }
  }

  /** For a fixed committee, the only keys are those of the members and of the partial signature. */
  lemma KeysAreMembers(v: Validator, state: State, states: seq<Node>, calls: seq<Call>, members: set<Byte32>)
    requires IsRun(v, states, calls) && states[0] == Start(v.w, state)
    requires forall index: uint32 :: v.c.members(index) == members
    ensures forall u | u in states[|calls|].submitted :: u.key in KeysOf(members)
  {
    hide Next, Blocks.Valid, CallbacksCurrent, MarshalTx;
    StartInvariant(v, state);
    RunInvariant(v, state.milestoneIndex, states, calls);
  }

  ghost function LatestKeys<K, V>(s: Queue.State<K, V>, run: seq<Queue.Action<K, V>>): set<K> {
    s.latest.Keys + set a | a in run && a.Submit? :: a.key
  }

  lemma {:induction false} LatestAreSubmitted<K, V>(s: Queue.State<K, V>, run: seq<Queue.Action<K, V>>)
    requires Queue.IsRun(s, run)
    ensures Queue.RunFrom(s, run).latest.Keys <= LatestKeys(s, run)
    decreases |run|
  {
    if run != [] {
      var s' := Queue.Next(s, run[0]);
      LatestAreSubmitted(s', run[1..]);
      LatestNext(s, run[0]);
      assert forall a | a in run[1..] :: a in run;
    }
  }

  lemma LatestNext<K, V>(s: Queue.State<K, V>, a: Queue.Action<K, V>)
    requires Queue.Enabled(s, a)
    ensures Queue.Next(s, a).latest.Keys == s.latest.Keys + if a.Submit? then {a.key} else {}
  {
  }

  /** However its steps interleave, a queue that only gets what the validator of a fixed committee of `n` members
      submits holds at most n + 1 values. */
  lemma QueueStaysSmall(v: Validator, state: State, states: seq<Node>, calls: seq<Call>, members: set<Byte32>,
                        run: seq<Queue.Action<Key, seq<byte>>>)
    requires IsRun(v, states, calls) && states[0] == Start(v.w, state)
    requires forall index: uint32 :: v.c.members(index) == members
    requires Queue.IsRun(Queue.Initial(), run)
    requires forall a | a in run && a.Submit? ::
      exists u :: u in states[|calls|].submitted && a.key == u.key && a.value == u.raw
    ensures |Queue.RunFrom(Queue.Initial(), run).queue| <= |members| + 1
    ensures Queue.RunFrom(Queue.Initial(), run).len <= |members| + 2
  {
    hide Next, NodeInvariant, Start;
    var s := Queue.RunFrom(Queue.Initial(), run);
    KeysAreMembers(v, state, states, calls, members);
    LatestAreSubmitted(Queue.Initial(), run);
    assert s.latest.Keys <= KeysOf(members);
    SubsetSize(s.latest.Keys, KeysOf(members));
    KeysSize(members);
    Queue.RunInvariant(Queue.Initial(), run);
    Queue.SizeBound(s);
  }

  // ----- the broadcasts are accepted -----

  /** The validator's signatures have the right size and verify. */
  ghost predicate SignsRight(v: Validator) {
    forall m :: |v.sign(m)| == SIGNATURE_SIZE && v.w.verify(v.c.id, m, v.sign(m))
  }

  lemma DeliverOwn(v: Validator, a: App, tx: Tx)
    requires SignsRight(v) && v.c.id in v.c.members(a.state.milestoneIndex)
    requires tx.PartialSignature? ==> |tx.signature| == SIGNATURE_SIZE
    ensures Deliver(v.w, v.c, a, MarshalTx(v.c.id, v.sign, tx)).0 ==
      if Apply(v.w, a, v.c.id, tx).Done? then OK else StateError
  {
    hide MarshalTx, UnmarshalTx, Apply;
    TxRoundTrip(v.c.members(a.state.milestoneIndex), v.w.verify, v.c.id, v.sign, tx);
    SizeBound(v.c.id, v.sign, tx);
  }

  /** The partial signature that Commit submits passes the check of the state that Commit leaves behind, and it
      would not have passed that of a state that does not have the milestone yet. */
  lemma PartialPassesCheck(v: Validator, s: Node, s': Node, older: App, u: Broadcast)
    requires SignsRight(v) && v.c.id in v.c.members(s.deliver.state.milestoneIndex)
    requires Next(v, s, Call.Commit, s') && u in OwnPartial(v, s.deliver)
    requires older.state == s.deliver.state && older.milestone.None?
    ensures Deliver(v.w, v.c, s'.check, u.raw).0 == OK
    ensures Deliver(v.w, v.c, older, u.raw).0 == StateError
  {
    hide MarshalTx, Deliver;
    DeliverOwn(v, s.deliver, u.tx);
    DeliverOwn(v, older, u.tx);
  }

  /** The proof of a parent passes the check exactly as long as the milestone index is the same, there is no
      milestone yet, the parent is among the proposed ones, and the proof is not there already. */
  lemma ProofPassesCheck(v: Validator, a: App, callback: Callback, meta: Meta, u: Broadcast)
    requires SignsRight(v) && v.c.id in v.c.members(a.state.milestoneIndex)
    requires u in OwnProof(v, callback, meta)
    ensures Deliver(v.w, v.c, a, u.raw).0 == OK <==>
      && callback.index == a.state.milestoneIndex && a.milestone.None?
      && Count(a, meta.blockID) >= 1 && v.c.id !in ProofIssuers(a, meta.blockID)
  {
    hide MarshalTx, Deliver;
    DeliverOwn(v, a, u.tx);
  }

  // ----- what is broadcast, and why -----

  /** Of what a validator makes itself, the check accepts exactly what the state has a use for. */
  lemma OwnPassesCheck(v: Validator, a: App, tx: Tx)
    requires SignsRight(v) && v.c.id in v.c.members(a.state.milestoneIndex) && Counted(v.c, a)
    requires tx.PartialSignature? ==> |tx.signature| == SIGNATURE_SIZE
    ensures Deliver(v.w, v.c, a, MarshalTx(v.c.id, v.sign, tx)).0 == OK <==> IsUseful(v.w, a, v.c.id, tx)
  {
    hide Apply, Deliver, MarshalTx, Counted, IsUseful;
    DeliverOwn(v, a, tx);
    AppliedIffUseful(v.c, v.w, a, v.c.id, tx);
  }

  /** A proof is broadcast exactly for blocks that are solid, not referenced and not below max depth, under the key of
      the peer who proposed the block. */
  lemma ProofIsBroadcast(v: Validator, callback: Callback, meta: Meta)
    ensures OwnProof(v, callback, meta) ==
      if meta.solid && meta.referencedByMilestoneIndex == 0 && !meta.shouldReattach && callback.index != 0 then
        [Submission(v, Peer(callback.peer), Proof(callback.index, meta.blockID))]
      else []
  {
    ProofIffValid(callback.index, meta);
  }

  /** The partial signature is broadcast exactly as long as the milestone is not complete, and only if it would be
      accepted. */
  lemma PartialIffMissing(v: Validator, a: App)
    requires SignsRight(v) && v.c.id in v.c.members(a.state.milestoneIndex) && Counted(v.c, a)
    ensures OwnPartial(v, a) != [] <==>
      && a.milestone.Some? && !Complete(v.c, a)
      && var partial := PartialSignature(v.sign(v.w.essenceBytes(a.milestone.value.essence)));
      Deliver(v.w, v.c, a, MarshalTx(v.c.id, v.sign, partial)).0 == OK
  {
    hide Deliver, MarshalTx, Counted;
    if a.milestone.Some? {
      OwnPassesCheck(v, a, PartialSignature(v.sign(v.w.essenceBytes(a.milestone.value.essence))));
    }
  }

  /** A block is awaited exactly if a proof of it would be accepted. */
  lemma AwaitedIffMissing(v: Validator, a: App, b: Byte32)
    requires SignsRight(v) && v.c.id in v.c.members(a.state.milestoneIndex) && Counted(v.c, a)
    ensures Awaited(v.c.id, a, b) <==>
      Deliver(v.w, v.c, a, MarshalTx(v.c.id, v.sign, Proof(a.state.milestoneIndex, b))).0 == OK
  {
    hide Deliver, MarshalTx, Counted;
    OwnPassesCheck(v, a, Proof(a.state.milestoneIndex, b));
  }

  /** And callbacks are registered exactly for such blocks, with the current index and one of the proposers. */
  lemma RightfulIffMissing(v: Validator, a: App, b: Byte32, callback: Callback)
    requires SignsRight(v) && v.c.id in v.c.members(a.state.milestoneIndex) && Counted(v.c, a)
    requires a.milestone.None?
    ensures Rightful(v.c.id, a, b, callback) <==>
      && callback.peer in a.parentByIssuer && a.parentByIssuer[callback.peer] == b
      && Deliver(v.w, v.c, a, MarshalTx(v.c.id, v.sign, Proof(callback.index, b))).0 == OK
  {
    hide Deliver, MarshalTx, Counted;
    OwnPassesCheck(v, a, Proof(callback.index, b));
  }

  /** What CheckTx has accepted it does not accept again: it keeps track of it in the check state. */
  lemma CheckedOnce(v: Validator, s: Node, raw: seq<byte>, s': Node)
    requires Next(v, s, CheckTx(raw), s')
    ensures Deliver(v.w, v.c, s'.check, raw).0 != OK
    ensures s'.deliver == s.deliver
  {
    hide Deliver;
    DeliverOnce(v.w, v.c, s.check, raw);
  }

  // ----- once per block -----

  /** What was registered since the last milestone is still registered, and each block only once. */
  ghost predicate EachOnce(s: Node) {
    && (forall r | r in s.registered ::
          && r.epoch <= s.epoch
          && (r.epoch == s.epoch && s.deliver.milestone.None? ==>
                r.block in s.callbacks && s.callbacks[r.block] == r.callback))
    && forall r, r' | r in s.registered && r' in s.registered && r.epoch == r'.epoch && r.block == r'.block :: r == r'
  }

  lemma EachOnceStep(v: Validator, s: Node, call: Call, s': Node)
    requires EachOnce(s) && Next(v, s, call, s') && !call.Removed?
    ensures EachOnce(s')
  {
    hide Deliver, Blocks.EndBlock, Blocks.Commit, Blocks.Valid, OwnPartial, OwnProof, Rightful, Awaited;
    match call
    case DeliverTx(raw) => DeliverFrozen(v.w, v.c, s.deliver, raw);
    case EndBlock => EndBlockFacts(v.w, v.c, s.deliver, s.header);
    case Commit => CommitFacts(v.w, v.c, s.deliver, s.header);
    case _ =>
  }

  /** Unless the listener forgets a callback, each block gets only one per milestone: it is not registered again for
      another peer who proposed it, or in a later block. */
  lemma {:induction false} EachBlockOnce(v: Validator, state: State, states: seq<Node>, calls: seq<Call>)
    requires IsRun(v, states, calls) && states[0] == Start(v.w, state)
    requires forall call | call in calls :: !call.Removed?
    ensures EachOnce(states[|calls|])
  {
    hide Next, EachOnce;
    if calls == [] {
      StartOnce(v.w, state);
    } else {
      var n := |calls| - 1;
      RunPrefix(v, states, calls);
      assert forall call | call in calls[..n] :: call in calls;
      EachBlockOnce(v, state, states[..|calls|], calls[..n]);
      EachOnceStep(v, states[n], calls[n], states[n + 1]);
    }
  }

  lemma StartOnce(w: World, state: State)
    ensures EachOnce(Start(w, state))
  {
  }
}
