/** The coordinator itself, as an object whose methods are the calls of Tendermint and of the node. */
module Coordinators {
  import opened ByteStrings
  import opened Codec
  import opened Committees
  import opened AppData
  import opened Parents
  import opened Blocks
  import opened Chains
  import opened Sending
  import opened Abci
  import opened Broadcasts
  import opened AppStates
  import opened Collecting
  import Sorting

  /** What the node answers when it is asked for the latest milestone. */
  datatype Latest = Unavailable | NoMilestone | Found(ms: Milestone)

  /** Bootstrapping is safe if it continues after the latest milestone, or if there is none. */
  ghost predicate Continues(w: World, latest: Latest, index: uint32, milestoneID: Byte32, blockID: Byte32) {
    match latest
    case Unavailable => false
    case NoMilestone => true
    case Found(ms) =>
      index == NextUint32(ms.essence.index) && milestoneID == w.milestoneID(ms) && blockID == w.blockID(ms)
  }

  class Coordinator {
    const w: World
    const committee: Committee
    const sign: seq<byte> -> seq<byte>
    const checkState: AppState
    const deliverState: AppState
    const cms: CommitStore
    var callbacks: map<Byte32, Callback>
    /** what was submitted to the broadcast queue */
    var submitted: seq<Broadcast>
    ghost var epoch: nat
    ghost var registered: set<Registration>

    ghost function Self(): Validator {
      Validator(w, committee, sign)
    }

    ghost function Abstract(): Node
      requires checkState.Valid() && deliverState.Valid()
      reads this, checkState, checkState.Repr, deliverState, deliverState.Repr, cms
    {
      Node(checkState.MarshalBinary(), deliverState.MarshalBinary(), deliverState.blockHeader, cms.info,
           callbacks, submitted, epoch, registered)
    }

    /** The two states share nothing that can change. */
    ghost predicate Apart()
      reads checkState`proofIssuersByBlockID, checkState`Repr, deliverState`proofIssuersByBlockID, deliverState`Repr
    {
      checkState != deliverState && checkState.Valid() && deliverState.Valid() && checkState.Repr !! deliverState.Repr
    }

    /** And the state of the blockchain is a valid one. */
    ghost predicate Valid()
      reads checkState`proofIssuersByBlockID, checkState`Repr, deliverState, deliverState.Repr
    {
      Apart() && FitsLimits(w, committee) && Blocks.Valid(w, committee, deliverState.MarshalBinary())
    }

    constructor (w: World, committee: Committee, sign: seq<byte> -> seq<byte>)
      requires FitsLimits(w, committee)
      ensures this.w == w && this.committee == committee && this.sign == sign
      ensures Valid() && Abstract() == Created()
      ensures fresh(checkState) && fresh(deliverState) && fresh(cms)
      ensures fresh(checkState.Repr) && fresh(deliverState.Repr)
    {
      this.w, this.committee, this.sign := w, committee, sign;
      var zero := State(0, 0, 0, 0);
      FreshValid(w, committee, zero);
      checkState := new AppState(zero);
      deliverState := new AppState(zero);
      cms := new CommitStore(CommitInfo(0, 0));
      callbacks, submitted, epoch, registered := map[], [], 0, {};
    }

    /** There must be room for an honest parent, and for one signature per member. */
    static method New(w: World, committee: Committee, sign: seq<byte> -> seq<byte>) returns (c: Option<Coordinator>)
      requires committee.n > 0 && committee.f == MaxFaulty(committee.n)
      ensures c.Some? <==> committee.f + 1 <= w.blockMaxParents - 1 && committee.n <= w.maxSignatures
      ensures c.Some? ==>
        && c.value.Valid() && c.value.Self() == Validator(w, committee, sign) && c.value.Abstract() == Created()
        && fresh(c.value) && fresh(c.value.checkState) && fresh(c.value.deliverState) && fresh(c.value.cms)
        && fresh(c.value.checkState.Repr) && fresh(c.value.deliverState.Repr)
    {
      if committee.f + 1 > w.blockMaxParents - 1 {
        return None;
      }
      if committee.n > w.maxSignatures {
        return None;
      }
      var r := new Coordinator(w, committee, sign);
      c := Some(r);
    }

    // ----- initialization -----

    method ValidateLatest(latest: Latest, index: uint32, milestoneID: Byte32, blockID: Byte32) returns (ok: bool)
      ensures ok <==> Continues(w, latest, index, milestoneID, blockID)
    {
      if latest.Unavailable? {
        return false;
      }
      if latest.Found? {
        if latest.ms.essence.index != PreviousUint32(index) {
          return false;
        }
        if w.milestoneID(latest.ms) != milestoneID {
          return false;
        }
        if w.blockID(latest.ms) != blockID {
          return false;
        }
      }
      ok := true;
    }

    method Bootstrap(force: bool, index: uint32, milestoneID: Byte32, blockID: Byte32, latest: Latest)
      returns (ok: bool)
      requires Valid()
      modifies this`epoch, this`registered, checkState, deliverState, cms
      ensures Valid() && fresh(checkState.Repr - old(checkState.Repr))
      ensures fresh(deliverState.Repr - old(deliverState.Repr))
      ensures ok <==> force || Continues(w, latest, index, milestoneID, blockID)
      ensures Abstract() ==
        if ok then Initialized(w, old(Abstract()), State(0, index, milestoneID, blockID)) else old(Abstract())
    {
      hide Blocks.Valid, AppState.MarshalBinary, AppState.Valid;
      if !force {
        ok := ValidateLatest(latest, index, milestoneID, blockID);
        if !ok {
          return;
        }
      }
      InitializeState(0, State(0, index, milestoneID, blockID));
      ok := true;
    }

    /** Resumes from a milestone. */
    method InitState(ms: Milestone) returns (ok: bool)
      requires Valid()
      modifies this`epoch, this`registered, checkState, deliverState, cms
      ensures Valid() && fresh(checkState.Repr - old(checkState.Repr))
      ensures fresh(deliverState.Repr - old(deliverState.Repr))
      ensures ok <==> NewStateFromMilestone(ms.essence).Some?
      ensures Abstract() ==
        if ok then Initialized(w, old(Abstract()), NewStateFromMilestone(ms.essence).value) else old(Abstract())
    {
      hide Blocks.Valid, AppState.MarshalBinary, AppState.Valid, NewStateFromMilestone;
      var state := NewStateFromMilestone(ms.essence);
      if state.None? {
        return false;
      }
      InitializeState(state.value.milestoneHeight, state.value);
      ok := true;
    }

    method InitializeState(height: int64, state: State)
      requires Valid() && height == state.milestoneHeight
      modifies this`epoch, this`registered, checkState, deliverState, cms
      ensures Valid() && checkState.Repr == deliverState.Repr == {}
      ensures Abstract() == Initialized(w, old(Abstract()), state)
    {
      hide Blocks.Valid, AppState.MarshalBinary, AppState.Valid, Fresh, FitsLimits, Initialized;
      ghost var s := Abstract();
      FreshValid(w, committee, state);
      InitializedIs(w, s, state);
      ResetStates(state);
      var hash := deliverState.Hash(w);
      cms.info := CommitInfo(height, hash);
      epoch, registered := 0, {};
    }

    method ResetStates(state: State)
      requires checkState != deliverState
      modifies checkState, deliverState
      ensures Apart() && checkState.Repr == deliverState.Repr == {}
      ensures checkState.MarshalBinary() == deliverState.MarshalBinary() == Fresh(state)
      ensures deliverState.blockHeader == old(deliverState.blockHeader)
    {
      hide AppState.MarshalBinary, AppState.Valid, Fresh;
      checkState.Reset(state);
      deliverState.Reset(state);
    }

    /** The height and hash that Tendermint replays from. */
    method Info() returns (height: int64, hash: Byte32)
      ensures CommitInfo(height, hash) == cms.info
    {
      height, hash := cms.info.height, cms.info.hash;
    }

    // ----- transactions -----

    method ApplyRaw(state: AppState, raw: seq<byte>) returns (code: Code)
      requires state.Valid()
      modifies state, state.Repr
      ensures state.Valid() && fresh(state.Repr - old(state.Repr))
      ensures (code, state.MarshalBinary()) == Deliver(w, committee, old(state.MarshalBinary()), raw)
      ensures state.blockHeader == old(state.blockHeader)
    {
      hide UnmarshalTx, Apply;
      if |raw| > MAX_TX_BYTES {
        return SizeError;
      }
      match UnmarshalTx(committee.members(state.state.milestoneIndex), w.verify, raw) {
        case Ok(issuer, tx) =>
          var err := state.ApplyTx(w, issuer, tx);
          code := if err.NoError? then OK else StateError;
        case Panic =>
          code := Panics;
        case _ =>
          code := Code.SyntaxError;
      }
    }

    /** Only the check state changes. */
    method CheckTx(raw: seq<byte>) returns (code: Code)
      requires Valid()
      modifies checkState, checkState.Repr
      ensures Valid() && fresh(checkState.Repr - old(checkState.Repr))
      ensures code == Deliver(w, committee, old(checkState.MarshalBinary()), raw).0
      ensures Next(Self(), old(Abstract()), Call.CheckTx(raw), Abstract())
    {
      hide Deliver, Blocks.Valid, AppState.MarshalBinary, AppState.Valid, Next, FitsLimits;
      ghost var s := Abstract();
      code := ApplyRaw(checkState, raw);
      NextCases(Self(), s, Abstract());
    }

    method DeliverTx(raw: seq<byte>) returns (code: Code)
      requires Valid()
      modifies deliverState, deliverState.Repr
      ensures Valid() && fresh(deliverState.Repr - old(deliverState.Repr))
      ensures code == Deliver(w, committee, old(deliverState.MarshalBinary()), raw).0
      ensures Next(Self(), old(Abstract()), Call.DeliverTx(raw), Abstract())
    {
      hide Deliver, Blocks.Valid, AppState.MarshalBinary, AppState.Valid, Next, FitsLimits;
      ghost var s := Abstract();
      DeliverValid(w, committee, deliverState.MarshalBinary(), raw);
      code := ApplyRaw(deliverState, raw);
      NextCases(Self(), s, Abstract());
    }

    /** A wrong height makes it panic. */
    method BeginBlock(header: Header) returns (ok: bool)
      requires Valid()
      modifies deliverState`blockHeader
      ensures Valid() && (ok <==> header.height == NextInt64(cms.info.height))
      ensures deliverState.blockHeader == if ok then header else old(deliverState.blockHeader)
      ensures Next(Self(), old(Abstract()), Call.BeginBlock(header), Abstract())
    {
      hide Blocks.Valid, AppState.MarshalBinary, AppState.Valid;
      ok := cms.ValidateHeight(header.height);
      if ok {
        deliverState.blockHeader := header;
      }
    }

    // ----- the end of a block -----

    method CreateMilestoneEssence(collected: seq<Byte32>)
      requires FitsLimits(w, committee) && deliverState.Valid()
      requires NoDuplicates(collected)
      requires Sorting.Elements(collected) == Candidates(committee, deliverState.MarshalBinary())
      modifies deliverState`milestone
      ensures deliverState.milestone.Some?
      ensures deliverState.MarshalBinary() == old(deliverState.MarshalBinary()).(milestone := Some(Milestone(
        NewEssence(w, committee, old(deliverState.MarshalBinary()), ToUint32(deliverState.blockHeader.time)), [])))
    {
      hide MilestoneParents, NoDuplicates, Candidates;
      var parents := FinalParents(w, committee, deliverState.MarshalBinary(), collected);
      var state, timestamp := deliverState.state, ToUint32(deliverState.blockHeader.time);
      var (inclusion, applied) := w.whiteFlag(state.milestoneIndex, timestamp, parents, state.lastMilestoneID);
      var essence := Essence(state.milestoneIndex, timestamp, w.protocolVersion, state.lastMilestoneID, parents,
                             inclusion, applied, Metadata(state));
      deliverState.milestone := Some(Milestone(essence, []));
    }

    /** Registers callbacks for the proposed parents, in any order. */
    method AwaitParents()
      requires deliverState.Valid() && deliverState.milestone.None?
      modifies this`callbacks
      ensures Extends(committee.id, deliverState.MarshalBinary(), old(callbacks), callbacks)
      ensures forall b | Awaited(committee.id, deliverState.MarshalBinary(), b) :: b in callbacks
    {
      ghost var a := deliverState.MarshalBinary();
      var processed: set<Byte32> := {};
      var rest := deliverState.parentByIssuer.Keys;
      while rest != {}
        invariant rest <= deliverState.parentByIssuer.Keys
        invariant Extends(committee.id, a, old(callbacks), callbacks)
        invariant forall p | p in a.parentByIssuer && p !in rest :: a.parentByIssuer[p] in processed
        invariant forall b | b in processed :: b in callbacks || committee.id in ProofIssuers(a, b)
        decreases rest
      {
        var peerID :| peerID in rest;
        rest := rest - {peerID};
        var blockID := deliverState.parentByIssuer[peerID];
        if blockID in processed {
          continue;
        }
        processed := processed + {blockID};
        if blockID in deliverState.proofIssuersByBlockID
          && committee.id in deliverState.proofIssuersByBlockID[blockID].ids {
          continue;
        }
        if blockID !in callbacks {
          callbacks := callbacks[blockID := Callback(deliverState.state.milestoneIndex, peerID)];
        }
      }
    }

    /** Makes the essence, if enough parents are confirmed; then the callbacks are no longer relevant. */
    method TryEssence()
      requires Valid()
      modifies this`callbacks, deliverState`milestone
      ensures deliverState.MarshalBinary() ==
        Blocks.EndBlock(w, committee, old(deliverState.MarshalBinary()), deliverState.blockHeader)
      ensures callbacks ==
        if deliverState.milestone.Some? && old(deliverState.milestone).None? then map[] else old(callbacks)
    {
      hide Blocks.Valid, NoDuplicates, Sorting.Elements, Candidates, Counted, Confirmed, NewEssence, IssuersOf;
      if deliverState.milestone.None? {
        deliverState.Fields();
        ValidCounted(w, committee, deliverState.MarshalBinary());
        var weight, parents := CollectParents(committee, deliverState.MarshalBinary());
        if weight > committee.f {
          callbacks := map[];
          CreateMilestoneEssence(parents);
        }
      }
    }

    /** Registers callbacks, as long as there is no milestone. */
    method RegisterCallbacks()
      requires deliverState.Valid()
      modifies this`callbacks, this`registered
      ensures if deliverState.milestone.None? then
          && Extends(committee.id, deliverState.MarshalBinary(), old(callbacks), callbacks)
          && (forall b | Awaited(committee.id, deliverState.MarshalBinary(), b) :: b in callbacks)
          && registered == old(registered) + Added(epoch, old(callbacks), callbacks)
        else
          callbacks == old(callbacks) && registered == old(registered)
    {
      hide AppState.MarshalBinary, AppState.Valid, Extends, Awaited, Added;
      if deliverState.milestone.None? {
        AwaitParents();
        registered := registered + Added(epoch, old(callbacks), callbacks);
      }
    }

    method EndBlock()
      requires Valid()
      modifies this`callbacks, this`registered, deliverState`milestone
      ensures Valid()
      ensures Next(Self(), old(Abstract()), Call.EndBlock, Abstract())
    {
      hide Blocks.Valid, AppState.MarshalBinary, AppState.Valid, Blocks.EndBlock, Extends, Awaited, Added, Next,
        FitsLimits;
      ghost var s := Abstract();
      EndBlockValid(w, committee, deliverState.MarshalBinary(), deliverState.blockHeader);
      EndBlockSame(w, committee, deliverState.MarshalBinary(), deliverState.blockHeader);
      deliverState.Fields();
      TryEssence();
      deliverState.Fields();
      RegisterCallbacks();
      EndBlockParts(Self(), s, Abstract());
    }

    // ----- commit -----

    method BroadcastPartial()
      requires deliverState.milestone.Some?
      modifies this`submitted
      ensures submitted == old(submitted) + [Submission(Self(), Partial,
        PartialSignature(sign(w.essenceBytes(deliverState.milestone.value.essence))))]
    {
      var essence := w.essenceBytes(deliverState.milestone.value.essence);
      var partial := PartialSignature(sign(essence));
      var raw := MarshalTx(committee.id, sign, partial);
      submitted := submitted + [Broadcast(Partial, partial, raw)];
    }

    /** Adds the signatures to the milestone; it can be submitted without being refused. */
    method SignedMilestone() returns (ms: Milestone)
      requires Valid() && Complete(committee, deliverState.MarshalBinary())
      ensures ms == Completed(old(deliverState.MarshalBinary())) && Verifies(w, committee, ms)
    {
      hide Blocks.Valid, AppState.MarshalBinary, AppState.Valid, Verifies, SignatureList, Signed;
      var a := deliverState.MarshalBinary();
      CompletedVerifies(w, committee, a);
      ValidFacts(w, committee, a);
      SignedKeys(w, a);
      var signatures := CollectSignatures(a);
      ms := a.milestone.value.(signatures := signatures);
    }

    /** Finishes the milestone and starts over. */
    method FinishMilestone() returns (ms: Milestone)
      requires Valid() && Complete(committee, deliverState.MarshalBinary())
      modifies deliverState
      ensures Valid() && deliverState.Repr == {} && deliverState.blockHeader == old(deliverState.blockHeader)
      ensures ms == Completed(old(deliverState.MarshalBinary())) && Verifies(w, committee, ms)
      ensures deliverState.MarshalBinary() ==
        Fresh(NextState(w, old(deliverState.MarshalBinary()), deliverState.blockHeader.height))
    {
      hide Blocks.Valid, AppState.MarshalBinary, AppState.Valid, Verifies, Completed;
      deliverState.Fields();
      ms := SignedMilestone();
      var state := State(deliverState.blockHeader.height, NextUint32(deliverState.state.milestoneIndex),
                         w.milestoneID(ms), w.blockID(ms));
      deliverState.Reset(state);
      FreshValid(w, committee, state);
    }

    /** Broadcasts the own signature of an essence that still needs it. */
    method SignEssence()
      requires deliverState.Valid()
      modifies this`submitted
      ensures submitted == old(submitted) + OwnPartial(Self(), deliverState.MarshalBinary())
    {
      hide AppState.MarshalBinary, AppState.Valid, MarshalTx;
      deliverState.Fields();
      if deliverState.milestone.Some? && |deliverState.signaturesByIssuer| < committee.t
        && committee.id !in deliverState.signaturesByIssuer {
        BroadcastPartial();
      }
    }

    /** Makes the state of the blockchain the check state, and stores its height and hash. */
    method CommitStates()
      requires checkState != deliverState && deliverState.Valid()
      modifies checkState, cms
      ensures checkState.Valid() && fresh(checkState.Repr)
      ensures checkState.MarshalBinary() == old(deliverState.MarshalBinary())
      ensures cms.info == CommitInfo(deliverState.blockHeader.height, w.hash(old(deliverState.MarshalBinary())))
      ensures deliverState.MarshalBinary() == old(deliverState.MarshalBinary())
    {
      hide AppState.MarshalBinary, AppState.Valid;
      checkState.Copy(deliverState);
      cms.Commit(w, deliverState);
    }

    /** Signs a new milestone, finishes a complete one, and commits; `done` is what is submitted to the node. */
    method Commit() returns (done: Option<Milestone>)
      requires Valid()
      modifies this`submitted, this`epoch, checkState, deliverState, cms
      ensures Valid() && fresh(checkState.Repr) && deliverState.Repr <= old(deliverState.Repr)
      ensures done == if Complete(committee, old(deliverState.MarshalBinary()))
        then Some(Completed(old(deliverState.MarshalBinary()))) else None
      ensures done.Some? ==> Verifies(w, committee, done.value)
      ensures Next(Self(), old(Abstract()), Call.Commit, Abstract())
    {
      hide Blocks.Valid, AppState.MarshalBinary, AppState.Valid, Verifies, Completed, NextState, MarshalTx,
        OwnPartial, Next;
      ghost var s := Abstract();
      deliverState.Fields();
      SignEssence();
      done := None;
      if deliverState.milestone.Some? && |deliverState.signaturesByIssuer| >= committee.t {
        var ms := FinishMilestone();
        done := Some(ms);
        epoch := epoch + 1;
      }
      assert deliverState.MarshalBinary() ==
        Blocks.Commit(w, committee, old(deliverState.MarshalBinary()), deliverState.blockHeader);
      CommitStates();
      NextCases(Self(), s, Abstract());
    }

    // ----- callbacks -----

    /** A registered block became solid. */
    method ProcessParentOnSolid(ghost r: Registration, index: uint32, peerID: Byte32, meta: Meta)
      requires Apart()
      requires r in registered && r.callback == Callback(index, peerID) && r.block == meta.blockID
      modifies this`submitted
      ensures Next(Self(), old(Abstract()), BecameSolid(r, meta), Abstract())
      ensures submitted == old(submitted) +
        if meta.solid && meta.referencedByMilestoneIndex == 0 && !meta.shouldReattach && index != 0 then
          [Submission(Self(), Peer(peerID), Proof(index, meta.blockID))]
        else []
    {
      hide AppState.MarshalBinary, AppState.Valid, MarshalTx;
      if meta.referencedByMilestoneIndex == index {
        return;
      }
      if !ValidParent(meta) {
        return;
      }
      var proof := Proof(index, meta.blockID);
      var raw := MarshalTx(committee.id, sign, proof);
      submitted := submitted + [Broadcast(Peer(peerID), proof, raw)];
    }
  }

  /** A new coordinator, bootstrapped or resumed, satisfies the invariant of the machine; so everything that is
      proved of all runs of the machine holds of what its methods do from then on. */
  method Launch(w: World, committee: Committee, sign: seq<byte> -> seq<byte>,
                force: bool, index: uint32, milestoneID: Byte32, blockID: Byte32, latest: Latest)
    returns (c: Option<Coordinator>)
    requires committee.n > 0 && committee.f == MaxFaulty(committee.n)
    ensures c.Some? <==> FitsLimits(w, committee) && (force || Continues(w, latest, index, milestoneID, blockID))
    ensures c.Some? ==>
      && c.value.Valid() && c.value.Self() == Validator(w, committee, sign)
      && c.value.Abstract() == Start(w, State(0, index, milestoneID, blockID))
      && NodeInvariant(c.value.Self(), index, c.value.Abstract())
  {
    hide NodeInvariant, AppState.MarshalBinary, AppState.Valid, Blocks.Valid;
    c := Coordinator.New(w, committee, sign);
    if c.Some? {
      var ok := c.value.Bootstrap(force, index, milestoneID, blockID, latest);
      StartInvariant(c.value.Self(), State(0, index, milestoneID, blockID));
      if !ok {
        c := None;
      }
    }
  }

  lemma ValidCounted(w: World, c: Committee, a: App)
    requires Blocks.Valid(w, c, a)
    ensures Counted(c, a)
  {
  }

  lemma EndBlockSame(w: World, c: Committee, a: App, header: Header)
    ensures a.milestone.Some? || Blocks.EndBlock(w, c, a, header).milestone.None? ==>
      Blocks.EndBlock(w, c, a, header) == a
  {
    hide NewEssence, EnoughParents;
  }

  lemma SignedKeys(w: World, a: App)
    requires Signed(w, a)
    ensures forall p | p in a.signaturesByIssuer :: a.signaturesByIssuer[p].publicKey == p
  {
  }

  /** Without force, bootstrapping continues exactly from the state that follows the latest milestone, or from any one
      if there is none; and not at all if the node does not tell. */
  lemma ContinuesLatest(w: World, latest: Latest, index: uint32, milestoneID: Byte32, blockID: Byte32)
    ensures latest.Unavailable? ==> !Continues(w, latest, index, milestoneID, blockID)
    ensures latest.NoMilestone? ==> Continues(w, latest, index, milestoneID, blockID)
    ensures latest.Found? ==>
      (Continues(w, latest, index, milestoneID, blockID) <==>
       State(0, index, milestoneID, blockID) == StateAfter(w, Issue(latest.ms, 0)))
  {
  }

  /** So the first milestone of a chain that is bootstrapped without force follows the latest one: it has the next
      index, names its ID, and has its block among the parents. */
  lemma BootstrapLinks(w: World, c: Committee, ms: Milestone, index: uint32, milestoneID: Byte32, blockID: Byte32,
                       blocks: seq<Block>)
    requires FitsLimits(w, c) && Continues(w, Found(ms), index, milestoneID, blockID)
    requires Issues(w, c, Bootstrap(w, index, milestoneID, blockID), blocks) != []
    ensures var e := Issues(w, c, Bootstrap(w, index, milestoneID, blockID), blocks)[0].milestone.essence;
      && e.index == (ms.essence.index + 1) % TWO_32
      && e.previousMilestoneID == w.milestoneID(ms) && w.blockID(ms) in e.parents
  {
    hide Issues, Verifies, Blocks.Valid;
    var core := Bootstrap(w, index, milestoneID, blockID);
    var issues := Issues(w, c, core, blocks);
    ResetValid(w, c, core.app.state);
    MilestoneChain(w, c, core, blocks);
    assert issues[..0] == [];
    assert MadeFrom(w, LastState(w, core, issues[..0]), issues[0].milestone.essence);
  }
}
