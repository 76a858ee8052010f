/** The application state as an object that the transactions update in place, and the store of the last commit. */
module AppStates {
  import opened ByteStrings
  import opened Codec
  import opened AppData
  import opened Blocks

  datatype TxError = NoError | ErrInvalidState | ErrReplayed | ErrInvalidSignature

  /** What the error and the new value must be. */
  ghost predicate Outcome(r: Applied, err: TxError, before: App, after: App) {
    match r
    case Done(a) => err.NoError? && after == a
    case InvalidState => err.ErrInvalidState? && after == before
    case Replayed => err.ErrReplayed? && after == before
    case BadSignature => err.ErrInvalidSignature? && after == before
  }

  /** A set of issuers that is updated in place. */
  class Issuers {
    var ids: set<Byte32>

    constructor (ids: set<Byte32>)
      ensures this.ids == ids
    {
      this.ids := ids;
    }
  }

  ghost function Objects(proofs: map<Byte32, Issuers>): set<Issuers> {
    set b | b in proofs :: proofs[b]
  }

  /** Different blocks have different sets. */
  ghost predicate Separate(proofs: map<Byte32, Issuers>) {
    forall b, b' | b in proofs && b' in proofs && b != b' :: proofs[b] != proofs[b']
  }

  /** The contents of the sets. */
  function Contents(proofs: map<Byte32, Issuers>): (r: map<Byte32, set<Byte32>>)
    reads Objects(proofs)
    ensures r.Keys == proofs.Keys && forall b | b in proofs :: r[b] == proofs[b].ids
  {
    map b | b in proofs :: proofs[b].ids
  }

  /** Two values with the same parts are the same. */
  lemma SameApp(a: App, b: App)
    requires a.state == b.state && a.parentByIssuer == b.parentByIssuer
    requires a.issuerCountByParent == b.issuerCountByParent && a.proofIssuersByBlockID == b.proofIssuersByBlockID
    requires a.milestone == b.milestone && a.signaturesByIssuer == b.signaturesByIssuer
    ensures a == b
  {
  }

  lemma AddParentParts(a: App, issuer: Byte32, blockID: Byte32, count: int)
    requires count == if blockID in a.issuerCountByParent then a.issuerCountByParent[blockID] else 0
    ensures AddParent(a, issuer, blockID).state == a.state
    ensures AddParent(a, issuer, blockID).parentByIssuer == a.parentByIssuer[issuer := blockID]
    ensures AddParent(a, issuer, blockID).issuerCountByParent == a.issuerCountByParent[blockID := count + 1]
    ensures AddParent(a, issuer, blockID).proofIssuersByBlockID == a.proofIssuersByBlockID
    ensures AddParent(a, issuer, blockID).milestone == a.milestone
    ensures AddParent(a, issuer, blockID).signaturesByIssuer == a.signaturesByIssuer
  {
  }

  class AppState {
    /** the header from BeginBlock; only part of the context, not of the state */
    var blockHeader: Header
    var state: State
    var parentByIssuer: map<Byte32, Byte32>
    var issuerCountByParent: map<Byte32, int>
    var proofIssuersByBlockID: map<Byte32, Issuers>
    var milestone: Option<Milestone>
    var signaturesByIssuer: map<Byte32, Signature>

    /** the sets that belong to this state */
    ghost var Repr: set<Issuers>

    ghost predicate Valid()
      reads this`proofIssuersByBlockID, this`Repr
    {
      Separate(proofIssuersByBlockID) && Objects(proofIssuersByBlockID) == Repr
    }

    constructor (state: State)
      ensures Valid() && Repr == {}
      ensures MarshalBinary() == Fresh(state) && blockHeader == NO_HEADER
    {
      blockHeader := NO_HEADER;
      this.state := state;
      parentByIssuer, issuerCountByParent, proofIssuersByBlockID := map[], map[], map[];
      milestone, signaturesByIssuer, Repr := None, map[], {};
    }

    /** The value that is hashed and copied. */
    function MarshalBinary(): App
      requires Valid()
      reads this`state, this`parentByIssuer, this`issuerCountByParent, this`milestone, this`signaturesByIssuer
      reads this`proofIssuersByBlockID, this`Repr, Repr
    {
      App(state, parentByIssuer, issuerCountByParent, Contents(proofIssuersByBlockID), milestone, signaturesByIssuer)
    }

    /** Which parts of the value are which fields. */
    lemma Fields()
      requires Valid()
      ensures var a := MarshalBinary();
        && a.state == state && a.parentByIssuer == parentByIssuer && a.issuerCountByParent == issuerCountByParent
        && a.milestone == milestone && a.signaturesByIssuer == signaturesByIssuer
        && a.proofIssuersByBlockID == Contents(proofIssuersByBlockID)
        && a.proofIssuersByBlockID.Keys == proofIssuersByBlockID.Keys
        && forall b | b in proofIssuersByBlockID :: a.proofIssuersByBlockID[b] == proofIssuersByBlockID[b].ids
    {
    }

    method UnmarshalBinary(data: App)
      modifies this
      ensures Valid() && fresh(Repr)
      ensures MarshalBinary() == data && blockHeader == old(blockHeader)
    {
      hide Contents, Separate, Objects, MarshalBinary, Valid;
      state, parentByIssuer, issuerCountByParent := data.state, data.parentByIssuer, data.issuerCountByParent;
      milestone, signaturesByIssuer := data.milestone, data.signaturesByIssuer;
      var proofs := NewIssuers(data.proofIssuersByBlockID);
      Own(proofs);
      Fields();
      SameApp(MarshalBinary(), data);
    }

    /** Makes the sets the ones of this state. */
    method Own(proofs: map<Byte32, Issuers>)
      requires Separate(proofs)
      modifies this`proofIssuersByBlockID, this`Repr
      ensures Valid() && proofIssuersByBlockID == proofs && Repr == Objects(proofs)
      ensures Contents(proofs) == old(Contents(proofs))
    {
      hide Contents, Separate, Objects;
      proofIssuersByBlockID, Repr := proofs, Objects(proofs);
    }

    method Reset(state: State)
      modifies this
      ensures Valid() && Repr == {}
      ensures MarshalBinary() == Fresh(state) && blockHeader == old(blockHeader)
    {
      this.state := state;
      parentByIssuer, issuerCountByParent, proofIssuersByBlockID := map[], map[], map[];
      milestone, signaturesByIssuer, Repr := None, map[], {};
    }

    /** A deep copy: nothing that can change is shared with `o`. */
    method Copy(o: AppState)
      requires o.Valid()
      modifies this
      ensures Valid() && fresh(Repr)
      ensures MarshalBinary() == old(o.MarshalBinary()) && blockHeader == old(blockHeader)
    {
      var data := o.MarshalBinary();
      Reset(o.state);
      UnmarshalBinary(data);
    }

    method Hash(w: World) returns (hash: Byte32)
      requires Valid()
      ensures hash == w.hash(old(MarshalBinary()))
    {
      hash := w.hash(MarshalBinary());
    }

    method ApplyParent(w: World, issuer: Byte32, index: uint32, blockID: Byte32) returns (err: TxError)
      requires Valid()
      modifies this
      ensures Valid() && Repr == old(Repr)
      ensures Outcome(Apply(w, old(MarshalBinary()), issuer, Parent(index, blockID)), err,
                      old(MarshalBinary()), MarshalBinary())
      ensures blockHeader == old(blockHeader)
    {
      hide MarshalBinary, AddParent;
      Fields();
      if index != state.milestoneIndex {
        return ErrInvalidState;
      }
      if milestone.Some? {
        return ErrInvalidState;
      }
      if issuer in parentByIssuer {
        return ErrReplayed;
      }
      CountParent(issuer, blockID);
      err := NoError;
    }

    method CountParent(issuer: Byte32, blockID: Byte32)
      requires Valid()
      modifies this`parentByIssuer, this`issuerCountByParent
      ensures MarshalBinary() == AddParent(old(MarshalBinary()), issuer, blockID)
    {
      hide MarshalBinary, Contents, AddParent;
      ghost var a := MarshalBinary();
      Fields();
      parentByIssuer := parentByIssuer[issuer := blockID];
      var count := if blockID in issuerCountByParent then issuerCountByParent[blockID] else 0;
      issuerCountByParent := issuerCountByParent[blockID := count + 1];
      Fields();
      AddParentParts(a, issuer, blockID, count);
      SameApp(MarshalBinary(), AddParent(a, issuer, blockID));
    }

    method ApplyProof(w: World, issuer: Byte32, index: uint32, parent: Byte32) returns (err: TxError)
      requires Valid()
      modifies this, Repr
      ensures Valid() && fresh(Repr - old(Repr))
      ensures Outcome(Apply(w, old(MarshalBinary()), issuer, Proof(index, parent)), err,
                      old(MarshalBinary()), MarshalBinary())
      ensures blockHeader == old(blockHeader)
    {
      if index != state.milestoneIndex {
        return ErrInvalidState;
      }
      if milestone.Some? {
        return ErrInvalidState;
      }
      if parent !in issuerCountByParent || issuerCountByParent[parent] < 1 {
        return ErrInvalidState;
      }
      if parent in proofIssuersByBlockID && issuer in proofIssuersByBlockID[parent].ids {
        return ErrReplayed;
      }
      AddProofIssuer(parent, issuer);
      err := NoError;
    }

    method AddProofIssuer(parent: Byte32, issuer: Byte32)
      requires Valid()
      modifies this`proofIssuersByBlockID, this`Repr, Repr
      ensures Valid() && fresh(Repr - old(Repr))
      ensures MarshalBinary() == AddProof(old(MarshalBinary()), issuer, parent)
    {
      hide Valid, MarshalBinary;
      Fields();
      if parent !in proofIssuersByBlockID {
        AddBlock(parent);
      }
      AddIssuer(parent, issuer);
    }

    /** Adds an empty set for a block that has none. */
    method AddBlock(parent: Byte32)
      requires Valid() && parent !in proofIssuersByBlockID
      modifies this`proofIssuersByBlockID, this`Repr
      ensures Valid() && fresh(Repr - old(Repr)) && parent in proofIssuersByBlockID
      ensures var a := old(MarshalBinary());
        MarshalBinary() == a.(proofIssuersByBlockID := a.proofIssuersByBlockID[parent := {}])
    {
      ghost var before := Contents(proofIssuersByBlockID);
      var none := new Issuers({});
      ObjectsAdd(proofIssuersByBlockID, parent, none);
      proofIssuersByBlockID := proofIssuersByBlockID[parent := none];
      Repr := Objects(proofIssuersByBlockID);
      assert Contents(proofIssuersByBlockID) == before[parent := {}];
    }

    method AddIssuer(parent: Byte32, issuer: Byte32)
      requires Valid() && parent in proofIssuersByBlockID
      modifies Repr
      ensures Valid()
      ensures MarshalBinary() == AddProof(old(MarshalBinary()), issuer, parent)
    {
      ghost var before := Contents(proofIssuersByBlockID);
      var proofs := proofIssuersByBlockID[parent];
      proofs.ids := proofs.ids + {issuer};
      assert Contents(proofIssuersByBlockID) == before[parent := before[parent] + {issuer}];
    }

    method ApplyPartialSignature(w: World, issuer: Byte32, signature: seq<byte>) returns (err: TxError)
      requires Valid()
      modifies this
      ensures Valid() && Repr == old(Repr)
      ensures Outcome(Apply(w, old(MarshalBinary()), issuer, PartialSignature(signature)), err,
                      old(MarshalBinary()), MarshalBinary())
      ensures blockHeader == old(blockHeader)
    {
      hide Contents;
      if milestone.None? {
        return ErrInvalidState;
      }
      if issuer in signaturesByIssuer {
        return ErrReplayed;
      }
      var essence := w.essenceBytes(milestone.value.essence);
      if !w.verify(issuer, essence, signature) {
        return ErrInvalidSignature;
      }
      signaturesByIssuer := signaturesByIssuer[issuer := Signature(issuer, signature)];
      err := NoError;
    }

    method ApplyTx(w: World, issuer: Byte32, tx: Tx) returns (err: TxError)
      requires Valid()
      modifies this, Repr
      ensures Valid() && fresh(Repr - old(Repr))
      ensures Outcome(Apply(w, old(MarshalBinary()), issuer, tx), err, old(MarshalBinary()), MarshalBinary())
      ensures blockHeader == old(blockHeader)
    {
      hide Contents, Apply;
      match tx
      case Parent(index, blockID) => err := ApplyParent(w, issuer, index, blockID);
      case Proof(index, parent) => err := ApplyProof(w, issuer, index, parent);
      case PartialSignature(signature) => err := ApplyPartialSignature(w, issuer, signature);
    }
  }

  lemma ObjectsAdd(proofs: map<Byte32, Issuers>, b: Byte32, issuers: Issuers)
    requires Separate(proofs) && issuers !in Objects(proofs)
    ensures Separate(proofs[b := issuers]) && Objects(proofs[b := issuers]) <= Objects(proofs) + {issuers}
  {
    assert forall b' | b' in proofs :: proofs[b'] in Objects(proofs);
  }

  /** New sets with the given contents. */
  method NewIssuers(contents: map<Byte32, set<Byte32>>) returns (proofs: map<Byte32, Issuers>)
    ensures Contents(proofs) == contents && Separate(proofs) && fresh(Objects(proofs))
  {
    proofs := map[];
    var rest := contents.Keys;
    while rest != {}
      invariant rest <= contents.Keys && proofs.Keys == contents.Keys - rest
      invariant Separate(proofs) && fresh(Objects(proofs))
      invariant forall b | b in proofs :: proofs[b].ids == contents[b]
      decreases rest
    {
      var b :| b in rest;
      var issuers := new Issuers(contents[b]);
      ObjectsAdd(proofs, b, issuers);
      proofs := proofs[b := issuers];
      rest := rest - {b};
    }
  }

  class CommitStore {
    var info: CommitInfo

    constructor (info: CommitInfo)
      ensures this.info == info
    {
      this.info := info;
    }

    /** A block must have the height after the last committed one. */
    method ValidateHeight(height: int64) returns (ok: bool)
      ensures ok <==> height == NextInt64(info.height)
    {
      ok := height == NextInt64(info.height);
    }

    method Commit(w: World, state: AppState)
      requires state.Valid()
      modifies this
      ensures info == CommitInfo(state.blockHeader.height, w.hash(old(state.MarshalBinary())))
    {
      var hash := state.Hash(w);
      info := CommitInfo(state.blockHeader.height, hash);
    }
  }
}
