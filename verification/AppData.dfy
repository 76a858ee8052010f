/** The replicated application state as a value, and what the three transactions do to it. */
module AppData {
  import opened ByteStrings
  import opened Wire
  import opened Codec
  import opened Committees

  /** The part of the state that a milestone carries over to the next one. */
  datatype State = State(
    milestoneHeight: int64, milestoneIndex: uint32, lastMilestoneID: Byte32, lastMilestoneBlockID: Byte32)

  datatype Essence = Essence(
    index: uint32, timestamp: uint32, protocolVersion: byte, previousMilestoneID: Byte32, parents: seq<Byte32>,
    inclusionMerkleRoot: Byte32, appliedMerkleRoot: Byte32, metadata: seq<byte>)

  datatype Signature = Signature(publicKey: Byte32, signature: seq<byte>)

  datatype Milestone = Milestone(essence: Essence, signatures: seq<Signature>)

  /** Everything of an AppState that is marshaled, hashed and copied. */
  datatype App = App(
    state: State,
    parentByIssuer: map<Byte32, Byte32>,
    issuerCountByParent: map<Byte32, int>,
    proofIssuersByBlockID: map<Byte32, set<Byte32>>,
    milestone: Option<Milestone>,
    signaturesByIssuer: map<Byte32, Signature>)

  /** The functions of other libraries and of the node: Ed25519 verification, the serialized milestone essence,
      the IDs of a milestone and of its block, the white-flag Merkle roots and the hash of the state; and the
      protocol version, the maximum number of parents of a block and of signatures of a milestone. */
  datatype World = World(
    verify: (Byte32, seq<byte>, seq<byte>) -> bool,
    essenceBytes: Essence -> seq<byte>,
    milestoneID: Milestone -> Byte32,
    blockID: Milestone -> Byte32,
    whiteFlag: (uint32, uint32, seq<Byte32>, Byte32) -> (Byte32, Byte32),
    hash: App -> Byte32,
    protocolVersion: byte,
    blockMaxParents: int,
    maxSignatures: int)

  /** The state right after a reset. */
  function Fresh(state: State): App {
    App(state, map[], map[], map[], None, map[])
  }

  // ----- metadata -----

  /** What a milestone says about the state it was made from: the height, and the last milestone block. */
  function Metadata(state: State): seq<byte> {
    LittleEndian(state.milestoneHeight % TWO_64, 8) + IDBytes(state.lastMilestoneBlockID)
  }

  function ToInt64(n: nat): int64
    requires n < TWO_64
  {
    if n < TWO_63 then n else n - TWO_64
  }

  /** Rebuilds the state from a milestone; None if its metadata does not have the right length. */
  function NewStateFromMilestone(e: Essence): Option<State> {
    if |e.metadata| != 40 then None
    else
      assert Pow256(8) == TWO_64;
      Some(State(ToInt64(FromLittleEndian(e.metadata[..8])), e.index, e.previousMilestoneID,
                 IDFromBytes(e.metadata[8..])))
  }

  /** A milestone made from a state gives that state back. */
  lemma MetadataRoundTrip(state: State, e: Essence)
    requires e.metadata == Metadata(state)
    requires e.index == state.milestoneIndex && e.previousMilestoneID == state.lastMilestoneID
    ensures NewStateFromMilestone(e) == Some(state)
  {
    hide LittleEndian, FromLittleEndian, IDBytes, IDFromBytes;
    assert Pow256(8) == TWO_64;
    LittleEndianRoundTrip(state.milestoneHeight % TWO_64, 8);
    IDRoundTrip(state.lastMilestoneBlockID);
    assert e.metadata[..8] == LittleEndian(state.milestoneHeight % TWO_64, 8);
    assert e.metadata[8..] == IDBytes(state.lastMilestoneBlockID);
  }

  /** Exactly the metadata that a state makes is accepted, and it gives that state back. */
  lemma MetadataIff(state: State, e: Essence)
    ensures NewStateFromMilestone(e) == Some(state) <==>
      && e.metadata == Metadata(state)
      && e.index == state.milestoneIndex && e.previousMilestoneID == state.lastMilestoneID
    ensures NewStateFromMilestone(e).Some? <==> |e.metadata| == 40
  {
    hide Metadata;
    if NewStateFromMilestone(e) == Some(state) {
      MetadataOf(state, e);
    } else if e.metadata == Metadata(state) && e.index == state.milestoneIndex
      && e.previousMilestoneID == state.lastMilestoneID {
      MetadataRoundTrip(state, e);
    }
  }

  lemma MetadataOf(state: State, e: Essence)
    requires NewStateFromMilestone(e) == Some(state)
    ensures e.metadata == Metadata(state)
  {
    hide LittleEndian, FromLittleEndian, IDBytes, IDFromBytes, ToInt64;
    assert Pow256(8) == TWO_64;
    ToInt64Modulo(FromLittleEndian(e.metadata[..8]));
    FromLittleEndianRoundTrip(e.metadata[..8]);
    BytesRoundTrip(e.metadata[8..]);
    assert e.metadata == e.metadata[..8] + e.metadata[8..];
  }

  lemma ToInt64Modulo(n: nat)
    requires n < TWO_64
    ensures ToInt64(n) % TWO_64 == n
  {
  }

  /** Byte for byte: the height in little-endian order, in two's complement, then the ID in big-endian order. */
  lemma MetadataLayout(state: State, i: nat)
    requires i < 40
    ensures |Metadata(state)| == 40
    ensures Metadata(state)[i] ==
      if i < 8 then state.milestoneHeight % TWO_64 / Pow256(i) % 256
      else state.lastMilestoneBlockID / Pow256(39 - i) % 256
  {
    hide LittleEndian, BigEndian;
    if i < 8 {
      LittleEndianAt(state.milestoneHeight % TWO_64, 8, i);
    } else {
      BigEndianAt(state.lastMilestoneBlockID, 32, i - 8);
    }
  }

  // ----- transactions -----

  datatype Applied = Done(app: App) | InvalidState | Replayed | BadSignature

  function Count(a: App, b: Byte32): int {
    if b in a.issuerCountByParent then a.issuerCountByParent[b] else 0
  }

  function ProofIssuers(a: App, b: Byte32): set<Byte32> {
    if b in a.proofIssuersByBlockID then a.proofIssuersByBlockID[b] else {}
  }

  function AddParent(a: App, issuer: Byte32, blockID: Byte32): App {
    a.(parentByIssuer := a.parentByIssuer[issuer := blockID],
       issuerCountByParent := a.issuerCountByParent[blockID := Count(a, blockID) + 1])
  }

  function AddProof(a: App, issuer: Byte32, parent: Byte32): App {
    a.(proofIssuersByBlockID := a.proofIssuersByBlockID[parent := ProofIssuers(a, parent) + {issuer}])
  }

  function Apply(w: World, a: App, issuer: Byte32, tx: Tx): Applied {
    match tx
    case Parent(index, blockID) =>
      if index != a.state.milestoneIndex || a.milestone.Some? then InvalidState
      else if issuer in a.parentByIssuer then Replayed
      else Done(AddParent(a, issuer, blockID))
    case Proof(index, parent) =>
      if index != a.state.milestoneIndex || a.milestone.Some? then InvalidState
      else if Count(a, parent) < 1 then InvalidState
      else if issuer in ProofIssuers(a, parent) then Replayed
      else Done(AddProof(a, issuer, parent))
    case PartialSignature(signature) =>
      if a.milestone.None? then InvalidState
      else if issuer in a.signaturesByIssuer then Replayed
      else if !w.verify(issuer, w.essenceBytes(a.milestone.value.essence), signature) then BadSignature
      else Done(a.(signaturesByIssuer := a.signaturesByIssuer[issuer := Signature(issuer, signature)]))
  }

  /** The ABCI codes. */
  datatype Code = OK | SizeError | SyntaxError | StateError | Panics

  /** What CheckTx and DeliverTx report, and what they do to their state. */
  function Deliver(w: World, c: Committee, a: App, raw: seq<byte>): (Code, App) {
    if |raw| > MAX_TX_BYTES then (SizeError, a)
    else
      match UnmarshalTx(c.members(a.state.milestoneIndex), w.verify, raw)
      case Ok(issuer, tx) =>
        (match Apply(w, a, issuer, tx)
         case Done(a') => (OK, a')
         case _ => (StateError, a))
      case Panic => (Panics, a)
      case _ => (Code.SyntaxError, a)
  }

  /** An encoding that the decoder panics on. */
  predicate Stops(raw: seq<byte>) {
    |raw| <= MAX_TX_BYTES && Decode(raw).Some? && |LastBytes(Decode(raw).value, 2, [])| != 32
  }

  /** Whether a transaction panics depends on its bytes alone. */
  lemma DeliverPanics(w: World, c: Committee, a: App, raw: seq<byte>)
    ensures Deliver(w, c, a, raw).0 == Panics <==> Stops(raw)
  {
    hide UnmarshalTx, Apply, Decode, LastBytes;
    PanicCondition(c.members(a.state.milestoneIndex), w.verify, raw);
  }

  /** Each code says exactly what is wrong with the transaction; and it is accepted if and only if it changes the
      state, so that none is accepted twice. */
  lemma DeliverCodes(w: World, c: Committee, a: App, raw: seq<byte>)
    ensures var (code, a') := Deliver(w, c, a, raw);
      var u := UnmarshalTx(c.members(a.state.milestoneIndex), w.verify, raw);
      && (code == OK <==> a' != a)
      && (code == SizeError <==> |raw| > 170)
      && (code == Panics <==> Stops(raw))
      && (code == Code.SyntaxError <==> |raw| <= 170 && !Stops(raw) && !u.Ok?)
      && (code == StateError <==> |raw| <= 170 && u.Ok? && !Apply(w, a, u.issuer, u.tx).Done?)
  {
    hide UnmarshalTx, Apply, Stops;
    var u := UnmarshalTx(c.members(a.state.milestoneIndex), w.verify, raw);
    DeliverPanics(w, c, a, raw);
    if u.Ok? && Apply(w, a, u.issuer, u.tx).Done? {
      AppliedIsNew(w, a, u.issuer, u.tx);
    }
  }

  /** What a transaction records is not there before, and is there afterwards. */
  lemma AppliedIsNew(w: World, a: App, issuer: Byte32, tx: Tx)
    requires Apply(w, a, issuer, tx).Done?
    ensures Apply(w, a, issuer, tx).app != a
  {
    var a' := Apply(w, a, issuer, tx).app;
    match tx
    case Parent(_, _) => assert issuer in a'.parentByIssuer && issuer !in a.parentByIssuer;
    case Proof(_, b) => assert issuer in ProofIssuers(a', b) && issuer !in ProofIssuers(a, b);
    case PartialSignature(_) => assert issuer in a'.signaturesByIssuer && issuer !in a.signaturesByIssuer;
  }

  /** So no transaction is accepted a second time. */
  lemma DeliverOnce(w: World, c: Committee, a: App, raw: seq<byte>)
    ensures Deliver(w, c, Deliver(w, c, a, raw).1, raw).0 != OK
  {
    hide UnmarshalTx, Apply;
    var u := UnmarshalTx(c.members(a.state.milestoneIndex), w.verify, raw);
    if u.Ok? && Apply(w, a, u.issuer, u.tx).Done? {
      ApplyOnce(w, a, u.issuer, u.tx);
    }
  }

  lemma ApplyOnce(w: World, a: App, issuer: Byte32, tx: Tx)
    requires Apply(w, a, issuer, tx).Done?
    ensures var a' := Apply(w, a, issuer, tx).app;
      a'.state == a.state && !Apply(w, a', issuer, tx).Done?
  {
  }

  /** Whether the state is one that the transaction is for: proposals and proofs are for the current index, as long as
      there is no essence, and only what somebody proposed is proved; signatures are for an essence. */
  ghost predicate IsInPlace(a: App, tx: Tx) {
    match tx
    case Parent(index, _) => index == a.state.milestoneIndex && a.milestone.None?
    case Proof(index, parent) =>
      index == a.state.milestoneIndex && a.milestone.None? && parent in a.parentByIssuer.Values
    case PartialSignature(_) => a.milestone.Some?
  }

  /** Each member proposes, proves a block, and signs only once. */
  ghost predicate IsRepeated(a: App, issuer: Byte32, tx: Tx) {
    match tx
    case Parent(_, _) => issuer in a.parentByIssuer.Keys
    case Proof(_, parent) => issuer in ProofIssuers(a, parent)
    case PartialSignature(_) => issuer in a.signaturesByIssuer.Keys
  }

  /** Whether the transaction is a signature of something else. */
  ghost predicate IsForged(w: World, a: App, issuer: Byte32, tx: Tx)
    requires IsInPlace(a, tx)
  {
    tx.PartialSignature? && !w.verify(issuer, w.essenceBytes(a.milestone.value.essence), tx.signature)
  }

  /** Whether the state has a use for the transaction. */
  ghost predicate IsUseful(w: World, a: App, issuer: Byte32, tx: Tx) {
    IsInPlace(a, tx) && !IsRepeated(a, issuer, tx) && !IsForged(w, a, issuer, tx)
  }

  // ----- the invariant -----

  /** Those whose proposed parent is one of `s`. */
  ghost function IssuersOf(a: App, s: set<Byte32>): set<Byte32> {
    set p | p in a.parentByIssuer && a.parentByIssuer[p] in s
  }

  /** The index of the issuers is exact, and nothing is recorded but for members of the committee. */
  ghost predicate Counted(c: Committee, a: App) {
    var members := c.members(a.state.milestoneIndex);
    && (forall b :: Count(a, b) == |IssuersOf(a, {b})|)
    && (forall b | b in a.issuerCountByParent :: Count(a, b) > 0)
    && (forall b | b in a.proofIssuersByBlockID ::
          Count(a, b) > 0 && ProofIssuers(a, b) != {} && ProofIssuers(a, b) <= members)
    && a.parentByIssuer.Keys <= members
    && a.signaturesByIssuer.Keys <= members
  }

  /** Signatures are only kept for a milestone, one per issuer, and each of them is valid. */
  ghost predicate Signed(w: World, a: App) {
    && (a.milestone.None? ==> a.signaturesByIssuer == map[])
    && (forall p | p in a.signaturesByIssuer ::
          && a.milestone.Some? && a.signaturesByIssuer[p].publicKey == p
          && w.verify(p, w.essenceBytes(a.milestone.value.essence), a.signaturesByIssuer[p].signature))
    && (a.milestone.Some? ==> a.milestone.value.signatures == [])
  }

  /** A transaction of a member is applied if and only if it is useful; each of the errors has its reason. */
  lemma AppliedIffUseful(c: Committee, w: World, a: App, issuer: Byte32, tx: Tx)
    requires Counted(c, a)
    ensures var r := Apply(w, a, issuer, tx);
      && (r.Done? <==> IsUseful(w, a, issuer, tx))
      && (r.InvalidState? <==> !IsInPlace(a, tx))
      && (r.Replayed? <==> IsInPlace(a, tx) && IsRepeated(a, issuer, tx))
      && (r.BadSignature? <==> IsInPlace(a, tx) && !IsRepeated(a, issuer, tx) && IsForged(w, a, issuer, tx))
  {
    hide Counted;
    if tx.Proof? {
      ProposedIffCounted(c, a, tx.parent);
    }
  }

  /** And then it records just what it says, and nothing is overwritten. */
  lemma AppliedRecords(w: World, a: App, issuer: Byte32, tx: Tx)
    requires Apply(w, a, issuer, tx).Done?
    ensures var a' := Apply(w, a, issuer, tx).app;
      && a'.state == a.state && a'.milestone == a.milestone
      && a'.parentByIssuer == (if tx.Parent? then a.parentByIssuer[issuer := tx.blockID] else a.parentByIssuer)
      && (forall b :: ProofIssuers(a', b) ==
            ProofIssuers(a, b) + if tx.Proof? && tx.parent == b then {issuer} else {})
      && a'.signaturesByIssuer == (if tx.PartialSignature? then
           a.signaturesByIssuer[issuer := Signature(issuer, tx.signature)] else a.signaturesByIssuer)
  {
  }

  lemma ProposedIffCounted(c: Committee, a: App, b: Byte32)
    requires Counted(c, a)
    ensures b in a.parentByIssuer.Values <==> Count(a, b) >= 1
  {
    if p :| p in a.parentByIssuer && a.parentByIssuer[p] == b {
      assert p in IssuersOf(a, {b});
    } else {
      assert IssuersOf(a, {b}) == {};
    }
  }

  lemma FreshCounted(c: Committee, w: World, state: State)
    ensures Counted(c, Fresh(state)) && Signed(w, Fresh(state))
  {
    forall b ensures IssuersOf(Fresh(state), {b}) == {} {
    }
  }

  lemma ParentCount(a: App, issuer: Byte32, blockID: Byte32, b: Byte32)
    requires Count(a, b) == |IssuersOf(a, {b})| && issuer !in a.parentByIssuer
    ensures Count(AddParent(a, issuer, blockID), b) == |IssuersOf(AddParent(a, issuer, blockID), {b})|
  {
    var a' := AddParent(a, issuer, blockID);
    assert IssuersOf(a', {b}) == IssuersOf(a, {b}) + (if b == blockID then {issuer} else {});
  }

  lemma ParentCounted(c: Committee, w: World, a: App, issuer: Byte32, blockID: Byte32)
    requires Counted(c, a) && issuer in c.members(a.state.milestoneIndex) && issuer !in a.parentByIssuer
    ensures Counted(c, AddParent(a, issuer, blockID))
  {
    hide IssuersOf;
    var a' := AddParent(a, issuer, blockID);
    forall b ensures Count(a', b) == |IssuersOf(a', {b})| {
      ParentCount(a, issuer, blockID, b);
    }
    assert Count(a, blockID) >= 0;
  }

  /** Every transaction of a member keeps the invariant, and leaves the carried-over state alone. */
  lemma ApplyKeeps(c: Committee, w: World, a: App, issuer: Byte32, tx: Tx)
    requires Counted(c, a) && Signed(w, a) && issuer in c.members(a.state.milestoneIndex)
    requires Apply(w, a, issuer, tx).Done?
    ensures var a' := Apply(w, a, issuer, tx).app;
      Counted(c, a') && Signed(w, a') && a'.state == a.state && a'.milestone == a.milestone
  {
    hide Counted;
    match tx
    case Parent(_, blockID) => ParentCounted(c, w, a, issuer, blockID);
    case Proof(_, parent) => ProofCounted(c, w, a, issuer, parent);
    case PartialSignature(signature) => SignatureCounted(c, a, issuer, Signature(issuer, signature));
  }

  lemma ProofCounted(c: Committee, w: World, a: App, issuer: Byte32, parent: Byte32)
    requires Counted(c, a) && issuer in c.members(a.state.milestoneIndex) && Count(a, parent) > 0
    ensures Counted(c, AddProof(a, issuer, parent))
  {
    var a' := AddProof(a, issuer, parent);
    forall b ensures Count(a', b) == Count(a, b) && IssuersOf(a', {b}) == IssuersOf(a, {b}) {
    }
  }

  lemma SignatureCounted(c: Committee, a: App, issuer: Byte32, s: Signature)
    requires Counted(c, a) && issuer in c.members(a.state.milestoneIndex)
    ensures Counted(c, a.(signaturesByIssuer := a.signaturesByIssuer[issuer := s]))
  {
    var a' := a.(signaturesByIssuer := a.signaturesByIssuer[issuer := s]);
    forall b ensures Count(a', b) == Count(a, b) && IssuersOf(a', {b}) == IssuersOf(a, {b}) {
    }
  }

  lemma DeliverKeeps(c: Committee, w: World, a: App, raw: seq<byte>)
    requires Counted(c, a) && Signed(w, a)
    ensures var a' := Deliver(w, c, a, raw).1;
      Counted(c, a') && Signed(w, a') && a'.state == a.state && a'.milestone == a.milestone
  {
    hide Counted, Signed, Apply;
    var u := UnmarshalTx(c.members(a.state.milestoneIndex), w.verify, raw);
    if u.Ok? && Apply(w, a, u.issuer, u.tx).Done? {
      ApplyKeeps(c, w, a, u.issuer, u.tx);
    }
  }

  // ----- counting -----

  /** Disjoint sets of issuers: the issuers of several blocks are at least as many as the blocks. */
  lemma {:induction false} BlocksHaveIssuers(c: Committee, a: App, s: set<Byte32>)
    requires Counted(c, a) && forall b | b in s :: Count(a, b) > 0
    ensures |IssuersOf(a, s)| >= |s|
  {
    if s != {} {
      var b :| b in s;
      BlocksHaveIssuers(c, a, s - {b});
      assert IssuersOf(a, s) == IssuersOf(a, s - {b}) + IssuersOf(a, {b});
    }
  }

  /** The issuers of a block and of other blocks are different. */
  lemma IssuersSplit(a: App, s: set<Byte32>, b: Byte32)
    requires b !in s
    ensures |IssuersOf(a, s + {b})| == |IssuersOf(a, s)| + |IssuersOf(a, {b})|
  {
    assert IssuersOf(a, s + {b}) == IssuersOf(a, s) + IssuersOf(a, {b});
  }
}
