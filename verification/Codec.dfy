/** The Tendermint transactions of the coordinator and their wire format. */
module Codec {
  import opened ByteStrings
  import opened Wire

  const MAX_TX_BYTES := 170
  const SIGNATURE_SIZE := 64

  datatype Tx =
    | Parent(index: uint32, blockID: Byte32)
    | Proof(index: uint32, parent: Byte32)
    | PartialSignature(signature: seq<byte>)

  /** What UnmarshalTx reports; Panic stands for the run-time panic on a key that is not 32 bytes long. */
  datatype Unmarshaled =
    | Ok(issuer: Byte32, tx: Tx)
    | SyntaxError
    | NonApplicablePublicKey
    | InvalidSignature
    | InvalidBlockID
    | Panic

  function IDBytes(id: Byte32): (b: seq<byte>)
    ensures |b| == 32
  {
    BigEndian(id, 32)
  }

  function IDFromBytes(b: seq<byte>): (id: Byte32)
    requires |b| == 32
  {
    FromBigEndian(b)
  }

  // ----- encoding: proto3 leaves out zero numbers and empty byte strings -----

  function UintField(number: nat, v: uint32): seq<Field> {
    if v == 0 then [] else [Field(number, Varint(v))]
  }

  function BytesField(number: nat, raw: seq<byte>): seq<Field> {
    if raw == [] then [] else [Field(number, Record(raw))]
  }

  /** The field number that the oneof gives to the kind of `tx`. */
  function Kind(tx: Tx): nat {
    match tx
    case Parent(_, _) => 1
    case Proof(_, _) => 2
    case PartialSignature(_) => 3
  }

  function MessageFields(tx: Tx): seq<Field> {
    match tx
    case Parent(index, blockID) => UintField(1, index) + BytesField(2, IDBytes(blockID))
    case Proof(index, parent) => UintField(1, index) + BytesField(2, IDBytes(parent))
    case PartialSignature(signature) => BytesField(1, signature)
  }

  function MarshalEssence(tx: Tx): seq<byte> {
    Encode([Field(Kind(tx), Record(Encode(MessageFields(tx))))])
  }

  function RawFields(essence: seq<byte>, publicKey: seq<byte>, signature: seq<byte>): seq<Field> {
    BytesField(1, essence) + BytesField(2, publicKey) + BytesField(3, signature)
  }

  function MarshalTx(id: Byte32, sign: seq<byte> -> seq<byte>, tx: Tx): seq<byte> {
    var essence := MarshalEssence(tx);
    Encode(RawFields(essence, IDBytes(id), sign(essence)))
  }

  // ----- decoding: the last occurrence of a field wins, other fields are skipped -----

  function LastBytes(fields: seq<Field>, number: nat, start: seq<byte>): seq<byte> {
    if fields == [] then start
    else
      var f := fields[|fields| - 1];
      if f.number == number && f.value.Record? then f.value.raw
      else LastBytes(fields[..|fields| - 1], number, start)
  }

  function LastUint(fields: seq<Field>, number: nat, start: uint32): uint32 {
    if fields == [] then start
    else
      var f := fields[|fields| - 1];
      if f.number == number && f.value.Varint? then ToUint32(f.value.v)
      else LastUint(fields[..|fields| - 1], number, start)
  }

  /** The message of the oneof, with its block ID not yet checked. */
  datatype Message =
    | NoMessage
    | ParentMessage(index: uint32, blockID: seq<byte>)
    | ProofMessage(index: uint32, blockID: seq<byte>)
    | PartialMessage(signature: seq<byte>)

  /** Reads one record of the oneof; a record of the kind already read is merged into it. */
  function MergeMessage(before: Message, kind: nat, fields: seq<Field>): Message {
    if kind == 1 then
      var (index, id) := if before.ParentMessage? then (before.index, before.blockID) else (0, []);
      ParentMessage(LastUint(fields, 1, index), LastBytes(fields, 2, id))
    else if kind == 2 then
      var (index, id) := if before.ProofMessage? then (before.index, before.blockID) else (0, []);
      ProofMessage(LastUint(fields, 1, index), LastBytes(fields, 2, id))
    else
      PartialMessage(LastBytes(fields, 1, if before.PartialMessage? then before.signature else []))
  }

  function ReadMessage(fields: seq<Field>): Option<Message> {
    if fields == [] then Some(NoMessage)
    else
      var f := fields[|fields| - 1];
      match ReadMessage(fields[..|fields| - 1])
      case None => None
      case Some(before) =>
        if 1 <= f.number <= 3 && f.value.Record? then
          match Decode(f.value.raw)
          case None => None
          case Some(inner) => Some(MergeMessage(before, f.number, inner))
        else Some(before)
  }

  function UnmarshalEssence(essence: seq<byte>): Option<Message> {
    match Decode(essence)
    case None => None
    case Some(fields) => ReadMessage(fields)
  }

  /** VerifySingle: nothing is returned for a valid signature of a member. */
  function VerifySingle(members: set<Byte32>, verify: (Byte32, seq<byte>, seq<byte>) -> bool,
                        message: seq<byte>, publicKey: seq<byte>, signature: seq<byte>): Option<Unmarshaled>
  {
    if |publicKey| != 32 then Some(Panic)
    else if IDFromBytes(publicKey) !in members then Some(NonApplicablePublicKey)
    else if !verify(IDFromBytes(publicKey), message, signature) then Some(InvalidSignature)
    else None
  }

  function UnmarshalTx(members: set<Byte32>, verify: (Byte32, seq<byte>, seq<byte>) -> bool,
                       raw: seq<byte>): Unmarshaled
  {
    match Decode(raw)
    case None => SyntaxError
    case Some(fields) =>
      var essence, publicKey, signature := LastBytes(fields, 1, []), LastBytes(fields, 2, []), LastBytes(fields, 3, []);
      match VerifySingle(members, verify, essence, publicKey, signature)
      case Some(error) => error
      case None =>
        if |publicKey| != 32 then Panic else Accept(IDFromBytes(publicKey), UnmarshalEssence(essence))
  }

  /** The transaction of a verified issuer. */
  function Accept(issuer: Byte32, message: Option<Message>): Unmarshaled {
    match message
    case None => SyntaxError
    case Some(NoMessage) => SyntaxError
    case Some(ParentMessage(index, id)) =>
      if |id| != 32 then InvalidBlockID else Ok(issuer, Parent(index, IDFromBytes(id)))
    case Some(ProofMessage(index, id)) =>
      if |id| != 32 then InvalidBlockID else Ok(issuer, Proof(index, IDFromBytes(id)))
    case Some(PartialMessage(s)) => Ok(issuer, PartialSignature(s))
  }

  // ----- properties -----

  lemma IDRoundTrip(id: Byte32)
    ensures IDFromBytes(IDBytes(id)) == id
  {
    BigEndianRoundTrip(id, 32);
  }

  lemma OneField(f: Field)
    ensures Encode([f]) == EncodeField(f)
  {
    assert Encode([f]) == EncodeField(f) + Encode([]);
  }

  lemma TwoFields(f: Field, g: Field)
    ensures Encode([f, g]) == EncodeField(f) + EncodeField(g)
  {
    assert [f, g][1..] == [g];
    OneField(g);
  }

  lemma ThreeFields(f: Field, g: Field, h: Field)
    ensures Encode([f, g, h]) == EncodeField(f) + EncodeField(g) + EncodeField(h)
  {
    assert [f, g, h][1..] == [g, h];
    TwoFields(g, h);
  }

  /** The size of a record field with a one-byte tag. */
  lemma RecordSize(number: nat, raw: seq<byte>)
    requires 1 <= number < 16 && |raw| < TWO_32
    ensures |EncodeField(Field(number, Record(raw)))| == 1 + |EncodeVarint(|raw|)| + |raw|
  {
    VarintSize(8 * number + 2);
    assert EncodeField(Field(number, Record(raw))) == EncodeVarint(8 * number + 2) + (EncodeVarint(|raw|) + raw);
  }

  /** The inner message: 64 bytes of signature take 66, an index and a block ID at most 40. */
  lemma MessageSize(tx: Tx)
    requires tx.PartialSignature? ==> |tx.signature| < TWO_31
    ensures !tx.PartialSignature? ==> 34 <= |Encode(MessageFields(tx))| <= 40
    ensures tx.PartialSignature? && tx.signature == [] ==> |Encode(MessageFields(tx))| == 0
    ensures tx.PartialSignature? && tx.signature != [] ==>
      |Encode(MessageFields(tx))| == 1 + |EncodeVarint(|tx.signature|)| + |tx.signature|
  {
    if tx.PartialSignature? {
      if tx.signature != [] {
        OneField(Field(1, Record(tx.signature)));
        RecordSize(1, tx.signature);
      }
    } else {
      var id := if tx.Parent? then tx.blockID else tx.parent;
      var f := Field(2, Record(IDBytes(id)));
      RecordSize(2, IDBytes(id));
      VarintSize(32);
      OneField(f);
      if tx.index == 0 {
        assert MessageFields(tx) == [f];
      } else {
        var g := Field(1, Varint(tx.index));
        assert MessageFields(tx) == [g, f];
        TwoFields(g, f);
        VarintSize(8);
        VarintSize(tx.index);
      }
    }
  }

  lemma EssenceSize(tx: Tx)
    requires tx.PartialSignature? ==> |tx.signature| < TWO_31
    ensures var n := |Encode(MessageFields(tx))|;
      MarshalEssence(tx) != [] && |MarshalEssence(tx)| == 1 + |EncodeVarint(n)| + n
  {
    MessageSize(tx);
    if tx.PartialSignature? { VarintSize(|tx.signature|); }
    OneField(Field(Kind(tx), Record(Encode(MessageFields(tx)))));
    RecordSize(Kind(tx), Encode(MessageFields(tx)));
  }

  lemma MarshalSize(id: Byte32, sign: seq<byte> -> seq<byte>, tx: Tx)
    requires tx.PartialSignature? ==> |tx.signature| < TWO_31
    requires |sign(MarshalEssence(tx))| == SIGNATURE_SIZE
    ensures var n := |MarshalEssence(tx)|;
      |MarshalTx(id, sign, tx)| == 1 + |EncodeVarint(n)| + n + 100
  {
    var essence := MarshalEssence(tx);
    EssenceSize(tx);
    MessageSize(tx);
    if tx.PartialSignature? { VarintSize(|tx.signature|); VarintSize(|Encode(MessageFields(tx))|); }
    var f, g, h := Field(1, Record(essence)), Field(2, Record(IDBytes(id))), Field(3, Record(sign(essence)));
    assert RawFields(essence, IDBytes(id), sign(essence)) == [f, g, h];
    ThreeFields(f, g, h);
    RecordSize(1, essence);
    RecordSize(2, IDBytes(id));
    RecordSize(3, sign(essence));
    VarintSize(32);
    VarintSize(64);
  }

  /** A transaction fits in MAX_TX_BYTES unless it carries more than 64 bytes of signature, and fills it
      exactly when it is a partial signature of 64 bytes. */
  lemma SizeBound(id: Byte32, sign: seq<byte> -> seq<byte>, tx: Tx)
    requires tx.PartialSignature? ==> |tx.signature| < TWO_31
    requires |sign(MarshalEssence(tx))| == SIGNATURE_SIZE
    ensures |MarshalTx(id, sign, tx)| <= MAX_TX_BYTES <==>
      (tx.PartialSignature? ==> |tx.signature| <= SIGNATURE_SIZE)
    ensures |MarshalTx(id, sign, tx)| == MAX_TX_BYTES <==>
      (tx.PartialSignature? && |tx.signature| == SIGNATURE_SIZE)
  {
    MarshalSize(id, sign, tx);
    EssenceSize(tx);
    MessageSize(tx);
    var n := |Encode(MessageFields(tx))|;
    if tx.PartialSignature? { VarintSize(|tx.signature|); }
    VarintSize(n);
    VarintSize(|MarshalEssence(tx)|);
  }

  lemma LastOfTwo(f: seq<Field>, g: seq<Field>, number: nat)
    requires |g| <= 1 && forall x | x in g :: x.number != number
    ensures forall start :: LastBytes(f + g, number, start) == LastBytes(f, number, start)
    ensures forall start :: LastUint(f + g, number, start) == LastUint(f, number, start)
  {
    if |g| == 1 {
      assert (f + g)[..|f + g| - 1] == f;
      assert g[0] in g;
    } else {
      assert f + g == f;
    }
  }

  function MessageOf(tx: Tx): Message {
    match tx
    case Parent(index, id) => ParentMessage(index, IDBytes(id))
    case Proof(index, id) => ProofMessage(index, IDBytes(id))
    case PartialSignature(s) => PartialMessage(s)
  }

  /** The fields of a proposal or a proof. */
  lemma IndexAndID(index: uint32, id: Byte32)
    ensures var fields := UintField(1, index) + BytesField(2, IDBytes(id));
      LastUint(fields, 1, 0) == index && LastBytes(fields, 2, []) == IDBytes(id)
  {
    var f, g := UintField(1, index), BytesField(2, IDBytes(id));
    LastOfTwo(f, g, 1);
    assert (f + g)[|f + g| - 1] == g[0];
  }

  lemma MergeMarshaled(tx: Tx)
    ensures MergeMessage(NoMessage, Kind(tx), MessageFields(tx)) == MessageOf(tx)
  {
    hide UintField, IDBytes;
    if !tx.PartialSignature? {
      IndexAndID(tx.index, if tx.Parent? then tx.blockID else tx.parent);
    }
  }

  lemma OneRecord(kind: nat, raw: seq<byte>, inner: seq<Field>)
    requires 1 <= kind <= 3 && Decode(raw) == Some(inner)
    ensures ReadMessage([Field(kind, Record(raw))]) == Some(MergeMessage(NoMessage, kind, inner))
  {
    assert [Field(kind, Record(raw))][..0] == [];
  }

  lemma EssenceRoundTrip(tx: Tx)
    requires tx.PartialSignature? ==> |tx.signature| < TWO_31
    ensures UnmarshalEssence(MarshalEssence(tx)) == Some(MessageOf(tx))
  {
    var inner := MessageFields(tx);
    MessageSize(tx);
    if tx.PartialSignature? { VarintSize(|tx.signature|); }
    FieldsRoundTrip(inner);
    FieldsRoundTrip([Field(Kind(tx), Record(Encode(inner)))]);
    OneRecord(Kind(tx), Encode(inner), inner);
    MergeMarshaled(tx);
  }

  lemma EnvelopeFields(essence: seq<byte>, publicKey: seq<byte>, signature: seq<byte>, start: seq<byte>)
    requires essence != [] && publicKey != [] && signature != []
    ensures var fields := RawFields(essence, publicKey, signature);
      && LastBytes(fields, 1, start) == essence
      && LastBytes(fields, 2, start) == publicKey
      && LastBytes(fields, 3, start) == signature
  {
    var f, g, h := BytesField(1, essence), BytesField(2, publicKey), BytesField(3, signature);
    LastOfTwo(f + g, h, 1);
    LastOfTwo(f, g, 1);
    LastOfTwo(f + g, h, 2);
    assert (f + g)[|f + g| - 1] == g[0];
    assert (f + g + h)[|f + g + h| - 1] == h[0];
  }

  /** Decoding what a member encoded gives back the member and its transaction. */
  lemma TxRoundTrip(members: set<Byte32>, verify: (Byte32, seq<byte>, seq<byte>) -> bool,
                    id: Byte32, sign: seq<byte> -> seq<byte>, tx: Tx)
    requires tx.PartialSignature? ==> |tx.signature| < TWO_31
    requires id in members
    requires |sign(MarshalEssence(tx))| == SIGNATURE_SIZE
    requires verify(id, MarshalEssence(tx), sign(MarshalEssence(tx)))
    ensures UnmarshalTx(members, verify, MarshalTx(id, sign, tx)) == Ok(id, tx)
  {
    var essence := MarshalEssence(tx);
    EnvelopeWellFormed(id, sign(essence), tx);
    FieldsRoundTrip(RawFields(essence, IDBytes(id), sign(essence)));
    EnvelopeFields(essence, IDBytes(id), sign(essence), []);
    IDRoundTrip(id);
    EssenceRoundTrip(tx);
    AcceptRoundTrip(id, tx);
  }

  lemma EnvelopeWellFormed(id: Byte32, signature: seq<byte>, tx: Tx)
    requires tx.PartialSignature? ==> |tx.signature| < TWO_31
    requires |signature| == SIGNATURE_SIZE
    ensures MarshalEssence(tx) != []
    ensures forall f | f in RawFields(MarshalEssence(tx), IDBytes(id), signature) :: WellFormed(f)
  {
    EssenceSize(tx);
    MessageSize(tx);
    if tx.PartialSignature? { VarintSize(|tx.signature|); }
    VarintSize(|Encode(MessageFields(tx))|);
  }

  lemma AcceptRoundTrip(id: Byte32, tx: Tx)
    ensures Accept(id, Some(MessageOf(tx))) == Ok(id, tx)
  {
    match tx
    case Parent(_, b) => IDRoundTrip(b);
    case Proof(_, b) => IDRoundTrip(b);
    case PartialSignature(_) =>
  }

  /** Exactly what is decoded: an envelope with the 32-byte key of a member, whose signature of the essence verifies,
      and whose essence is the message of the transaction, with a block ID of 32 bytes. */
  lemma DecodedIff(members: set<Byte32>, verify: (Byte32, seq<byte>, seq<byte>) -> bool, raw: seq<byte>,
                   issuer: Byte32, tx: Tx)
    ensures UnmarshalTx(members, verify, raw) == Ok(issuer, tx) <==>
      && Decode(raw).Some? && issuer in members && LastBytes(Decode(raw).value, 2, []) == IDBytes(issuer)
      && var essence := LastBytes(Decode(raw).value, 1, []);
      && verify(issuer, essence, LastBytes(Decode(raw).value, 3, []))
      && UnmarshalEssence(essence) == Some(MessageOf(tx))
  {
    hide UnmarshalEssence, Decode, LastBytes, IDBytes, IDFromBytes;
    IDRoundTrip(issuer);
    if Decode(raw).Some? {
      var fields := Decode(raw).value;
      BytesRoundTrip(LastBytes(fields, 2, []));
      AcceptIff(issuer, UnmarshalEssence(LastBytes(fields, 1, [])), tx);
    }
  }

  lemma BytesRoundTrip(b: seq<byte>)
    ensures |b| == 32 ==> IDBytes(IDFromBytes(b)) == b
  {
    FromBigEndianRoundTrip(b);
  }

  lemma AcceptIff(issuer: Byte32, message: Option<Message>, tx: Tx)
    ensures Accept(issuer, message) == Ok(issuer, tx) <==> message == Some(MessageOf(tx))
  {
    hide IDBytes, IDFromBytes;
    AcceptRoundTrip(issuer, tx);
    if message.Some? && (message.value.ParentMessage? || message.value.ProofMessage?) {
      BytesRoundTrip(message.value.blockID);
    }
  }

  /** No transaction is attributed to a member that did not make it: if whatever verifies under the key of
      `issuer` is the encoding of one of its transactions `made`, or no transaction at all (a milestone
      essence), then every decoded transaction of `issuer` is one of `made`. */
  lemma AttributedIsMade(members: set<Byte32>, verify: (Byte32, seq<byte>, seq<byte>) -> bool,
                         raw: seq<byte>, made: set<Tx>)
    requires UnmarshalTx(members, verify, raw).Ok?
    requires forall tx | tx in made && tx.PartialSignature? :: |tx.signature| < TWO_31
    requires forall message, signature ::
      verify(UnmarshalTx(members, verify, raw).issuer, message, signature) ==>
        || (exists tx :: tx in made && message == MarshalEssence(tx))
        || UnmarshalEssence(message) in {None, Some(NoMessage)}
    ensures UnmarshalTx(members, verify, raw).issuer in members
    ensures UnmarshalTx(members, verify, raw).tx in made
  {
    var fields := Decode(raw).value;
    var essence := LastBytes(fields, 1, []);
    assert verify(IDFromBytes(LastBytes(fields, 2, [])), essence, LastBytes(fields, 3, []));
    var tx :| tx in made && essence == MarshalEssence(tx);
    EssenceRoundTrip(tx);
    AcceptRoundTrip(IDFromBytes(LastBytes(fields, 2, [])), tx);
  }

  /** The decoder panics exactly on well-formed envelopes whose public key is not 32 bytes long. */
  lemma PanicCondition(members: set<Byte32>, verify: (Byte32, seq<byte>, seq<byte>) -> bool, raw: seq<byte>)
    ensures UnmarshalTx(members, verify, raw) == Panic <==>
      Decode(raw).Some? && |LastBytes(Decode(raw).value, 2, [])| != 32
  {
  }

  /** The shortest such inputs: the empty transaction, and an unknown field with an empty group. */
  lemma EmptyTransactionPanics(members: set<Byte32>, verify: (Byte32, seq<byte>, seq<byte>) -> bool)
    ensures UnmarshalTx(members, verify, []) == Panic
    ensures UnmarshalTx(members, verify, [0x23, 0x24]) == Panic
  {
    assert Decode([]) == Some([]);
    var raw, end: seq<byte> := [0x23, 0x24], [0x24];
    assert raw[1..] == end && end[..1] == end && end[1..] == [];
    assert DecodeVarint(raw, 10) == Some((0x23, end));
    assert DecodeVarint(end, 10) == Some((0x24, []));
    assert SkipGroup(4, end, RECURSION_LIMIT) == Some([]);
    assert DecodeValue(4, 3, end) == Some((Group(end), []));
    assert Decode(raw) == Some([Field(4, Group(end))] + []);
  }

  // ----- byte for byte -----

  /** A bytes field with a one-byte tag and a one-byte length. */
  lemma ShortRecord(number: nat, raw: seq<byte>)
    requires 1 <= number < 16 && |raw| < 128
    ensures EncodeField(Field(number, Record(raw))) == [8 * number + 2, |raw|] + raw
  {
    assert EncodeVarint(8 * number + 2) == [8 * number + 2] && EncodeVarint(|raw|) == [|raw|];
  }

  /** The index in front of a block ID; a zero is left out. */
  function IndexBytes(index: uint32): seq<byte> {
    if index == 0 then [] else [0x08] + EncodeVarint(index)
  }

  lemma IndexedIDLayout(index: uint32, id: Byte32)
    ensures Encode(UintField(1, index) + BytesField(2, IDBytes(id))) == IndexBytes(index) + ([0x12, 0x20] + IDBytes(id))
    ensures |IndexBytes(index)| <= 6
  {
    hide EncodeField;
    var g := Field(2, Record(IDBytes(id)));
    ShortRecord(2, IDBytes(id));
    OneField(g);
    if index == 0 {
      assert UintField(1, index) + BytesField(2, IDBytes(id)) == [g];
    } else {
      var f := Field(1, Varint(index));
      assert UintField(1, index) + BytesField(2, IDBytes(id)) == [f, g];
      TwoFields(f, g);
      IndexLayout(index);
    }
  }

  lemma IndexLayout(index: uint32)
    ensures EncodeField(Field(1, Varint(index))) == [0x08] + EncodeVarint(index) && |EncodeVarint(index)| <= 5
  {
    VarintSize(index);
    assert EncodeVarint(8) == [8];
  }

  /** The tags of the kinds are 0x0A, 0x12 and 0x1A; a proposal and a proof hold the index and the ID, a partial
      signature the signature. */
  lemma EssenceLayout(tx: Tx)
    requires tx.PartialSignature? ==> |tx.signature| == SIGNATURE_SIZE
    ensures match tx
      case Parent(index, id) => var m := IndexBytes(index) + ([0x12, 0x20] + IDBytes(id));
        |m| <= 40 && MarshalEssence(tx) == [0x0A, |m|] + m
      case Proof(index, id) => var m := IndexBytes(index) + ([0x12, 0x20] + IDBytes(id));
        |m| <= 40 && MarshalEssence(tx) == [0x12, |m|] + m
      case PartialSignature(signature) => MarshalEssence(tx) == [0x1A, 66] + ([0x0A, 64] + signature)
  {
    hide EncodeField, IndexBytes, IDBytes;
    var inner := Encode(MessageFields(tx));
    if tx.PartialSignature? {
      OneField(Field(1, Record(tx.signature)));
      ShortRecord(1, tx.signature);
    } else {
      IndexedIDLayout(tx.index, if tx.Parent? then tx.blockID else tx.parent);
    }
    OneField(Field(Kind(tx), Record(inner)));
    ShortRecord(Kind(tx), inner);
  }

  /** The envelope: the essence, the public key and the signature, in this order. */
  lemma EnvelopeLayout(id: Byte32, sign: seq<byte> -> seq<byte>, tx: Tx)
    requires tx.PartialSignature? ==> |tx.signature| == SIGNATURE_SIZE
    requires |sign(MarshalEssence(tx))| == SIGNATURE_SIZE
    ensures var e := MarshalEssence(tx);
      |e| < 128 && MarshalTx(id, sign, tx) ==
        ([0x0A, |e|] + e) + ([0x12, 0x20] + IDBytes(id)) + ([0x1A, 0x40] + sign(e))
  {
    hide EncodeField, IndexBytes, IDBytes, MarshalEssence;
    var e := MarshalEssence(tx);
    EssenceLayout(tx);
    var f, g, h := Field(1, Record(e)), Field(2, Record(IDBytes(id))), Field(3, Record(sign(e)));
    assert RawFields(e, IDBytes(id), sign(e)) == [f, g, h];
    ThreeFields(f, g, h);
    ShortRecord(1, e);
    ShortRecord(2, IDBytes(id));
    ShortRecord(3, sign(e));
  }

  // ----- repeated fields -----

  /** What the second of two messages makes of the first: of the same kind, it leaves what it does not set. */
  function Merged(x: Tx, y: Tx): Message {
    match (x, y)
    case (Parent(i, _), Parent(j, b)) => ParentMessage(if j == 0 then i else j, IDBytes(b))
    case (Proof(i, _), Proof(j, b)) => ProofMessage(if j == 0 then i else j, IDBytes(b))
    case (PartialSignature(s), PartialSignature(r)) => PartialMessage(if r == [] then s else r)
    case (_, _) => MessageOf(y)
  }

  lemma LastIndexAndID(index: uint32, id: Byte32, before: uint32, raw: seq<byte>)
    ensures var fields := UintField(1, index) + BytesField(2, IDBytes(id));
      && LastUint(fields, 1, before) == (if index == 0 then before else index)
      && LastBytes(fields, 2, raw) == IDBytes(id)
  {
    var f, g := UintField(1, index), BytesField(2, IDBytes(id));
    LastOfTwo(f, g, 1);
    assert (f + g)[|f + g| - 1] == g[0];
  }

  lemma MergeSecond(x: Tx, y: Tx)
    ensures MergeMessage(MessageOf(x), Kind(y), MessageFields(y)) == Merged(x, y)
  {
    hide UintField, IDBytes, LastUint;
    match y
    case Parent(j, b) =>
      LastIndexAndID(j, b, if x.Parent? then x.index else 0, if x.Parent? then IDBytes(x.blockID) else []);
    case Proof(j, b) =>
      LastIndexAndID(j, b, if x.Proof? then x.index else 0, if x.Proof? then IDBytes(x.parent) else []);
    case PartialSignature(_) =>
  }

  /** The concatenation of two encodings is read as the second message merged into the first. */
  lemma ConcatMerges(x: Tx, y: Tx)
    requires x.PartialSignature? ==> |x.signature| < TWO_31
    requires y.PartialSignature? ==> |y.signature| < TWO_31
    ensures UnmarshalEssence(MarshalEssence(x) + MarshalEssence(y)) == Some(Merged(x, y))
  {
    hide MergeMessage, Merged, EncodeField;
    var f, g := Field(Kind(x), Record(Encode(MessageFields(x)))), Field(Kind(y), Record(Encode(MessageFields(y))));
    OneField(f);
    OneField(g);
    TwoFields(f, g);
    RecordWellFormed(x);
    RecordWellFormed(y);
    FieldsRoundTrip([f, g]);
    OneRecord(Kind(x), f.value.raw, MessageFields(x));
    assert [f, g][..1] == [f];
    MergeMarshaled(x);
    MergeSecond(x, y);
  }

  lemma RecordWellFormed(tx: Tx)
    requires tx.PartialSignature? ==> |tx.signature| < TWO_31
    ensures WellFormed(Field(Kind(tx), Record(Encode(MessageFields(tx)))))
    ensures Decode(Encode(MessageFields(tx))) == Some(MessageFields(tx))
  {
    MessageSize(tx);
    if tx.PartialSignature? { VarintSize(|tx.signature|); }
    FieldsRoundTrip(MessageFields(tx));
  }

  lemma {:induction false} LastBytesAfter(f: seq<Field>, g: seq<Field>, number: nat, start: seq<byte>)
    ensures LastBytes(f + g, number, start) == LastBytes(g, number, LastBytes(f, number, start))
  {
    if g == [] {
      assert f + g == f;
    } else {
      assert (f + g)[..|f + g| - 1] == f + g[..|g| - 1];
      LastBytesAfter(f, g[..|g| - 1], number, start);
    }
  }

  lemma {:induction false} EncodeConcat(f: seq<Field>, g: seq<Field>)
    ensures Encode(f + g) == Encode(f) + Encode(g)
  {
    if f == [] {
      assert f + g == g;
    } else {
      assert (f + g)[1..] == f[1..] + g;
      EncodeConcat(f[1..], g);
    }
  }

  lemma EnvelopeAfter(before: seq<Field>, essence: seq<byte>, publicKey: seq<byte>, signature: seq<byte>)
    requires essence != [] && publicKey != [] && signature != []
    ensures var fields := before + RawFields(essence, publicKey, signature);
      && LastBytes(fields, 1, []) == essence
      && LastBytes(fields, 2, []) == publicKey
      && LastBytes(fields, 3, []) == signature
  {
    hide RawFields, LastBytes;
    var fields := RawFields(essence, publicKey, signature);
    LastBytesAfter(before, fields, 1, []);
    LastBytesAfter(before, fields, 2, []);
    LastBytesAfter(before, fields, 3, []);
    EnvelopeFields(essence, publicKey, signature, LastBytes(before, 1, []));
    EnvelopeFields(essence, publicKey, signature, LastBytes(before, 2, []));
    EnvelopeFields(essence, publicKey, signature, LastBytes(before, 3, []));
  }

  /** Whatever fields come before the ones that a member encoded, the last ones count. */
  lemma LastFieldsCount(members: set<Byte32>, verify: (Byte32, seq<byte>, seq<byte>) -> bool,
                        id: Byte32, sign: seq<byte> -> seq<byte>, tx: Tx, before: seq<Field>)
    requires tx.PartialSignature? ==> |tx.signature| < TWO_31
    requires id in members && forall f | f in before :: WellFormed(f)
    requires |sign(MarshalEssence(tx))| == SIGNATURE_SIZE
    requires verify(id, MarshalEssence(tx), sign(MarshalEssence(tx)))
    ensures UnmarshalTx(members, verify, Encode(before) + MarshalTx(id, sign, tx)) == Ok(id, tx)
  {
    hide WellFormed, RawFields, LastBytes, Encode, MarshalEssence;
    var essence := MarshalEssence(tx);
    var fields := RawFields(essence, IDBytes(id), sign(essence));
    EnvelopeWellFormed(id, sign(essence), tx);
    EncodeConcat(before, fields);
    FieldsRoundTrip(before + fields);
    EnvelopeAfter(before, essence, IDBytes(id), sign(essence));
    IDRoundTrip(id);
    EssenceRoundTrip(tx);
    AcceptRoundTrip(id, tx);
  }
}
