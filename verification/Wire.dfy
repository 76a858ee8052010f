/** The Protocol Buffers wire format: base-128 varints and length-delimited records. */
module Wire {
  import opened ByteStrings

  datatype WireValue =
    | Varint(v: nat)
    | Fixed64(raw: seq<byte>)
    | Record(raw: seq<byte>)
    | Group(raw: seq<byte>)
    | Fixed32(raw: seq<byte>)

  datatype Field = Field(number: nat, value: WireValue)

  const MAX_FIELD_NUMBER := 0x1FFF_FFFF
  /** Inside groups, which are only skipped, field numbers have 31 bits. */
  const MAX_SKIPPED_NUMBER := 0x7FFF_FFFF
  /** How deep groups may be nested in a group. */
  const RECURSION_LIMIT := 10000

  ghost predicate WellFormed(f: Field) {
    && 1 <= f.number <= MAX_FIELD_NUMBER
    && match f.value
       case Varint(v) => v < TWO_64
       case Fixed64(raw) => |raw| == 8
       case Record(raw) => |raw| < TWO_64
       case Group(raw) => SkipGroup(f.number, raw, RECURSION_LIMIT) == Some([])
       case Fixed32(raw) => |raw| == 4
  }

  // ----- varints -----

  function EncodeVarint(n: nat): (b: seq<byte>)
    ensures b != []
  {
    if n < 128 then [n] else [n % 128 + 128] + EncodeVarint(n / 128)
  }

  /** Reads a varint of at most `k` bytes, the last of which may only hold one bit. */
  function DecodeVarint(b: seq<byte>, k: nat): (r: Option<(nat, seq<byte>)>)
    ensures r.Some? ==> |r.value.1| < |b|
  {
    if k == 0 || b == [] then None
    else if b[0] < 128 then
      if k == 1 && b[0] > 1 then None else Some((b[0], b[1..]))
    else
      match DecodeVarint(b[1..], k - 1)
      case None => None
      case Some((v, rest)) => Some((b[0] - 128 + 128 * v, rest))
  }

  /** The values that fit in a varint of `k` bytes; for ten bytes, the 64-bit integers. */
  function VarintLimit(k: nat): nat {
    if k <= 1 then 2 else 128 * VarintLimit(k - 1)
  }

  lemma {:induction false} VarintRoundTrip(n: nat, k: nat, rest: seq<byte>)
    requires k > 0 && n < VarintLimit(k)
    ensures DecodeVarint(EncodeVarint(n) + rest, k) == Some((n, rest))
  {
    if n < 128 {
      assert ([n] + rest)[1..] == rest;
    } else {
      var low, high := n % 128 + 128, EncodeVarint(n / 128);
      assert ([low] + high + rest)[1..] == high + rest;
      VarintRoundTrip(n / 128, k - 1, rest);
      assert n / 128 < VarintLimit(k - 1);
      assert DecodeVarint([low] + high + rest, k) == Some((low - 128 + 128 * (n / 128), rest));
    }
  }

  /** The number that groups of seven bits stand for, the least significant one first. */
  function FromGroups(b: seq<byte>): nat {
    if b == [] then 0 else b[0] % 128 + 128 * FromGroups(b[1..])
  }

  /** A varint is the groups of the number, as few as possible; all bytes but the last one have the highest bit set. */
  lemma {:induction false} VarintIsBase128(n: nat)
    ensures var b := EncodeVarint(n);
      && FromGroups(b) == n
      && (forall i | 0 <= i < |b| :: b[i] >= 128 <==> i < |b| - 1)
      && (|b| > 1 ==> b[|b| - 1] > 0)
  {
    if n < 128 {
      assert [n][1..] == [];
    } else {
      VarintIsBase128(n / 128);
      assert EncodeVarint(n)[1..] == EncodeVarint(n / 128);
    }
  }

  lemma TenByteVarints()
    ensures VarintLimit(10) == TWO_64
  {
    assert VarintLimit(5) == 128 * 128 * 128 * 128 * 2;
    assert VarintLimit(10) == 128 * 128 * 128 * 128 * 128 * VarintLimit(5);
  }

  lemma VarintSize(n: nat)
    requires n < TWO_32
    ensures |EncodeVarint(n)| <= 5
    ensures n < 128 ==> |EncodeVarint(n)| == 1
    ensures 128 <= n < 16384 ==> |EncodeVarint(n)| == 2
  {
    var m := n / 128;
    assert |EncodeVarint(m / 128 / 128 / 128)| == 1;
    assert |EncodeVarint(m / 128 / 128)| <= 2;
    assert |EncodeVarint(m / 128)| <= 3;
    assert |EncodeVarint(m)| <= 4;
  }

  // ----- fields -----

  function WireType(v: WireValue): nat {
    match v
    case Varint(_) => 0
    case Fixed64(_) => 1
    case Record(_) => 2
    case Group(_) => 3
    case Fixed32(_) => 5
  }

  function EncodeValue(v: WireValue): seq<byte> {
    match v
    case Varint(n) => EncodeVarint(n)
    case Fixed64(raw) => raw
    case Record(raw) => EncodeVarint(|raw|) + raw
    case Group(raw) => raw
    case Fixed32(raw) => raw
  }

  function EncodeField(f: Field): seq<byte> {
    EncodeVarint(8 * f.number + WireType(f.value)) + EncodeValue(f.value)
  }

  function Encode(fields: seq<Field>): seq<byte> {
    if fields == [] then [] else EncodeField(fields[0]) + Encode(fields[1..])
  }

  /** Reads a value that is not a group. */
  function DecodeScalar(wireType: nat, b: seq<byte>): (r: Option<(WireValue, seq<byte>)>)
    ensures r.Some? ==> |r.value.1| <= |b|
  {
    if wireType == 0 then
      match DecodeVarint(b, 10)
      case None => None
      case Some((v, rest)) => Some((Varint(v), rest))
    else if wireType == 1 then
      if |b| < 8 then None else Some((Fixed64(b[..8]), b[8..]))
    else if wireType == 2 then
      match DecodeVarint(b, 10)
      case None => None
      case Some((n, rest)) => if |rest| < n then None else Some((Record(rest[..n]), rest[n..]))
    else if wireType == 5 then
      if |b| < 4 then None else Some((Fixed32(b[..4]), b[4..]))
    else None
  }

  /** Skips the rest of a group, up to the end tag of the same number; returns what follows it. */
  function SkipGroup(number: nat, b: seq<byte>, depth: int): (r: Option<seq<byte>>)
    ensures r.Some? ==> |r.value| < |b|
    decreases |b|
  {
    if depth < 0 then None else
    match DecodeVarint(b, 10)
    case None => None
    case Some((tag, body)) =>
      if !(1 <= tag / 8 <= MAX_SKIPPED_NUMBER) then None
      else if tag % 8 == 4 then
        if tag / 8 == number then Some(body) else None
      else
        var skipped := if tag % 8 == 3 then SkipGroup(tag / 8, body, depth - 1) else SkipScalar(tag % 8, body);
        match skipped
        case None => None
        case Some(rest) => SkipGroup(number, rest, depth)
  }

  function SkipScalar(wireType: nat, b: seq<byte>): (r: Option<seq<byte>>)
    ensures r.Some? ==> |r.value| <= |b|
  {
    match DecodeScalar(wireType, b)
    case None => None
    case Some((_, rest)) => Some(rest)
  }

  /** Reads the value of a field; what a group contains is not looked at. */
  function DecodeValue(number: nat, wireType: nat, b: seq<byte>): (r: Option<(WireValue, seq<byte>)>)
    ensures r.Some? ==> |r.value.1| <= |b|
  {
    if wireType == 3 then
      match SkipGroup(number, b, RECURSION_LIMIT)
      case None => None
      case Some(rest) => Some((Group(b[..|b| - |rest|]), rest))
    else DecodeScalar(wireType, b)
  }

  /** Splits a message into its fields; None if it is malformed. */
  function Decode(b: seq<byte>): Option<seq<Field>>
    decreases |b|
  {
    if b == [] then Some([]) else
    match DecodeVarint(b, 10)
    case None => None
    case Some((tag, body)) =>
      if !(1 <= tag / 8 <= MAX_FIELD_NUMBER) then None else
      match DecodeValue(tag / 8, tag % 8, body)
      case None => None
      case Some((value, rest)) =>
        match Decode(rest)
        case None => None
        case Some(fields) => Some([Field(tag / 8, value)] + fields)
  }

  // ----- what follows a value does not matter -----

  lemma {:induction false} VarintAppend(b: seq<byte>, k: nat, rest: seq<byte>)
    requires DecodeVarint(b, k).Some?
    ensures DecodeVarint(b + rest, k) == Some((DecodeVarint(b, k).value.0, DecodeVarint(b, k).value.1 + rest))
  {
    assert (b + rest)[0] == b[0] && (b + rest)[1..] == b[1..] + rest;
    if b[0] >= 128 {
      VarintAppend(b[1..], k - 1, rest);
    }
  }

  lemma ScalarAppend(wireType: nat, b: seq<byte>, rest: seq<byte>)
    requires DecodeScalar(wireType, b).Some?
    ensures DecodeScalar(wireType, b + rest) ==
      Some((DecodeScalar(wireType, b).value.0, DecodeScalar(wireType, b).value.1 + rest))
  {
    if wireType == 0 || wireType == 2 {
      VarintAppend(b, 10, rest);
      if wireType == 2 {
        var (n, body) := DecodeVarint(b, 10).value;
        assert (body + rest)[..n] == body[..n] && (body + rest)[n..] == body[n..] + rest;
      }
    } else {
      var n := if wireType == 1 then 8 else 4;
      assert (b + rest)[..n] == b[..n] && (b + rest)[n..] == b[n..] + rest;
    }
  }

  lemma {:induction false} GroupAppend(number: nat, b: seq<byte>, depth: int, rest: seq<byte>)
    requires SkipGroup(number, b, depth).Some?
    ensures SkipGroup(number, b + rest, depth) == Some(SkipGroup(number, b, depth).value + rest)
    decreases |b|
  {
    hide DecodeVarint, DecodeScalar;
    VarintAppend(b, 10, rest);
    var (tag, body) := DecodeVarint(b, 10).value;
    if tag % 8 != 4 {
      if tag % 8 == 3 {
        GroupAppend(tag / 8, body, depth - 1, rest);
        GroupAppend(number, SkipGroup(tag / 8, body, depth - 1).value, depth, rest);
      } else {
        ScalarAppend(tag % 8, body, rest);
        GroupAppend(number, SkipScalar(tag % 8, body).value, depth, rest);
      }
    }
  }

  lemma ValueRoundTrip(f: Field, rest: seq<byte>)
    requires WellFormed(f)
    ensures DecodeValue(f.number, WireType(f.value), EncodeValue(f.value) + rest) == Some((f.value, rest))
  {
    TenByteVarints();
    match f.value
    case Varint(n) => VarintRoundTrip(n, 10, rest);
    case Fixed64(raw) => assert (raw + rest)[..8] == raw && (raw + rest)[8..] == rest;
    case Record(raw) =>
      assert EncodeValue(f.value) + rest == EncodeVarint(|raw|) + (raw + rest);
      VarintRoundTrip(|raw|, 10, raw + rest);
      assert (raw + rest)[..|raw|] == raw && (raw + rest)[|raw|..] == rest;
    case Group(raw) =>
      GroupAppend(f.number, raw, RECURSION_LIMIT, rest);
      assert [] + rest == rest;
      assert (raw + rest)[..|raw|] == raw;
    case Fixed32(raw) => assert (raw + rest)[..4] == raw && (raw + rest)[4..] == rest;
  }

  lemma TagParts(f: Field)
    ensures (8 * f.number + WireType(f.value)) / 8 == f.number
    ensures (8 * f.number + WireType(f.value)) % 8 == WireType(f.value)
  {
  }

  /** The first field is read back, whatever comes after it. */
  lemma FieldRoundTrip(f: Field, rest: seq<byte>)
    requires WellFormed(f)
    ensures Decode(EncodeField(f) + rest) ==
      match Decode(rest) case None => None case Some(fields) => Some([f] + fields)
  {
    hide DecodeVarint, EncodeVarint, DecodeValue, EncodeValue, SkipGroup;
    var tag := 8 * f.number + WireType(f.value);
    assert EncodeField(f) + rest == EncodeVarint(tag) + (EncodeValue(f.value) + rest);
    TenByteVarints();
    TagParts(f);
    VarintRoundTrip(tag, 10, EncodeValue(f.value) + rest);
    ValueRoundTrip(f, rest);
  }

  /** Decoding gives back exactly the encoded fields, in order. */
  lemma {:induction false} FieldsRoundTrip(fields: seq<Field>)
    requires forall f | f in fields :: WellFormed(f)
    ensures Decode(Encode(fields)) == Some(fields)
  {
    hide EncodeField, WellFormed, Decode;
    if fields == [] {
      NothingDecoded();
    } else {
      assert fields[0] in fields;
      assert forall f | f in fields[1..] :: f in fields;
      FieldRoundTrip(fields[0], Encode(fields[1..]));
      FieldsRoundTrip(fields[1..]);
      assert fields == [fields[0]] + fields[1..];
    }
  }

  lemma NothingDecoded()
    ensures Decode([]) == Some([])
  {
  }

  // ----- what is decoded is well-formed -----

  /** What was read of `b`, if `rest` is what follows it. */
  function Consumed(b: seq<byte>, rest: seq<byte>): seq<byte> {
    if |rest| <= |b| then b[..|b| - |rest|] else b
  }

  lemma {:induction false} VarintConsumes(b: seq<byte>, k: nat)
    requires DecodeVarint(b, k).Some?
    ensures var (v, rest) := DecodeVarint(b, k).value;
      && v < VarintLimit(k) && b == Consumed(b, rest) + rest
      && DecodeVarint(Consumed(b, rest), k) == Some((v, []))
  {
    var (v, rest) := DecodeVarint(b, k).value;
    if b[0] < 128 {
      assert Consumed(b, rest) == [b[0]] && [b[0]][1..] == [];
      LimitAtLeast(k);
    } else {
      VarintConsumes(b[1..], k - 1);
      assert Consumed(b, rest) == [b[0]] + Consumed(b[1..], rest);
      assert ([b[0]] + Consumed(b[1..], rest))[1..] == Consumed(b[1..], rest);
    }
  }

  lemma LimitAtLeast(k: nat)
    ensures k > 1 ==> VarintLimit(k) >= 256
  {
  }

  lemma ScalarConsumes(wireType: nat, b: seq<byte>)
    requires DecodeScalar(wireType, b).Some?
    ensures var (v, rest) := DecodeScalar(wireType, b).value;
      && WireType(v) == wireType && !v.Group? && WellFormed(Field(1, v))
      && b == Consumed(b, rest) + rest && DecodeScalar(wireType, Consumed(b, rest)) == Some((v, []))
  {
    hide DecodeVarint, VarintLimit;
    TenByteVarints();
    if wireType == 0 {
      VarintConsumes(b, 10);
    } else if wireType == 2 {
      RecordConsumes(b);
    } else {
      var n := if wireType == 1 then 8 else 4;
      assert Consumed(b, b[n..]) == b[..n] && b[..n][..n] == b[..n] && b[..n][n..] == [];
    }
  }

  lemma ConsumedTwice(b: seq<byte>, body: seq<byte>, rest: seq<byte>)
    requires b == Consumed(b, body) + body && body == Consumed(body, rest) + rest
    ensures Consumed(b, rest) == Consumed(b, body) + Consumed(body, rest) && b == Consumed(b, rest) + rest
  {
  }

  lemma RecordConsumes(b: seq<byte>)
    requires DecodeScalar(2, b).Some?
    ensures var (v, rest) := DecodeScalar(2, b).value;
      && v.Record? && |v.raw| < TWO_64
      && b == Consumed(b, rest) + rest && DecodeScalar(2, Consumed(b, rest)) == Some((v, []))
  {
    hide DecodeVarint, VarintLimit;
    TenByteVarints();
    VarintConsumes(b, 10);
    var (n, body) := DecodeVarint(b, 10).value;
    var raw, rest := body[..n], body[n..];
    assert Consumed(body, rest) == raw;
    ConsumedTwice(b, body, rest);
    VarintAppend(Consumed(b, body), 10, raw);
    assert [] + raw == raw && raw[..n] == raw && raw[n..] == [];
  }

  lemma {:induction false} GroupConsumes(number: nat, b: seq<byte>, depth: int)
    requires SkipGroup(number, b, depth).Some?
    ensures var rest := SkipGroup(number, b, depth).value;
      b == Consumed(b, rest) + rest && SkipGroup(number, Consumed(b, rest), depth) == Some([])
    decreases |b|
  {
    hide DecodeVarint, DecodeScalar, VarintLimit, Consumed, WellFormed;
    VarintConsumes(b, 10);
    var rest := SkipGroup(number, b, depth).value;
    var (tag, body) := DecodeVarint(b, 10).value;
    if tag % 8 != 4 {
      var skipped :=
        if tag % 8 == 3 then SkipGroup(tag / 8, body, depth - 1).value else SkipScalar(tag % 8, body).value;
      if tag % 8 == 3 {
        GroupConsumes(tag / 8, body, depth - 1);
      } else {
        ScalarConsumes(tag % 8, body);
      }
      GroupConsumes(number, skipped, depth);
      SkipBoth(number, Consumed(b, body), Consumed(body, skipped), Consumed(skipped, rest), depth, tag);
      ConsumedTwice(body, skipped, rest);
      ConsumedTwice(b, body, rest);
    }
  }

  /** A tag, what it announces, and the rest of the group. */
  lemma SkipBoth(number: nat, start: seq<byte>, first: seq<byte>, last: seq<byte>, depth: int, tag: nat)
    requires DecodeVarint(start, 10) == Some((tag, [])) && depth >= 0
    requires 1 <= tag / 8 <= MAX_SKIPPED_NUMBER && tag % 8 != 4
    requires (if tag % 8 == 3 then SkipGroup(tag / 8, first, depth - 1) else SkipScalar(tag % 8, first)) == Some([])
    requires SkipGroup(number, last, depth) == Some([])
    ensures SkipGroup(number, start + (first + last), depth) == Some([])
  {
    hide DecodeVarint, DecodeScalar;
    VarintAppend(start, 10, first + last);
    assert [] + (first + last) == first + last && [] + last == last;
    if tag % 8 == 3 {
      GroupAppend(tag / 8, first, depth - 1, last);
    } else {
      ScalarAppend(tag % 8, first, last);
    }
  }

  /** A group ends with the end tag of its own number. */
  lemma {:induction false} GroupEnds(number: nat, b: seq<byte>, depth: int) returns (inner: seq<byte>, end: seq<byte>)
    requires SkipGroup(number, b, depth).Some?
    ensures b == inner + end + SkipGroup(number, b, depth).value
    ensures DecodeVarint(end, 10) == Some((8 * number + 4, []))
    decreases |b|
  {
    hide DecodeVarint, DecodeScalar, VarintLimit, Consumed, WellFormed;
    VarintConsumes(b, 10);
    var (tag, body) := DecodeVarint(b, 10).value;
    if tag % 8 == 4 {
      inner, end := [], Consumed(b, body);
    } else {
      var skipped :=
        if tag % 8 == 3 then SkipGroup(tag / 8, body, depth - 1).value else SkipScalar(tag % 8, body).value;
      if tag % 8 == 3 {
        GroupConsumes(tag / 8, body, depth - 1);
      } else {
        ScalarConsumes(tag % 8, body);
      }
      inner, end := GroupEnds(number, skipped, depth);
      inner := Consumed(b, body) + Consumed(body, skipped) + inner;
    }
  }

  /** Only well-formed fields are ever decoded; so encoding them again and decoding gives the same fields. */
  lemma {:induction false} DecodedIsWellFormed(b: seq<byte>)
    requires Decode(b).Some?
    ensures forall f | f in Decode(b).value :: WellFormed(f)
    decreases |b|
  {
    hide DecodeVarint, DecodeScalar, WellFormed;
    if b != [] {
      var (tag, body) := DecodeVarint(b, 10).value;
      var (value, rest) := DecodeValue(tag / 8, tag % 8, body).value;
      ValueIsWellFormed(tag / 8, tag % 8, body);
      DecodedIsWellFormed(rest);
    }
  }

  lemma ValueIsWellFormed(number: nat, wireType: nat, b: seq<byte>)
    requires 1 <= number <= MAX_FIELD_NUMBER && DecodeValue(number, wireType, b).Some?
    ensures WellFormed(Field(number, DecodeValue(number, wireType, b).value.0))
  {
    hide DecodeScalar, SkipGroup;
    if wireType == 3 {
      GroupConsumes(number, b, RECURSION_LIMIT);
    } else {
      ScalarConsumes(wireType, b);
    }
  }
}
