/** Byte strings, the fixed-width integers of the program, and their encodings. */
module ByteStrings {

  datatype Option<+T> = None | Some(value: T)

  type byte = n: int | 0 <= n < 256

  const TWO_31 := 0x8000_0000
  const TWO_32 := 0x1_0000_0000
  const TWO_63 := 0x8000_0000_0000_0000
  const TWO_64 := 0x1_0000_0000_0000_0000

  type uint32 = n: int | 0 <= n < TWO_32
  type int64 = n: int | -TWO_63 <= n < TWO_63

  /** 256 to the power of `k`. */
  function Pow256(k: nat): (r: nat)
    ensures r > 0
  {
    if k == 0 then 1 else 256 * Pow256(k - 1)
  }

  const TWO_256: nat := Pow256(32)

  /** A 32-byte identifier (a public key, a block ID, a milestone ID), read as a big-endian number. */
  type Byte32 = n: int | 0 <= n < TWO_256

  /** The conversion uint32(n) of a 64-bit integer. */
  function ToUint32(n: int): uint32 {
    n % TWO_32
  }

  /** It keeps the low 32 bits. */
  lemma ToUint32Truncates(n: int, k: int)
    ensures 0 <= n < TWO_32 ==> ToUint32(n + k * TWO_32) == n
  {
  }

  /** The wrapping increment of a uint32. */
  function NextUint32(n: uint32): uint32 {
    (n + 1) % TWO_32
  }

  /** The index before, in 32 bits. */
  function PreviousUint32(index: uint32): uint32 {
    if index == 0 then TWO_32 - 1 else index - 1
  }

  /** The wrapping increment of an int64. */
  function NextInt64(n: int64): int64 {
    if n == TWO_63 - 1 then -TWO_63 else n + 1
  }

  // ----- big-endian, for identifiers -----

  function BigEndian(n: nat, k: nat): (b: seq<byte>)
    ensures |b| == k
  {
    if k == 0 then [] else BigEndian(n / 256, k - 1) + [n % 256]
  }

  function FromBigEndian(b: seq<byte>): (n: nat)
    ensures n < Pow256(|b|)
  {
    if |b| == 0 then 0 else 256 * FromBigEndian(b[..|b| - 1]) + b[|b| - 1]
  }

  lemma {:induction false} BigEndianRoundTrip(n: nat, k: nat)
    requires n < Pow256(k)
    ensures FromBigEndian(BigEndian(n, k)) == n
  {
    if k > 0 {
      Divided(n, k - 1);
      BigEndianRoundTrip(n / 256, k - 1);
      FromBigEndianSnoc(BigEndian(n / 256, k - 1), n % 256);
    }
  }

  lemma Divided(n: nat, k: nat)
    requires n < Pow256(k + 1)
    ensures n / 256 < Pow256(k)
  {
  }

  lemma FromBigEndianSnoc(b: seq<byte>, x: byte)
    ensures FromBigEndian(b + [x]) == 256 * FromBigEndian(b) + x
  {
    assert (b + [x])[..|b|] == b;
  }

  lemma {:induction false} FromBigEndianRoundTrip(b: seq<byte>)
    ensures BigEndian(FromBigEndian(b), |b|) == b
  {
    if |b| > 0 {
      Digits(FromBigEndian(b[..|b| - 1]), b[|b| - 1]);
      FromBigEndianRoundTrip(b[..|b| - 1]);
      assert b == b[..|b| - 1] + [b[|b| - 1]];
    }
  }

  /** Lexicographic comparison of byte strings: negative, zero or positive. */
  function Compare(a: seq<byte>, b: seq<byte>): int {
    if a == [] && b == [] then 0
    else if a == [] then -1
    else if b == [] then 1
    else if a[0] != b[0] then a[0] - b[0]
    else Compare(a[1..], b[1..])
  }

  lemma {:induction false} CompareSnoc(a: seq<byte>, b: seq<byte>, x: byte, y: byte)
    requires |a| == |b|
    ensures Compare(a + [x], b + [y]) == if Compare(a, b) != 0 then Compare(a, b) else x - y
  {
    if a == [] {
      assert Compare([x][1..], [y][1..]) == 0;
      assert a + [x] == [x] && b + [y] == [y];
    } else {
      assert (a + [x])[1..] == a[1..] + [x] && (b + [y])[1..] == b[1..] + [y];
      CompareSnoc(a[1..], b[1..], x, y);
    }
  }

  /** Comparing the 32 bytes of two identifiers is comparing the numbers they stand for. */
  lemma {:induction false} CompareIsNumeric(a: nat, b: nat, k: nat)
    requires a < Pow256(k) && b < Pow256(k)
    ensures Compare(BigEndian(a, k), BigEndian(b, k)) < 0 <==> a < b
    ensures Compare(BigEndian(a, k), BigEndian(b, k)) == 0 <==> a == b
  {
    if k > 0 {
      Divided(a, k - 1);
      Divided(b, k - 1);
      CompareIsNumeric(a / 256, b / 256, k - 1);
      CompareSnoc(BigEndian(a / 256, k - 1), BigEndian(b / 256, k - 1), a % 256, b % 256);
    }
  }

  lemma {:induction false} Less(d: nat, q: nat, r: nat, q': nat)
    requires q < q' && r < d
    ensures q * d + r < q' * d
  {
    assert q' * d == (q' - 1) * d + d;
    if q < q' - 1 {
      Less(d, q, r, q' - 1);
    }
  }

  lemma Quotient(n: nat, d: nat, q: nat, r: nat)
    requires d > 0 && n == q * d + r && r < d
    ensures n / d == q
  {
    if n / d < q {
      Less(d, n / d, n % d, q);
    } else if q < n / d {
      Less(d, q, r, n / d);
    }
  }

  lemma DivideTwice(n: nat, b: nat)
    requires b > 0
    ensures n / 256 / b == n / (256 * b)
  {
    var q, r := n / 256 / b, n / 256 % b;
    assert n / 256 == q * b + r;
    assert q * (256 * b) == 256 * (q * b);
    Quotient(n, 256 * b, q, 256 * r + n % 256);
  }

  /** The most significant byte comes first. */
  lemma {:induction false} BigEndianAt(n: nat, k: nat, i: nat)
    requires i < k
    ensures BigEndian(n, k)[i] == n / Pow256(k - 1 - i) % 256
  {
    if i < k - 1 {
      BigEndianAt(n / 256, k - 1, i);
      DivideTwice(n, Pow256(k - 2 - i));
    } else {
      assert Pow256(0) == 1;
    }
  }

  // ----- little-endian, for the block height in the milestone metadata -----

  function LittleEndian(n: nat, k: nat): (b: seq<byte>)
    ensures |b| == k
  {
    if k == 0 then [] else [n % 256] + LittleEndian(n / 256, k - 1)
  }

  function FromLittleEndian(b: seq<byte>): (n: nat)
    ensures n < Pow256(|b|)
  {
    if |b| == 0 then 0 else b[0] + 256 * FromLittleEndian(b[1..])
  }

  /** The least significant byte comes first. */
  lemma {:induction false} LittleEndianAt(n: nat, k: nat, i: nat)
    requires i < k
    ensures LittleEndian(n, k)[i] == n / Pow256(i) % 256
  {
    if i > 0 {
      LittleEndianAt(n / 256, k - 1, i - 1);
      DivideTwice(n, Pow256(i - 1));
    } else {
      assert Pow256(0) == 1;
    }
  }

  lemma {:induction false} LittleEndianRoundTrip(n: nat, k: nat)
    requires n < Pow256(k)
    ensures FromLittleEndian(LittleEndian(n, k)) == n
  {
    if k > 0 {
      Divided(n, k - 1);
      LittleEndianRoundTrip(n / 256, k - 1);
    }
  }

  lemma Digits(n: nat, x: byte)
    ensures (256 * n + x) / 256 == n && (256 * n + x) % 256 == x
  {
  }

  lemma {:induction false} FromLittleEndianRoundTrip(b: seq<byte>)
    ensures LittleEndian(FromLittleEndian(b), |b|) == b
  {
    if |b| > 0 {
      Digits(FromLittleEndian(b[1..]), b[0]);
      FromLittleEndianRoundTrip(b[1..]);
      assert b == [b[0]] + b[1..];
    }
  }
}
