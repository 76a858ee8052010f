/** The sorts of the program, and that their results do not depend on the order of their input. */
module Sorting {
  import opened ByteStrings
  import opened AppData

  ghost function Elements(s: seq<Byte32>): set<Byte32> {
    set x | x in s
  }

  lemma ElementsCons(x: Byte32, s: seq<Byte32>)
    ensures Elements([x] + s) == {x} + Elements(s)
    ensures s != [] ==> Elements(s) == {s[0]} + Elements(s[1..])
    ensures s != [] ==> [s[0]] + s[1..] == s
  {
    assert s != [] ==> s == [s[0]] + s[1..];
  }

  lemma ElementsEmpty(s: seq<Byte32>)
    ensures Elements(s) == {} <==> s == []
  {
    if s != [] { assert s[0] in Elements(s); }
  }

  // ----- by identifier -----

  ghost predicate Ascending(s: seq<Byte32>) {
    forall i, j | 0 <= i < j < |s| :: s[i] < s[j]
  }

  function Insert(x: Byte32, s: seq<Byte32>): (r: seq<Byte32>)
    ensures Elements(r) == Elements(s) + {x}
  {
    if s == [] then [x]
    else if x < s[0] then ElementsCons(x, s); [x] + s
    else if x == s[0] then s
    else
      ElementsCons(x, s);
      ElementsCons(s[0], Insert(x, s[1..]));
      [s[0]] + Insert(x, s[1..])
  }

  lemma {:induction false} InsertAscending(x: Byte32, s: seq<Byte32>)
    requires Ascending(s)
    ensures Ascending(Insert(x, s))
  {
    if s != [] && x > s[0] {
      InsertAscending(x, s[1..]);
      var r := Insert(x, s[1..]);
      forall i | 0 <= i < |r| ensures s[0] < r[i] {
        assert r[i] in Elements(s[1..]) + {x};
      }
    }
  }

  /** Sorts the IDs and removes duplicates. */
  function RemoveDupsAndSort(s: seq<Byte32>): (r: seq<Byte32>)
    ensures Elements(r) == Elements(s)
  {
    if s == [] then []
    else
      assert s == [s[0]] + s[1..];
      Insert(s[0], RemoveDupsAndSort(s[1..]))
  }

  lemma {:induction false} SortAscending(s: seq<Byte32>)
    ensures Ascending(RemoveDupsAndSort(s))
  {
    if s != [] {
      SortAscending(s[1..]);
      InsertAscending(s[0], RemoveDupsAndSort(s[1..]));
    }
  }

  lemma {:induction false} AscendingUnique(s: seq<Byte32>, t: seq<Byte32>)
    requires Ascending(s) && Ascending(t) && Elements(s) == Elements(t)
    ensures s == t
  {
    if s == [] || t == [] {
      ElementsEmpty(s);
      ElementsEmpty(t);
    } else {
      assert s[0] in Elements(t) && t[0] in Elements(s);
      assert s[0] == t[0];
      forall x ensures x in Elements(s[1..]) <==> x in Elements(t[1..]) {
        assert x in Elements(s[1..]) <==> x in Elements(s) && x != s[0];
        assert x in Elements(t[1..]) <==> x in Elements(t) && x != t[0];
      }
      AscendingUnique(s[1..], t[1..]);
    }
  }

  lemma {:induction false} AscendingSize(s: seq<Byte32>)
    requires Ascending(s)
    ensures |Elements(s)| == |s|
  {
    if s == [] {
      assert Elements(s) == {};
    } else {
      AscendingSize(s[1..]);
      assert Elements(s) == Elements(s[1..]) + {s[0]};
    }
  }

  /** The elements of a set in ascending order. */
  ghost function Sorted(s: set<Byte32>): (r: seq<Byte32>)
    ensures Ascending(r) && Elements(r) == s
  {
    if s == {} then []
    else
      var x :| x in s;
      InsertAscending(x, Sorted(s - {x}));
      Insert(x, Sorted(s - {x}))
  }

  /** Whatever the order of the input and its duplicates, the result is determined by its elements. */
  lemma SortIsDetermined(s: seq<Byte32>)
    ensures RemoveDupsAndSort(s) == Sorted(Elements(s))
  {
    SortAscending(s);
    AscendingUnique(RemoveDupsAndSort(s), Sorted(Elements(s)));
  }

  // ----- parents: the most proposed first, then by identifier -----

  /** Whether `x` must sort before `y`. */
  predicate Before(a: App, x: Byte32, y: Byte32) {
    Count(a, x) > Count(a, y) || (Count(a, x) == Count(a, y) && x < y)
  }

  ghost predicate Ranked(a: App, s: seq<Byte32>) {
    forall i, j | 0 <= i < j < |s| :: Before(a, s[i], s[j])
  }

  /** The order is a strict total order, so that sorting by it has one result only. */
  lemma BeforeIsStrictTotalOrder(a: App, x: Byte32, y: Byte32, z: Byte32)
    ensures !Before(a, x, x)
    ensures x != y ==> (Before(a, x, y) <==> !Before(a, y, x))
    ensures Before(a, x, y) && Before(a, y, z) ==> Before(a, x, z)
  {
  }

  function InsertRanked(a: App, x: Byte32, s: seq<Byte32>): (r: seq<Byte32>)
    ensures Elements(r) == Elements(s) + {x} && |r| == |s| + 1
  {
    if s == [] then [x]
    else if Before(a, x, s[0]) then ElementsCons(x, s); [x] + s
    else
      ElementsCons(x, s);
      ElementsCons(s[0], InsertRanked(a, x, s[1..]));
      [s[0]] + InsertRanked(a, x, s[1..])
  }

  /** Sorts the parents in place of sort.Slice with the order `Before`. */
  function SortRanked(a: App, s: seq<Byte32>): (r: seq<Byte32>)
    ensures Elements(r) == Elements(s) && |r| == |s|
  {
    if s == [] then []
    else
      assert s == [s[0]] + s[1..];
      InsertRanked(a, s[0], SortRanked(a, s[1..]))
  }

  lemma {:induction false} InsertIsRanked(a: App, x: Byte32, s: seq<Byte32>)
    requires Ranked(a, s) && x !in s
    ensures Ranked(a, InsertRanked(a, x, s))
  {
    if s != [] && !Before(a, x, s[0]) {
      InsertIsRanked(a, x, s[1..]);
      var r := InsertRanked(a, x, s[1..]);
      forall i | 0 <= i < |r| ensures Before(a, s[0], r[i]) {
        assert r[i] in Elements(s[1..]) + {x};
      }
    }
  }

  lemma {:induction false} SortIsRanked(a: App, s: seq<Byte32>)
    requires forall i, j | 0 <= i < j < |s| :: s[i] != s[j]
    ensures Ranked(a, SortRanked(a, s))
  {
    if s != [] {
      SortIsRanked(a, s[1..]);
      assert s[0] !in Elements(SortRanked(a, s[1..]));
      InsertIsRanked(a, s[0], SortRanked(a, s[1..]));
    }
  }

  /** The `k` first elements of `s`, defined without sorting: those with fewer than `k` elements before them. */
  ghost function First(a: App, s: set<Byte32>, k: int): set<Byte32> {
    set x | x in s && |Predecessors(a, s, x)| < k
  }

  ghost function Predecessors(a: App, s: set<Byte32>, x: Byte32): set<Byte32> {
    set y | y in s && Before(a, y, x)
  }

  lemma {:induction false} RankedSize(a: App, r: seq<Byte32>)
    requires Ranked(a, r)
    ensures |Elements(r)| == |r|
  {
    if r == [] {
      assert Elements(r) == {};
    } else {
      RankedSize(a, r[1..]);
      assert Elements(r) == Elements(r[1..]) + {r[0]};
    }
  }

  /** Cutting off a ranked list after `k` elements keeps the first `k` elements of the set. */
  lemma PrefixIsFirst(a: App, r: seq<Byte32>, k: nat)
    requires Ranked(a, r) && k <= |r|
    ensures Elements(r[..k]) == First(a, Elements(r), k)
    ensures |First(a, Elements(r), k)| == k
  {
    forall i | 0 <= i < |r| ensures |Predecessors(a, Elements(r), r[i])| == i {
      assert Predecessors(a, Elements(r), r[i]) == Elements(r[..i]) by {
        forall y | y in Predecessors(a, Elements(r), r[i]) ensures y in r[..i] {
          var j :| 0 <= j < |r| && r[j] == y;
          assert !(i < j);
        }
      }
      RankedSize(a, r[..i]);
    }
    forall x ensures x in Elements(r[..k]) <==> x in First(a, Elements(r), k) {
      if x in Elements(r) {
        var i :| 0 <= i < |r| && r[i] == x;
        assert x in r[..k] <==> i < k;
      }
    }
    RankedSize(a, r[..k]);
  }

  // ----- signatures, by their public keys -----

  ghost predicate Keyed(s: seq<Signature>) {
    forall i, j | 0 <= i < j < |s| :: s[i].publicKey < s[j].publicKey
  }

  function InsertSignature(x: Signature, s: seq<Signature>): (r: seq<Signature>)
    ensures forall y :: y in r <==> y in s || y == x
  {
    if s == [] then [x]
    else if x.publicKey < s[0].publicKey then [x] + s
    else [s[0]] + InsertSignature(x, s[1..])
  }

  function SortSignatures(s: seq<Signature>): (r: seq<Signature>)
    ensures forall y :: y in r <==> y in s
  {
    if s == [] then [] else InsertSignature(s[0], SortSignatures(s[1..]))
  }

  lemma {:induction false} InsertKeyed(x: Signature, s: seq<Signature>)
    requires Keyed(s) && forall y | y in s :: y.publicKey != x.publicKey
    ensures Keyed(InsertSignature(x, s))
  {
    if s != [] && !(x.publicKey < s[0].publicKey) {
      assert s[0] in s;
      InsertKeyed(x, s[1..]);
      var r := InsertSignature(x, s[1..]);
      forall i | 0 <= i < |r| ensures s[0].publicKey < r[i].publicKey {
        assert r[i] in r;
        if r[i] != x {
          var j :| 0 <= j < |s[1..]| && s[1..][j] == r[i];
          assert s[j + 1] == r[i];
        }
      }
    }
  }

  lemma {:induction false} SortKeyed(s: seq<Signature>)
    requires forall i, j | 0 <= i < j < |s| :: s[i].publicKey != s[j].publicKey
    ensures Keyed(SortSignatures(s))
  {
    if s != [] {
      SortKeyed(s[1..]);
      forall y | y in SortSignatures(s[1..]) ensures y.publicKey != s[0].publicKey {
        var j :| 0 <= j < |s[1..]| && s[1..][j] == y;
        assert s[j + 1] == y;
      }
      InsertKeyed(s[0], SortSignatures(s[1..]));
    }
  }

  /** A list of signatures in the order of their keys is determined by what it contains. */
  lemma {:induction false} KeyedUnique(s: seq<Signature>, t: seq<Signature>)
    requires Keyed(s) && Keyed(t) && forall y :: y in s <==> y in t
    ensures s == t
  {
    if s == [] || t == [] {
      KeyedEmpty(s, t);
      KeyedEmpty(t, s);
    } else {
      assert s[0] in t && t[0] in s;
      var j :| 0 <= j < |t| && t[j] == s[0];
      var i :| 0 <= i < |s| && s[i] == t[0];
      assert i == 0 && j == 0;
      forall y ensures y in s[1..] <==> y in t[1..] {
        KeyedTail(s, y);
        KeyedTail(t, y);
      }
      KeyedUnique(s[1..], t[1..]);
    }
  }

  lemma KeyedEmpty(s: seq<Signature>, t: seq<Signature>)
    requires forall y :: y in s <==> y in t
    ensures s == [] ==> t == []
  {
    if t != [] { assert t[0] in t; }
  }

  lemma KeyedTail(s: seq<Signature>, y: Signature)
    requires Keyed(s) && s != []
    ensures y in s[1..] <==> y in s && y != s[0]
  {
    if y in s && y != s[0] {
      var k :| 0 <= k < |s| && s[k] == y;
      assert s[1..][k - 1] == y;
    }
  }
}
