/** The committee of validators and its thresholds. */
module Committees {
  import opened ByteStrings
  import opened Sets

  /** `members` gives the public keys that are applicable for a milestone index. */
  datatype Committee = Committee(id: Byte32, n: int, f: int, t: int, members: uint32 -> set<Byte32>)

  /** The number of Byzantine members that `n` members can tolerate. */
  function MaxFaulty(n: int): int
    requires n > 0
  {
    (n - 1) / 3
  }

  /** NewCommitteeFromManager; None stands for the panic on an empty committee. The faulty members are fewer than a
      third, and no larger number is. */
  function FromManager(id: Byte32, n: int, t: int, members: uint32 -> set<Byte32>): (c: Option<Committee>)
    ensures c.Some? <==> n > 0
    ensures c.Some? ==> c.value.n == n && c.value.t == t && 3 * c.value.f < n <= 3 * c.value.f + 3
  {
    if n <= 0 then None else Some(Committee(id, n, MaxFaulty(n), t, members))
  }

  ghost predicate Distinct(keys: seq<Byte32>) {
    forall i, j | 0 <= i < j < |keys| :: keys[i] != keys[j]
  }

  /** A committee whose threshold is what NewCommittee makes it: all members but the faulty ones. */
  ghost predicate Standard(c: Committee) {
    && c.n > 0 && c.f == MaxFaulty(c.n) && c.t == c.n - c.f
    && forall index: uint32 :: |c.members(index)| == c.n
  }

  /** Creates a committee with a fixed set of members; None stands for the panic on bad keys. */
  method NewCommittee(id: Byte32, publicKeys: seq<Byte32>) returns (c: Option<Committee>)
    ensures c.Some? <==> Distinct(publicKeys) && id in publicKeys
    ensures c.Some? ==>
      && Standard(c.value) && c.value.id == id && c.value.n == |publicKeys|
      && 3 * c.value.f < c.value.n <= 3 * c.value.f + 3 && c.value.t == c.value.n - c.value.f
      && forall index, key :: key in c.value.members(index) <==> key in publicKeys
  {
    var n := |publicKeys|;
    if n <= 0 {
      return None;
    }
    var keySet: set<Byte32> := {};
    for i := 0 to n
      invariant Distinct(publicKeys[..i]) && |keySet| == i
      invariant forall key :: key in keySet <==> key in publicKeys[..i]
    {
      assert publicKeys[..i + 1] == publicKeys[..i] + [publicKeys[i]];
      if publicKeys[i] in keySet {
        return None;
      }
      keySet := keySet + {publicKeys[i]};
    }
    assert publicKeys[..n] == publicKeys;
    if id !in keySet {
      return None;
    }
    c := FromManager(id, n, n - MaxFaulty(n), _ => keySet);
  }

  /** What NewCommittee makes is safe and live: its quorums overlap in more than F members, and do not need more than
      the honest ones. */
  lemma StandardIsBoth(c: Committee, index: uint32, faulty: set<Byte32>)
    requires Standard(c) && |faulty * c.members(index)| <= c.f
    ensures Overlapping(c, index, faulty) && IsEnough(c, c.members(index) - faulty)
  {
    EnoughHonest(c, index, faulty);
  }

  /** Any two quorums share more than the faulty members. */
  ghost predicate Overlapping(c: Committee, index: uint32, faulty: set<Byte32>) {
    2 * c.t > |c.members(index)| + |faulty * c.members(index)|
  }

  /** These members reach both thresholds without any others: more than F, for the proofs of a parent, and T. */
  ghost predicate IsEnough(c: Committee, honest: set<Byte32>) {
    0 <= c.f < |honest| && 0 < c.t <= |honest|
  }

  /** The honest members are enough if the threshold is at most N - F, whoever sets it. */
  lemma EnoughHonest(c: Committee, index: uint32, faulty: set<Byte32>)
    requires c.n > 0 && c.f == MaxFaulty(c.n) && |c.members(index)| == c.n
    requires 0 < c.t <= c.n - c.f && |faulty * c.members(index)| <= c.f
    ensures IsEnough(c, c.members(index) - faulty)
  {
    var members := c.members(index);
    assert members == (members - faulty) + faulty * members;
  }

  /** Any two quorums share more than the faulty members, for all thresholds that are large enough. */
  lemma QuorumsShareMoreThanFaulty(c: Committee, index: uint32, faulty: set<Byte32>, a: set<Byte32>, b: set<Byte32>)
    requires Overlapping(c, index, faulty)
    requires a <= c.members(index) && b <= c.members(index) && |a| >= c.t && |b| >= c.t
    ensures |a * b| > |faulty * c.members(index)|
  {
    var members := c.members(index);
    IntersectionSize(a, b, members);
  }

  /** Any two of the sets of at least `t` out of `n` members share more than `k` members. */
  ghost predicate ShareMore(n: int, t: int, k: int) {
    forall members: set<int>, a: set<int>, b: set<int> ::
      |members| == n && a <= members && b <= members && |a| >= t && |b| >= t ==> |a * b| > k
  }

  lemma SharesMore(n: int, t: int, k: int)
    requires 0 <= t <= n && k >= 0
    ensures ShareMore(n, t, k) <==> 2 * t > n + k
  {
    if 2 * t > n + k {
      forall members: set<int>, a: set<int>, b: set<int> |
        |members| == n && a <= members && b <= members && |a| >= t && |b| >= t
        ensures |a * b| > k
      {
        IntersectionSize(a, b, members);
      }
    } else {
      var members, a, b := ShareLittle(n, t, k);
    }
  }

  lemma ShareLittle(n: int, t: int, k: int) returns (members: set<int>, a: set<int>, b: set<int>)
    requires 0 <= t <= n && k >= 0 && 2 * t <= n + k
    ensures |members| == n && a <= members && b <= members && |a| >= t && |b| >= t && |a * b| <= k
  {
    members, a, b := Interval(0, n), Interval(0, t), Interval(n - t, n);
    assert a * b == if n - t < t then Interval(n - t, t) else {};
  }

  /** For which thresholds that is so: two quorums of `t` members are certain to share more than `f` exactly
      when twice the threshold exceeds n + f; n - f is such a threshold. */
  lemma QuorumThreshold(n: int, t: int)
    requires 0 < t <= n
    ensures ShareMore(n, t, MaxFaulty(n)) <==> 2 * t > n + MaxFaulty(n)
    ensures t == n - MaxFaulty(n) ==> ShareMore(n, t, MaxFaulty(n))
  {
    hide ShareMore;
    SharesMore(n, t, MaxFaulty(n));
  }

  /** Why F is what it is: it is the largest number of faulty members such that any two sets of all the others share
      more than the faulty ones. */
  lemma LargestFaulty(n: int, f: int)
    requires n > 0 && 0 <= f <= n
    ensures f <= MaxFaulty(n) <==> ShareMore(n, n - f, f)
  {
    hide ShareMore;
    SharesMore(n, n - f, f);
  }

  function Interval(lo: int, hi: int): (s: set<int>)
    ensures forall i :: i in s <==> lo <= i < hi
    ensures |s| == if lo < hi then hi - lo else 0
    decreases hi - lo
  {
    if lo >= hi then {} else Interval(lo, hi - 1) + {hi - 1}
  }
}
