/** Counting in finite sets. */
module Sets {

  lemma SubsetSize<T>(a: set<T>, b: set<T>)
    requires a <= b
    ensures |a| <= |b|
  {
    assert b == a + (b - a);
  }

  /** Two subsets of the same set share at least what they have too much. */
  lemma IntersectionSize<T>(a: set<T>, b: set<T>, all: set<T>)
    requires a <= all && b <= all
    ensures |a * b| >= |a| + |b| - |all|
  {
    SubsetSize(a + b, all);
  }

  /** More than `f` elements, of which at most `f` are bad, contain a good one. */
  lemma GoodElement<T>(s: set<T>, bad: set<T>, f: int) returns (x: T)
    requires |s| > f && |s * bad| <= f
    ensures x in s && x !in bad
  {
    assert s <= bad ==> s * bad == s;
    x :| x in s && x !in bad;
  }
}
