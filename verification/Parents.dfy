/** How the parents of a milestone are chosen, and why one of them comes from an honest member. */
module Parents {
  import opened ByteStrings
  import opened Sets
  import opened Committees
  import opened AppData
  import opened Sorting

  /** The blocks that were proposed, and proved by more members than can be faulty. */
  ghost function Confirmed(c: Committee, a: App): set<Byte32> {
    set b | b in a.proofIssuersByBlockID && Count(a, b) > 0 && |ProofIssuers(a, b)| > c.f
  }

  /** The last milestone block is left out, because it becomes a parent anyway. */
  ghost function Candidates(c: Committee, a: App): set<Byte32> {
    Confirmed(c, a) - {a.state.lastMilestoneBlockID}
  }

  /** What remains when there are too many of them. */
  ghost function Kept(w: World, a: App, s: set<Byte32>): set<Byte32> {
    if |s| > w.blockMaxParents - 1 then First(a, s, w.blockMaxParents - 1) else s
  }

  ghost function MilestoneParents(w: World, c: Committee, a: App): seq<Byte32> {
    Sorted(Kept(w, a, Candidates(c, a)) + {a.state.lastMilestoneBlockID})
  }

  /** Whether enough proposals have been confirmed. */
  ghost predicate EnoughParents(c: Committee, a: App) {
    |IssuersOf(a, Confirmed(c, a))| > c.f
  }

  /** The size checks of New: room for a parent of an honest member, and for a signature of each member. */
  ghost predicate FitsLimits(w: World, c: Committee) {
    0 <= c.f && c.f + 1 <= w.blockMaxParents - 1 && c.n <= w.maxSignatures
  }

  ghost function Ranking(a: App, s: set<Byte32>): (r: seq<Byte32>)
    ensures Ranked(a, r) && Elements(r) == s
  {
    if s == {} then []
    else
      var x :| x in s;
      var r := Ranking(a, s - {x});
      assert x !in Elements(r);
      InsertIsRanked(a, x, r);
      InsertRanked(a, x, r)
  }

  lemma FirstSize(a: App, s: set<Byte32>, k: nat)
    requires |s| >= k
    ensures First(a, s, k) <= s && |First(a, s, k)| == k
  {
    var r := Ranking(a, s);
    RankedSize(a, r);
    PrefixIsFirst(a, r, k);
  }

  lemma KeptSize(w: World, a: App, s: set<Byte32>)
    requires w.blockMaxParents >= 1
    ensures Kept(w, a, s) <= s && |Kept(w, a, s)| <= w.blockMaxParents - 1
    ensures Kept(w, a, s) == s || |Kept(w, a, s)| == w.blockMaxParents - 1
  {
    if |s| > w.blockMaxParents - 1 {
      FirstSize(a, s, w.blockMaxParents - 1);
    }
  }

  lemma ParentsElements(w: World, c: Committee, a: App)
    ensures Ascending(MilestoneParents(w, c, a))
    ensures Elements(MilestoneParents(w, c, a)) == Kept(w, a, Candidates(c, a)) + {a.state.lastMilestoneBlockID}
  {
  }

  /** What is cut off was proposed by no more members than anything that is kept; if by as many, it has the larger
      identifier. */
  lemma KeptAreMostProposed(w: World, a: App, s: set<Byte32>, x: Byte32, y: Byte32)
    requires x in Kept(w, a, s) && y in s && y !in Kept(w, a, s)
    ensures Count(a, x) >= Count(a, y) && (Count(a, x) == Count(a, y) ==> x < y)
  {
    if !Before(a, x, y) {
      assert Before(a, y, x);
      SubsetSize(Predecessors(a, s, y), Predecessors(a, s, x));
    }
  }

  /** The proposers of blocks that are all proposed by fewer members, and not more of them, are not more. */
  lemma {:induction false} FewerIssuers(c: Committee, a: App, s: set<Byte32>, t: set<Byte32>)
    requires Counted(c, a) && |t| <= |s|
    requires forall x, y | x in s && y in t :: Count(a, x) >= Count(a, y)
    ensures |IssuersOf(a, t)| <= |IssuersOf(a, s)|
  {
    hide IssuersOf;
    if t == {} {
      IssuersGrow(a, t, s);
    } else {
      var x :| x in s;
      var y :| y in t;
      FewerIssuers(c, a, s - {x}, t - {y});
      IssuersSplit(a, s - {x}, x);
      IssuersSplit(a, t - {y}, y);
      assert s - {x} + {x} == s && t - {y} + {y} == t;
      assert Count(a, x) == |IssuersOf(a, {x})| && Count(a, y) == |IssuersOf(a, {y})|;
    }
  }

  lemma IssuersUnion(a: App, s: set<Byte32>, t: set<Byte32>)
    requires s !! t
    ensures |IssuersOf(a, s + t)| == |IssuersOf(a, s)| + |IssuersOf(a, t)|
  {
    assert IssuersOf(a, s + t) == IssuersOf(a, s) + IssuersOf(a, t);
  }

  /** No choice of as many blocks has more proposers than what is kept. */
  lemma KeptHaveMostIssuers(w: World, c: Committee, a: App, s: set<Byte32>, t: set<Byte32>)
    requires Counted(c, a) && t <= s && |t| <= |Kept(w, a, s)|
    ensures |IssuersOf(a, t)| <= |IssuersOf(a, Kept(w, a, s))|
  {
    hide IssuersOf, Kept, Counted;
    var kept := Kept(w, a, s);
    var both := kept * t;
    assert kept == both + (kept - t) && t == both + (t - kept);
    assert |kept| == |both| + |kept - t| && |t| == |both| + |t - kept|;
    forall x, y | x in kept - t && y in t - kept ensures Count(a, x) >= Count(a, y) {
      KeptAreMostProposed(w, a, s, x, y);
    }
    FewerIssuers(c, a, kept - t, t - kept);
    IssuersUnion(a, both, kept - t);
    IssuersUnion(a, both, t - kept);
  }

  /** The confirmed blocks that are no parents, if any, are those proposed by the fewest members, and there is no room
      for them. */
  lemma DroppedAreLeastProposed(w: World, c: Committee, a: App, x: Byte32, y: Byte32)
    requires FitsLimits(w, c) && x in MilestoneParents(w, c, a) && x != a.state.lastMilestoneBlockID
    requires y in Confirmed(c, a) && y !in MilestoneParents(w, c, a)
    ensures Count(a, x) >= Count(a, y) && (Count(a, x) == Count(a, y) ==> x < y)
    ensures |MilestoneParents(w, c, a)| == w.blockMaxParents
  {
    hide Kept, MilestoneParents, Confirmed;
    var s, parents := Candidates(c, a), MilestoneParents(w, c, a);
    ParentsElements(w, c, a);
    ParentsShape(w, c, a);
    assert a.state.lastMilestoneBlockID in Elements(parents) && x in Elements(parents) && y !in Elements(parents);
    KeptAreMostProposed(w, a, s, x, y);
    KeptSize(w, a, s);
    AscendingSize(parents);
  }

  /** The parents are sorted and without duplicates, at most as many as a block can have, contain the last
      milestone block, and are confirmed otherwise; all confirmed blocks are among them, if there is room. */
  lemma ParentsShape(w: World, c: Committee, a: App)
    requires FitsLimits(w, c)
    ensures var parents := MilestoneParents(w, c, a);
      && Ascending(parents)
      && 1 <= |parents| <= w.blockMaxParents
      && a.state.lastMilestoneBlockID in parents
      && (forall b | b in parents && b != a.state.lastMilestoneBlockID :: b in Confirmed(c, a))
      && (|parents| < w.blockMaxParents ==> forall b | b in Confirmed(c, a) :: b in parents)
  {
    hide Kept, MilestoneParents, Confirmed;
    var parents := MilestoneParents(w, c, a);
    KeptSize(w, a, Candidates(c, a));
    ParentsElements(w, c, a);
    AscendingSize(parents);
    assert a.state.lastMilestoneBlockID in Elements(parents);
    assert forall b | b in parents :: b in Elements(parents);
  }

  lemma IssuersGrow(a: App, s: set<Byte32>, t: set<Byte32>)
    requires s <= t
    ensures |IssuersOf(a, s)| <= |IssuersOf(a, t)|
  {
    SubsetSize(IssuersOf(a, s), IssuersOf(a, t));
  }

  /** More members than can be faulty proposed one of the parents, however many proposals had to be dropped. */
  lemma ParentsKeepIssuers(w: World, c: Committee, a: App)
    requires FitsLimits(w, c) && Counted(c, a) && EnoughParents(c, a)
    ensures |IssuersOf(a, Elements(MilestoneParents(w, c, a)))| > c.f
  {
    hide Kept, MilestoneParents, IssuersOf;
    var s, kept, last := Candidates(c, a), Kept(w, a, Candidates(c, a)), a.state.lastMilestoneBlockID;
    ParentsElements(w, c, a);
    KeptSize(w, a, s);
    if kept == s {
      IssuersGrow(a, Confirmed(c, a), kept + {last});
    } else {
      BlocksHaveIssuers(c, a, kept);
      IssuersGrow(a, kept, kept + {last});
    }
  }

  /** So a parent of an honest member survives. */
  lemma HonestParentSurvives(w: World, c: Committee, a: App, faulty: set<Byte32>) returns (p: Byte32)
    requires FitsLimits(w, c) && Counted(c, a) && EnoughParents(c, a)
    requires |faulty * c.members(a.state.milestoneIndex)| <= c.f
    ensures p in a.parentByIssuer && p !in faulty && p in c.members(a.state.milestoneIndex)
    ensures a.parentByIssuer[p] in MilestoneParents(w, c, a)
  {
    var issuers := IssuersOf(a, Elements(MilestoneParents(w, c, a)));
    ParentsKeepIssuers(w, c, a);
    SubsetSize(issuers * faulty, faulty * c.members(a.state.milestoneIndex));
    p := GoodElement(issuers, faulty, c.f);
  }

  /** And every parent but the last milestone block was proved valid by an honest member. */
  lemma HonestProof(w: World, c: Committee, a: App, faulty: set<Byte32>, b: Byte32) returns (p: Byte32)
    requires FitsLimits(w, c) && Counted(c, a)
    requires |faulty * c.members(a.state.milestoneIndex)| <= c.f
    requires b in MilestoneParents(w, c, a) && b != a.state.lastMilestoneBlockID
    ensures p in ProofIssuers(a, b) && p !in faulty && p in c.members(a.state.milestoneIndex)
  {
    ParentsShape(w, c, a);
    SubsetSize(ProofIssuers(a, b) * faulty, faulty * c.members(a.state.milestoneIndex));
    p := GoodElement(ProofIssuers(a, b), faulty, c.f);
  }

  // ----- the limits -----

  /** Every member of `s` has proposed a block of its own, and all of them have proved all these blocks. */
  function AllDifferent(state: State, s: set<Byte32>): App {
    App(state, map p | p in s :: p, map p | p in s :: 1, map p | p in s :: s, None, map[])
  }

  lemma AllDifferentConfirmed(c: Committee, state: State, s: set<Byte32>)
    requires s <= c.members(state.milestoneIndex) && |s| > c.f >= 0
    ensures var a := AllDifferent(state, s);
      && Counted(c, a) && Confirmed(c, a) == s && EnoughParents(c, a)
      && forall t | t <= s :: IssuersOf(a, t) == t
  {
    var a := AllDifferent(state, s);
    forall b ensures Count(a, b) == |IssuersOf(a, {b})| {
      assert IssuersOf(a, {b}) == if b in s then {b} else {};
    }
    assert Confirmed(c, a) == s;
    forall t | t <= s ensures IssuersOf(a, t) == t {
    }
  }

  /** The first check of New is needed: with less room, no parent of an honest member need be left when some confirmed
      blocks have to be dropped. */
  lemma LimitsAreNeeded(w: World, c: Committee, state: State, s: set<Byte32>) returns (a: App, faulty: set<Byte32>)
    requires !FitsLimits(w, c) && c.f >= 0 && c.n <= w.maxSignatures && w.blockMaxParents >= 1
    requires s <= c.members(state.milestoneIndex) && |s| == c.f + 1 && state.lastMilestoneBlockID !in s
    ensures Counted(c, a) && EnoughParents(c, a) && |faulty| <= c.f
    ensures forall p | p in a.parentByIssuer && a.parentByIssuer[p] in MilestoneParents(w, c, a) :: p in faulty
  {
    hide Counted, Confirmed, MilestoneParents, EnoughParents, Kept;
    a := AllDifferent(state, s);
    AllDifferentConfirmed(c, state, s);
    KeptSize(w, a, s);
    faulty := Kept(w, a, s);
    ParentsElements(w, c, a);
    assert Candidates(c, a) == s;
    forall p | p in a.parentByIssuer && a.parentByIssuer[p] in MilestoneParents(w, c, a) ensures p in faulty {
      assert a.parentByIssuer[p] in Elements(MilestoneParents(w, c, a));
    }
  }
}
