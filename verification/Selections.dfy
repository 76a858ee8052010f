/** When a selection of tips destroys the past cones: what can be told before it starts. */
module Selections {
  import opened ByteStrings
  import opened Sets
  import opened Coverage
  import opened Tangle

  /** What a selection from `v` can end with, whatever the tie-breaks and the timeout: its picks, and how many of
      them it referenced. The last pick is not referenced if the selection stopped because it had `maxTips` of them
      or because the time was over; it is if there was no tip left, or none that was worth it. */
  ghost predicate Outcome(v: View, maxTips: nat, minRequiredTips: int, limit: real, picks: seq<nat>, m: nat) {
    && Greedy(v.refs, v.tips, picks) && |picks| <= maxTips && Accepted(v, limit, minRequiredTips, picks)
    && m <= |picks| <= m + 1
    && (m == |picks| > 0 ==>
      && |picks| < maxTips
      && (Elements(picks) == v.tips || (|picks| >= minRequiredTips && NothingWorthwhile(v, limit, picks))))
  }

  function Size(refs: seq<set<nat>>, t: nat): nat {
    if t < |refs| then |refs[t]| else 0
  }

  ghost function Heavier(v: View, p: nat): set<nat> {
    set t | t in v.tips && Size(v.refs, t) > Size(v.refs, p)
  }

  /** Whether the tip can be picked before the last turn: not too many tips reference more blocks, and it is either
      required or references enough compared to every tip. */
  ghost predicate MayBeReferenced(v: View, maxTips: nat, minRequiredTips: int, limit: real, p: nat) {
    && |Heavier(v, p)| + 1 < maxTips
    && (|Heavier(v, p)| < minRequiredTips ||
        forall t | t in v.tips :: !TooLight(limit, Size(v.refs, p), Size(v.refs, t)))
  }

  /** Nothing that `p` references is referenced by another tip. */
  ghost predicate Alone(v: View, p: nat) {
    p < |v.refs| && forall q | q in v.tips && q != p && q < |v.refs| :: v.refs[p] !! v.refs[q]
  }

  ghost predicate AllAlone(v: View, s: set<nat>) {
    forall p | p in s :: Alone(v, p)
  }

  // ----- arithmetic -----

  lemma TooLightMonotone(limit: real, gain: nat, gain': nat, best: nat, best': nat)
    requires !TooLight(limit, gain, best) && gain <= gain' && best' <= best
    ensures !TooLight(limit, gain', best')
  {
    if best' > 0 {
      DivideMonotone(gain as real, gain' as real, best' as real);
      DivideAntitone(gain as real, best as real, best' as real);
    }
  }

  lemma DivideMonotone(a: real, b: real, c: real)
    requires a <= b && c > 0.0
    ensures a / c <= b / c
  {
  }

  lemma DivideAntitone(a: real, b: real, c: real)
    requires a >= 0.0 && b >= c > 0.0
    ensures a / b <= a / c
  {
    var x, y := a / b, a / c;
    assert x * b == a && y * c == a;
    assert x * b >= x * c;
    assert (y - x) * c >= 0.0;
  }

  // ----- picks that share nothing with the others -----

  /** As long as the picks are alone, the other tips keep all their bits. */
  lemma AloneResidual(v: View, picks: seq<nat>, t: nat)
    requires AllAlone(v, Elements(picks)) && t in v.tips && t < |v.refs| && t !in picks
    ensures Residual(v.refs, picks, t) == v.refs[t]
  {
    forall p | p in Elements(picks) && p < |v.refs| ensures v.refs[p] !! v.refs[t] {
      assert Alone(v, p);
    }
  }

  lemma {:induction false} ElementsSize(picks: seq<nat>)
    ensures |Elements(picks)| <= |picks|
    ensures Distinct(picks) ==> |Elements(picks)| == |picks|
  {
    if picks == [] {
      assert Elements(picks) == {};
    } else {
      var before := picks[..|picks| - 1];
      ElementsSize(before);
      assert Elements(picks) == Elements(before) + {picks[|picks| - 1]};
      assert Distinct(picks) ==> picks[|picks| - 1] !in Elements(before);
    }
  }

  lemma AloneGain(v: View, picks: seq<nat>, j: nat)
    requires Greedy(v.refs, v.tips, picks) && j < |picks| && AllAlone(v, Elements(picks[..j]))
    ensures Gain(v.refs, picks, j) == Size(v.refs, picks[j])
  {
    assert picks[j] !in picks[..j];
    AloneResidual(v, picks[..j], picks[j]);
  }

  // ----- nothing is destroyed -----

  lemma PickOutweighs(v: View, picks: seq<nat>, i: nat)
    requires Greedy(v.refs, v.tips, picks) && i < |picks| && AllAlone(v, Elements(picks[..i]))
    ensures forall t | t in v.tips && t !in picks[..i] :: Size(v.refs, t) <= Size(v.refs, picks[i])
    ensures Heavier(v, picks[i]) <= Elements(picks[..i])
  {
    AloneGain(v, picks, i);
    forall t | t in v.tips && t !in picks[..i] ensures Size(v.refs, t) <= Size(v.refs, picks[i]) {
      AloneResidual(v, picks[..i], t);
      assert BestPick(v.refs, v.tips, picks, i);
    }
  }

  /** A pick that was referenced is one that could be told to be. */
  lemma ReferencedMayBe(v: View, maxTips: nat, minRequiredTips: int, limit: real, picks: seq<nat>, m: nat, i: nat)
    requires Outcome(v, maxTips, minRequiredTips, limit, picks, m) && i < m
    requires AllAlone(v, Elements(picks[..i]))
    ensures MayBeReferenced(v, maxTips, minRequiredTips, limit, picks[i])
  {
    hide NothingWorthwhile, TooLight, Greedy, Accepted, Heavier, Gain, Alone;
    PickOutweighs(v, picks, i);
    SubsetSize(Heavier(v, picks[i]), Elements(picks[..i]));
    ElementsSize(picks[..i]);
    if i >= minRequiredTips {
      forall t | t in v.tips ensures !TooLight(limit, Size(v.refs, picks[i]), Size(v.refs, t)) {
        AcceptedPick(v, minRequiredTips, limit, picks, i, t);
      }
    }
  }

  lemma AcceptedPick(v: View, minRequiredTips: int, limit: real, picks: seq<nat>, i: nat, t: nat)
    requires Greedy(v.refs, v.tips, picks) && Accepted(v, limit, minRequiredTips, picks)
    requires minRequiredTips <= i < |picks| && t in v.tips && AllAlone(v, Elements(picks[..i]))
    ensures !TooLight(limit, Size(v.refs, picks[i]), Size(v.refs, t))
  {
    hide TooLight, Greedy, Gain, Heavier;
    AloneGain(v, picks, i);
    assert picks[..0] == [] && AllAlone(v, Elements(picks[..0]));
    AloneGain(v, picks, 0);
    PickOutweighs(v, picks, 0);
    TooLightMonotone(limit, Gain(v.refs, picks, i), Size(v.refs, picks[i]), Gain(v.refs, picks, 0), Size(v.refs, t));
  }

  lemma {:induction false} ReferencedAlone(v: View, maxTips: nat, minRequiredTips: int, limit: real,
                                           picks: seq<nat>, m: nat, i: nat)
    requires Outcome(v, maxTips, minRequiredTips, limit, picks, m) && i <= m
    requires forall p | p in v.tips && MayBeReferenced(v, maxTips, minRequiredTips, limit, p) :: Alone(v, p)
    ensures AllAlone(v, Elements(picks[..i]))
  {
    hide MayBeReferenced, Alone, BestPick, Accepted, NothingWorthwhile, TooLight;
    if i > 0 {
      ReferencedAlone(v, maxTips, minRequiredTips, limit, picks, m, i - 1);
      ReferencedMayBe(v, maxTips, minRequiredTips, limit, picks, m, i - 1);
      assert picks[..i] == picks[..i - 1] + [picks[i - 1]];
    }
  }

  lemma AloneKeepsCones(v: View, maxTips: nat, minRequiredTips: int, limit: real, picks: seq<nat>, m: nat)
    requires Consistent(v) && Intact(v) && Outcome(v, maxTips, minRequiredTips, limit, picks, m)
    requires forall p | p in v.tips && MayBeReferenced(v, maxTips, minRequiredTips, limit, p) :: Alone(v, p)
    ensures Intact(AfterSelection(v, picks, m))
  {
    hide Intact, AfterSelection, MayBeReferenced, Accepted, NothingWorthwhile;
    IntactSelect(v, picks, m);
    forall t: nat | t in v.tips ensures v.refs[t] !! Covered(v.refs, picks[..Subtracted(picks, m, t)]) {
      var k := Subtracted(picks, m, t);
      ReferencedAlone(v, maxTips, minRequiredTips, limit, picks, m, k);
      AloneResidual(v, picks[..k], t);
    }
  }

  // ----- something is destroyed -----

  /** `s` holds whatever is heavier than one of its elements. */
  ghost predicate Topmost(v: View, s: set<nat>) {
    s <= v.tips && forall p, q | p in s && q in v.tips && q !in s :: Size(v.refs, q) <= Size(v.refs, p)
  }

  lemma {:induction false} Lightest(v: View, s: set<nat>) returns (x: nat)
    requires s != {}
    ensures x in s && forall y | y in s :: Size(v.refs, x) <= Size(v.refs, y)
  {
    x :| x in s;
    if s - {x} != {} {
      var y := Lightest(v, s - {x});
      if Size(v.refs, y) < Size(v.refs, x) {
        x := y;
      }
    }
  }

  /** The heaviest tips can be picked first, if they are alone. */
  lemma {:induction false} PickTopmost(v: View, s: set<nat>) returns (picks: seq<nat>)
    requires Consistent(v) && Topmost(v, s) && AllAlone(v, s)
    ensures Greedy(v.refs, v.tips, picks) && Elements(picks) == s && |picks| == |s|
  {
    hide Consistent, Alone, Greedy, Topmost;
    TipsHaveBits(v);
    if s == {} {
      picks := [];
      assert Elements(picks) == {};
      NoPicks(v);
    } else {
      var x := Lightest(v, s);
      TopmostRest(v, s, x);
      picks := PickTopmost(v, s - {x});
      assert x !in Elements(picks);
      PickNext(v, picks, x);
      ElementsSnoc(picks, x);
      picks := picks + [x];
      assert s - {x} + {x} == s;
    }
  }

  lemma ElementsSnoc(picks: seq<nat>, x: nat)
    ensures Elements(picks + [x]) == Elements(picks) + {x}
  {
  }

  lemma NoPicks(v: View)
    requires Consistent(v)
    ensures Greedy(v.refs, v.tips, [])
  {
  }

  lemma TopmostRest(v: View, s: set<nat>, x: nat)
    requires Topmost(v, s) && x in s && forall y | y in s :: Size(v.refs, x) <= Size(v.refs, y)
    ensures Topmost(v, s - {x}) && x in v.tips
    ensures forall y | y in v.tips && y !in s - {x} :: Size(v.refs, y) <= Size(v.refs, x)
  {
  }

  lemma TipsHaveBits(v: View)
    requires Consistent(v)
    ensures forall t: nat | t in v.tips :: t < |v.refs|
  {
  }

  /** A tip that is as heavy as all the others that are left is the next pick. */
  lemma PickNext(v: View, picks: seq<nat>, x: nat)
    requires Greedy(v.refs, v.tips, picks) && AllAlone(v, Elements(picks))
    requires x in v.tips && x !in picks
    requires forall y | y in v.tips && y !in picks :: Size(v.refs, y) <= Size(v.refs, x)
    ensures Greedy(v.refs, v.tips, picks + [x])
  {
    hide Alone;
    AloneResidual(v, picks, x);
    forall y: nat | y in v.tips && y !in picks ensures |Residual(v.refs, picks, y)| <= |Residual(v.refs, picks, x)| {
      AloneResidual(v, picks, y);
    }
    GreedySnoc(v.refs, v.tips, picks, x);
  }

  lemma HeavierMayBe(v: View, maxTips: nat, minRequiredTips: int, limit: real, p: nat, q: nat)
    requires MayBeReferenced(v, maxTips, minRequiredTips, limit, p) && q in Heavier(v, p)
    ensures MayBeReferenced(v, maxTips, minRequiredTips, limit, q) && |Heavier(v, q)| < |Heavier(v, p)|
  {
    hide TooLight;
    SubsetSize(Heavier(v, q) + {q}, Heavier(v, p));
    if |Heavier(v, q)| >= minRequiredTips {
      forall t | t in v.tips ensures !TooLight(limit, Size(v.refs, q), Size(v.refs, t)) {
        TooLightMonotone(limit, Size(v.refs, p), Size(v.refs, q), Size(v.refs, t), Size(v.refs, t));
      }
    }
  }

  /** The heaviest culprit: a tip that may be referenced and is not alone, while all heavier ones are. */
  lemma {:induction false} Culprit(v: View, maxTips: nat, minRequiredTips: int, limit: real, p: nat) returns (c: nat)
    requires p in v.tips && MayBeReferenced(v, maxTips, minRequiredTips, limit, p) && !Alone(v, p)
    ensures c in v.tips && MayBeReferenced(v, maxTips, minRequiredTips, limit, c) && !Alone(v, c)
    ensures AllAlone(v, Heavier(v, c))
    decreases |Heavier(v, p)|
  {
    hide MayBeReferenced, Alone;
    if q :| q in Heavier(v, p) && !Alone(v, q) {
      HeavierMayBe(v, maxTips, minRequiredTips, limit, p, q);
      c := Culprit(v, maxTips, minRequiredTips, limit, q);
    } else {
      c := p;
    }
  }

  /** The culprit is picked after all the heavier tips, and every pick so far is accepted. */
  lemma PickCulprit(v: View, maxTips: nat, minRequiredTips: int, limit: real, c: nat) returns (picks: seq<nat>)
    requires Consistent(v) && c in v.tips && AllAlone(v, Heavier(v, c))
    requires MayBeReferenced(v, maxTips, minRequiredTips, limit, c)
    ensures Greedy(v.refs, v.tips, picks) && Accepted(v, limit, minRequiredTips, picks)
    ensures 0 < |picks| < maxTips && Elements(picks) == Heavier(v, c) + {c}
  {
    hide Consistent, Alone, TooLight, Greedy, Accepted, MayBeReferenced;
    HeavierIsTopmost(v, c);
    var before := PickTopmost(v, Heavier(v, c));
    assert c !in Elements(before);
    PickNext(v, before, c);
    ElementsSnoc(before, c);
    picks := before + [c];
    assert picks[..|picks| - 1] == before;
    MayBeSize(v, maxTips, minRequiredTips, limit, c);
    CulpritAccepted(v, maxTips, minRequiredTips, limit, c, picks);
  }

  lemma HeavierIsTopmost(v: View, c: nat)
    ensures Topmost(v, Heavier(v, c))
  {
  }

  lemma MayBeSize(v: View, maxTips: nat, minRequiredTips: int, limit: real, p: nat)
    requires MayBeReferenced(v, maxTips, minRequiredTips, limit, p)
    ensures |Heavier(v, p)| + 1 < maxTips
  {
  }

  lemma CulpritAccepted(v: View, maxTips: nat, minRequiredTips: int, limit: real, c: nat, picks: seq<nat>)
    requires Consistent(v) && Greedy(v.refs, v.tips, picks) && picks != [] && picks[|picks| - 1] == c
    requires AllAlone(v, Heavier(v, c)) && Elements(picks[..|picks| - 1]) == Heavier(v, c)
    requires |picks| == |Heavier(v, c)| + 1 && MayBeReferenced(v, maxTips, minRequiredTips, limit, c)
    ensures Accepted(v, limit, minRequiredTips, picks)
  {
    hide Consistent, Alone, TooLight;
    forall j | 0 <= j < |picks| ensures Gain(v.refs, picks, j) == Size(v.refs, picks[j]) >= Size(v.refs, c) {
      assert forall x | x in picks[..j] :: x in picks[..|picks| - 1];
      AloneGain(v, picks, j);
      assert j < |picks| - 1 ==> picks[j] in Elements(picks[..|picks| - 1]);
    }
    TipBits(v, picks[0]);
    forall j | 0 <= j < |picks| && j >= minRequiredTips
      ensures !TooLight(limit, Gain(v.refs, picks, j), Gain(v.refs, picks, 0))
    {
      assert picks[0] in v.tips;
      TooLightMonotone(limit, Size(v.refs, c), Gain(v.refs, picks, j), Gain(v.refs, picks, 0), Gain(v.refs, picks, 0));
    }
  }

  lemma TipBits(v: View, t: nat)
    requires Consistent(v) && t in v.tips
    ensures Size(v.refs, t) > 0
  {
    TipOwnsItsBit(v, t);
  }

  lemma {:induction false} MostGaining(v: View, picks: seq<nat>, left: set<nat>) returns (t: nat)
    requires left != {}
    ensures t in left && forall x | x in left :: |Residual(v.refs, picks, x)| <= |Residual(v.refs, picks, t)|
  {
    t :| t in left;
    if left - {t} != {} {
      var x := MostGaining(v, picks, left - {t});
      if |Residual(v.refs, picks, x)| > |Residual(v.refs, picks, t)| {
        t := x;
      }
    }
  }

  /** Accepted picks that are neither too many nor all the tips go on to an outcome that references them all. */
  lemma GoOn(v: View, maxTips: nat, minRequiredTips: int, limit: real, picks: seq<nat>) returns (all: seq<nat>)
    requires Consistent(v) && minRequiredTips >= 1
    requires Greedy(v.refs, v.tips, picks) && Accepted(v, limit, minRequiredTips, picks)
    requires 0 < |picks| < maxTips && Elements(picks) != v.tips
    ensures Outcome(v, maxTips, minRequiredTips, limit, all, |picks|) && |picks| <= |all| && all[..|picks|] == picks
  {
    hide Consistent, TooLight, NothingWorthwhile, BestPick, Residual;
    var left := v.tips - Elements(picks);
    LeftNotEmpty(v, picks);
    var t := MostGaining(v, picks, left);
    var gain := |Residual(v.refs, picks, t)|;
    if |picks| >= minRequiredTips && TooLight(limit, gain, Gain(v.refs, picks, 0)) {
      LightestToo(v, limit, picks, left, gain);
      all := picks;
    } else {
      GreedySnoc(v.refs, v.tips, picks, t);
      TipsOwnTheirBits(v);
      OwnBitLeft(v, picks, t);
      AcceptedSnoc(v, limit, minRequiredTips, picks, t);
      all := picks + [t];
    }
  }

  lemma LeftNotEmpty(v: View, picks: seq<nat>)
    requires Greedy(v.refs, v.tips, picks) && Elements(picks) != v.tips
    ensures v.tips - Elements(picks) != {}
  {
    forall p | p in Elements(picks) ensures p in v.tips {
      var j :| 0 <= j < |picks| && picks[j] == p;
    }
    assert Elements(picks) <= v.tips && !(v.tips <= Elements(picks));
    var t :| t in v.tips && t !in Elements(picks);
    assert t in v.tips - Elements(picks);
  }

  lemma CulpritDestroys(v: View, maxTips: nat, minRequiredTips: int, limit: real, p: nat)
    returns (picks: seq<nat>, m: nat)
    requires Consistent(v) && Intact(v) && minRequiredTips >= 1
    requires p in v.tips && MayBeReferenced(v, maxTips, minRequiredTips, limit, p) && !Alone(v, p)
    ensures Outcome(v, maxTips, minRequiredTips, limit, picks, m) && !Intact(AfterSelection(v, picks, m))
  {
    hide Consistent, Intact, AfterSelection, MayBeReferenced, Accepted, Greedy, NothingWorthwhile;
    TipsHaveBits(v);
    var c := Culprit(v, maxTips, minRequiredTips, limit, p);
    var before := PickCulprit(v, maxTips, minRequiredTips, limit, c);
    var q :| q in v.tips && q != c && q < |v.refs| && !(v.refs[c] !! v.refs[q]);
    assert q in Heavier(v, c) ==> Alone(v, q);
    NotAlone(v, c, q);
    assert q !in Elements(before);
    picks := GoOn(v, maxTips, minRequiredTips, limit, before);
    m := |before|;
    PicksAreTips(v, picks);
    assert c in Elements(picks[..m]) && q !in picks[..m];
    SharedBitIsLost(v, picks, m, c, q);
  }

  lemma NotAlone(v: View, c: nat, q: nat)
    requires c in v.tips && c < |v.refs| && q < |v.refs| && q != c && !(v.refs[c] !! v.refs[q])
    ensures !Alone(v, q)
  {
  }

  lemma PicksAreTips(v: View, picks: seq<nat>)
    requires Greedy(v.refs, v.tips, picks)
    ensures forall j | 0 <= j < |picks| :: picks[j] in v.tips
  {
  }

  lemma SharedBitIsLost(v: View, picks: seq<nat>, m: nat, c: nat, q: nat)
    requires Consistent(v) && Intact(v) && m <= |picks|
    requires forall j | 0 <= j < |picks| :: picks[j] in v.tips
    requires c in picks[..m] && c < |v.refs| && q in v.tips && q < |v.refs| && q !in picks[..m]
    requires !(v.refs[c] !! v.refs[q])
    ensures !Intact(AfterSelection(v, picks, m))
  {
    hide Consistent, Intact, AfterSelection;
    IntactSelect(v, picks, m);
    var x :| x in v.refs[c] && x in v.refs[q];
    assert Subtracted(picks, m, q) == m;
    assert c in Elements(picks[..m]);
    assert x in Covered(v.refs, picks[..m]);
  }

  /** When the bitsets are sure to be past cones after a selection as they were before: if and only if every tip
      that may be referenced shares nothing with the other tips. In particular, if at most one tip is allowed. */
  lemma SelectionKeepsCones(v: View, maxTips: nat, minRequiredTips: int, limit: real)
    requires Consistent(v) && Intact(v) && minRequiredTips >= 1
    ensures
      (forall picks: seq<nat>, m: nat | Outcome(v, maxTips, minRequiredTips, limit, picks, m) ::
        Intact(AfterSelection(v, picks, m))) <==>
      (forall p | p in v.tips && MayBeReferenced(v, maxTips, minRequiredTips, limit, p) :: Alone(v, p))
    ensures maxTips <= 1 ==> forall p | p in v.tips :: !MayBeReferenced(v, maxTips, minRequiredTips, limit, p)
  {
    hide Consistent, Intact, AfterSelection, Alone, Greedy, Accepted, NothingWorthwhile;
    if forall p | p in v.tips && MayBeReferenced(v, maxTips, minRequiredTips, limit, p) :: Alone(v, p) {
      forall picks: seq<nat>, m: nat | Outcome(v, maxTips, minRequiredTips, limit, picks, m)
        ensures Intact(AfterSelection(v, picks, m))
      {
        AloneKeepsCones(v, maxTips, minRequiredTips, limit, picks, m);
      }
    } else {
      var p :| p in v.tips && MayBeReferenced(v, maxTips, minRequiredTips, limit, p) && !Alone(v, p);
      var picks, m := CulpritDestroys(v, maxTips, minRequiredTips, limit, p);
    }
  }

  /** Without limits, that is to say that no two tips share anything. */
  lemma UnlimitedSelection(v: View, maxTips: nat, minRequiredTips: int, limit: real)
    requires Consistent(v) && maxTips > |v.tips| && limit <= 0.0
    ensures forall p | p in v.tips :: MayBeReferenced(v, maxTips, minRequiredTips, limit, p)
  {
    hide Consistent;
    forall p | p in v.tips ensures MayBeReferenced(v, maxTips, minRequiredTips, limit, p) {
      SubsetSize(Heavier(v, p) + {p}, v.tips);
      forall t | t in v.tips && Size(v.refs, t) > 0
        ensures !TooLight(limit, Size(v.refs, p), Size(v.refs, t))
      {
        DivideMonotone(0.0, Size(v.refs, p) as real, Size(v.refs, t) as real);
      }
    }
  }

  // ----- an example -----

  /** The block 10 with its children 11 and 12. */
  const FORK := View([Node(10, {}), Node(11, {0}), Node(12, {0})], [{0}, {0, 1}, {0, 2}], {1, 2})

  const ONE := View([Node(10, {})], [{0}], {0})
  const TWO := View([Node(10, {}), Node(11, {0})], [{0}, {0, 1}], {1})

  lemma ForkOne()
    ensures AddBlock(EMPTY, 10, []) == ONE
  {
    hide AddBlock;
    NewBlock(EMPTY, 10, [], {}, {});
    var n: nat := 0;
    assert {n} + {} == {n} && {} - {} + {n} == {n};
    assert AddBlock(EMPTY, 10, []) == View([] + [Node(10, {})], [] + [{n}], {n});
  }

  lemma ForkTwo()
    ensures AddBlock(ONE, 11, [10]) == TWO
  {
    hide AddBlock, Union;
    FirstUnion(ONE.refs);
    NewBlock(ONE, 11, [10], {0}, {0});
    assert {1} + {0} == {0, 1};
  }

  lemma ForkThree()
    ensures AddBlock(TWO, 12, [10]) == FORK
  {
    hide AddBlock, Union;
    FirstUnion(TWO.refs);
    NewBlock(TWO, 12, [10], {0}, {0});
    assert {2} + {0} == {0, 2};
  }

  /** It is what a selector tracks after these three blocks. */
  lemma ForkIsReached()
    ensures AddBlock(AddBlock(AddBlock(EMPTY, 10, []), 11, [10]), 12, [10]) == FORK
  {
    hide AddBlock;
    ForkOne();
    ForkTwo();
    ForkThree();
  }

  lemma FirstUnion(refs: seq<set<nat>>)
    requires refs != [] && refs[0] == {0}
    ensures Union(refs, {0}) == {0} && Union(refs, {}) == {}
  {
    assert forall x :: x in Union(refs, {0}) <==> x in refs[0];
  }

  lemma NewBlock(v: View, id: Byte32, parents: seq<Byte32>, tracked: set<nat>, past: set<nat>)
    requires !IsTracked(v.dag, id) && TrackedParents(v.dag, parents) == tracked && Union(v.refs, tracked) == past
    ensures var n: nat := |v.dag|;
      AddBlock(v, id, parents) == View(v.dag + [Node(id, tracked)], v.refs + [{n} + past], v.tips - tracked + {n})
  {
  }

  lemma ForkCones()
    ensures PastCone(FORK.dag, 0) == {0} && PastCone(FORK.dag, 1) == {0, 1} && PastCone(FORK.dag, 2) == {0, 2}
  {
  }

  lemma ForkIsIntact()
    ensures Consistent(FORK) && Intact(FORK)
  {
    hide PastCone;
    ForkCones();
    assert 0 in FORK.dag[1].parents;
    forall i: nat ensures HasChild(FORK.dag, i) <==> i == 0 {
    }
  }

  lemma ForkCovered()
    ensures Covered(FORK.refs, []) == {} && Covered(FORK.refs, [1]) == {0, 1}
    ensures Residual(FORK.refs, [], 1) == {0, 1} && Residual(FORK.refs, [], 2) == {0, 2}
    ensures Residual(FORK.refs, [1], 2) == {2}
  {
    assert Elements([1]) == {1};
    assert FORK.refs[1] == {0, 1};
    forall x ensures x in Covered(FORK.refs, [1]) <==> x in {0, 1} {
      assert 1 in Elements([1]);
    }
  }

  lemma ForkOutcome()
    ensures Outcome(FORK, 2, 1, 0.6, [1], 1)
  {
    hide Covered, Residual;
    ForkCovered();
    assert [1][..0] == [];
    assert |{0, 1}| == |{0, 2}| == 2 && |{2}| == 1;
    assert BestPick(FORK.refs, FORK.tips, [1], 0);
  }

  /** A selection that returns one tip can destroy past cones: with a limit of 0.6, the tip of 11 is picked and
      referenced; then that of 12 gains too little, and has lost the bit of 10. */
  lemma OneTipDestroys()
    ensures AddBlock(AddBlock(AddBlock(EMPTY, 10, []), 11, [10]), 12, [10]) == FORK
    ensures Consistent(FORK) && Intact(FORK) && Outcome(FORK, 2, 1, 0.6, [1], 1)
    ensures AfterSelection(FORK, [1], 1).refs == [{0}, {0, 1}, {2}]
    ensures !Intact(AfterSelection(FORK, [1], 1))
  {
    hide Covered, Outcome, Consistent, AddBlock;
    ForkIsReached();
    ForkIsIntact();
    ForkCovered();
    ForkOutcome();
    assert [1][..0] == [] && [1][..1] == [1];
    assert Subtracted([1], 1, 1) == 0 && Subtracted([1], 1, 2) == 1;
    assert AfterSelection(FORK, [1], 1).refs == [{0}, {0, 1}, {2}];
    assert AfterSelection(FORK, [1], 1).refs[2] != FORK.refs[2];
  }

  // ----- which picks are worth it -----

  /** What the limit means: a pick that is not required gains at least that fraction of what the first one does; and if
      the selection did not stop for want of tips, of time or of room, every tip that is left would gain less. */
  lemma PicksAreWorthIt(v: View, maxTips: nat, minRequiredTips: int, limit: real, picks: seq<nat>, m: nat)
    requires Outcome(v, maxTips, minRequiredTips, limit, picks, m)
    ensures forall j | 0 <= j < |picks| && j >= minRequiredTips ::
      Gain(v.refs, picks, j) as real >= limit * Gain(v.refs, picks, 0) as real
    ensures m == |picks| > 0 && Elements(picks) != v.tips ==>
      forall t: nat | t in v.tips && t !in picks ::
        |Residual(v.refs, picks, t)| as real < limit * Gain(v.refs, picks, 0) as real
  {
    hide Greedy, Residual, Gain;
    forall j | 0 <= j < |picks| && j >= minRequiredTips
      ensures Gain(v.refs, picks, j) as real >= limit * Gain(v.refs, picks, 0) as real
    {
      TooLightMeans(limit, Gain(v.refs, picks, j), Gain(v.refs, picks, 0));
    }
    if m == |picks| > 0 && Elements(picks) != v.tips {
      forall t: nat | t in v.tips && t !in picks
        ensures |Residual(v.refs, picks, t)| as real < limit * Gain(v.refs, picks, 0) as real
      {
        TooLightMeans(limit, |Residual(v.refs, picks, t)|, Gain(v.refs, picks, 0));
      }
    }
  }

  lemma TooLightMeans(limit: real, gain: nat, best: nat)
    requires best > 0
    ensures TooLight(limit, gain, best) <==> gain as real < limit * best as real
  {
    var x := gain as real / best as real;
    assert x * best as real == gain as real;
    if x < limit {
      assert (limit - x) * best as real > 0.0;
    } else {
      assert (x - limit) * best as real >= 0.0;
    }
  }
}
