/** Greedy maximum coverage over an indexed family of sets: what the tip selector computes. */
module Coverage {
  import opened Sets

  /** Everything covered by the sets with an index in `s`. */
  ghost function Union(refs: seq<set<nat>>, s: set<nat>): set<nat> {
    set i, x | i in s && i < |refs| && x in refs[i] :: x
  }

  ghost function Elements(picks: seq<nat>): set<nat> {
    set p | p in picks
  }

  ghost function Covered(refs: seq<set<nat>>, picks: seq<nat>): set<nat> {
    Union(refs, Elements(picks))
  }

  /** What the set `t` adds to the sets already picked. */
  ghost function Residual(refs: seq<set<nat>>, picks: seq<nat>, t: nat): set<nat> {
    if t < |refs| then refs[t] - Covered(refs, picks) else {}
  }

  ghost predicate Distinct(picks: seq<nat>) {
    forall i, j | 0 <= i < j < |picks| :: picks[i] != picks[j]
  }

  ghost predicate BestPick(refs: seq<set<nat>>, tips: set<nat>, picks: seq<nat>, j: nat)
    requires j < |picks|
  {
    forall t: nat | t in tips && t < |refs| && t !in picks[..j] ::
      |Residual(refs, picks[..j], t)| <= |Residual(refs, picks[..j], picks[j])|
  }

  /** The picks are distinct tips, each the heaviest one left at its turn, whatever the tie-breaks. */
  ghost predicate Greedy(refs: seq<set<nat>>, tips: set<nat>, picks: seq<nat>) {
    && (forall t: nat | t in tips :: t < |refs|)
    && Distinct(picks)
    && forall j | 0 <= j < |picks| :: picks[j] in tips && picks[j] < |refs| && BestPick(refs, tips, picks, j)
  }

  ghost function Gain(refs: seq<set<nat>>, picks: seq<nat>, j: nat): nat {
    if j < |picks| then |Residual(refs, picks[..j], picks[j])| else 0
  }

  ghost function GainSum(refs: seq<set<nat>>, picks: seq<nat>): nat
    requires forall j | 0 <= j < |picks| :: picks[j] < |refs|
  {
    if picks == [] then 0
    else
      GainSum(refs, picks[..|picks| - 1]) + Gain(refs, picks, |picks| - 1)
  }

  lemma CoveredSnoc(refs: seq<set<nat>>, picks: seq<nat>, t: nat)
    requires t < |refs|
    ensures Covered(refs, picks + [t]) == Covered(refs, picks) + Residual(refs, picks, t)
    ensures |Covered(refs, picks + [t])| == |Covered(refs, picks)| + |Residual(refs, picks, t)|
  {
    assert Elements(picks + [t]) == Elements(picks) + {t};
  }

  /** The gains add up to the size of what is covered. */
  lemma {:induction false} GainsTelescope(refs: seq<set<nat>>, picks: seq<nat>)
    requires forall j | 0 <= j < |picks| :: picks[j] < |refs|
    ensures GainSum(refs, picks) == |Covered(refs, picks)|
  {
    if picks == [] {
      assert Covered(refs, picks) == {};
    } else {
      var before, t := picks[..|picks| - 1], picks[|picks| - 1];
      assert picks == before + [t];
      GainsTelescope(refs, before);
      CoveredSnoc(refs, before, t);
    }
  }

  lemma CoveredMonotone(refs: seq<set<nat>>, picks: seq<nat>, i: nat, j: nat)
    requires i <= j <= |picks|
    ensures Covered(refs, picks[..i]) <= Covered(refs, picks[..j])
  {
    assert forall p | p in picks[..i] :: p in picks[..j];
  }

  /** Each pick gains at most as much as the ones before it. */
  lemma GainsDecrease(refs: seq<set<nat>>, tips: set<nat>, picks: seq<nat>, i: nat, j: nat)
    requires Greedy(refs, tips, picks)
    requires i <= j < |picks|
    ensures Gain(refs, picks, j) <= Gain(refs, picks, i)
  {
    CoveredMonotone(refs, picks, i, j);
    SubsetSize(Residual(refs, picks[..j], picks[j]), Residual(refs, picks[..i], picks[j]));
    assert picks[j] !in picks[..i];
    assert BestPick(refs, tips, picks, i);
  }

  lemma Distribute(a: int, b: int, c: int)
    ensures (a + b) * c == a * c + b * c
  {
  }

  lemma UnionInsert(refs: seq<set<nat>>, s: set<nat>, t: nat)
    requires t in s && t < |refs|
    ensures Union(refs, s) == Union(refs, s - {t}) + refs[t]
  {
  }

  /** Picking the heaviest of the tips that are left is a greedy step. */
  lemma GreedySnoc(refs: seq<set<nat>>, tips: set<nat>, picks: seq<nat>, t: nat)
    requires Greedy(refs, tips, picks)
    requires t in tips && t !in picks
    requires forall x: nat | x in tips && x !in picks :: |Residual(refs, picks, x)| <= |Residual(refs, picks, t)|
    ensures Greedy(refs, tips, picks + [t])
    ensures Gain(refs, picks + [t], |picks|) == |Residual(refs, picks, t)|
  {
    var picks' := picks + [t];
    assert picks'[..|picks|] == picks;
    forall j | 0 <= j < |picks'| ensures picks'[j] in tips && BestPick(refs, tips, picks', j) {
      if j < |picks| { BestPickPrefix(refs, tips, picks, t, j); }
    }
  }

  lemma BestPickPrefix(refs: seq<set<nat>>, tips: set<nat>, picks: seq<nat>, t: nat, j: nat)
    requires j < |picks| && picks[j] < |refs| && BestPick(refs, tips, picks, j)
    ensures BestPick(refs, tips, picks + [t], j)
  {
    assert (picks + [t])[..j] == picks[..j];
  }

  lemma GainPrefix(refs: seq<set<nat>>, picks: seq<nat>, t: nat, j: nat)
    requires j < |picks| && picks[j] < |refs|
    ensures Gain(refs, picks + [t], j) == Gain(refs, picks, j)
  {
    assert (picks + [t])[..j] == picks[..j];
  }

  /** If no set of `s` adds more than `gain` to `done`, then `s` as a whole adds at most |s| times that. */
  lemma {:induction false} UnionGap(refs: seq<set<nat>>, s: set<nat>, done: set<nat>, gain: nat)
    requires forall t | t in s :: t < |refs| && |refs[t] - done| <= gain
    ensures |Union(refs, s) - done| <= |s| * gain
  {
    hide Union;
    if s == {} {
      UnionEmpty(refs);
    } else {
      var t :| t in s;
      var rest := s - {t};
      UnionGap(refs, rest, done, gain);
      UnionInsert(refs, s, t);
      assert Union(refs, s) - done == (Union(refs, rest) - done) + (refs[t] - done);
      assert |s| == |rest| + 1;
      Distribute(|rest|, 1, gain);
    }
  }

  lemma UnionEmpty(refs: seq<set<nat>>)
    ensures Union(refs, {}) == {}
  {
  }

  function Power(base: nat, n: nat): nat {
    if n == 0 then 1 else base * Power(base, n - 1)
  }

  /** How much of what `best` covers together is still missing after `i` picks; it can be negative. */
  ghost function Gap(refs: seq<set<nat>>, picks: seq<nat>, best: set<nat>, i: nat): int
    requires i <= |picks|
  {
    |Union(refs, best)| - |Covered(refs, picks[..i])|
  }

  /** One pick closes at least one k-th of the gap to what any `k` tips cover together. */
  lemma GreedyStep(refs: seq<set<nat>>, tips: set<nat>, picks: seq<nat>, best: set<nat>, k: nat, i: nat)
    requires Greedy(refs, tips, picks)
    requires best <= tips && |best| <= k
    requires i < |picks|
    ensures k * Gap(refs, picks, best, i + 1) <= (k - 1) * Gap(refs, picks, best, i)
  {
    var done, gain := Covered(refs, picks[..i]), Gain(refs, picks, i);
    PickIsBest(refs, tips, picks, best, i);
    UnionGap(refs, best, done, gain);
    SubsetSize(Union(refs, best), (Union(refs, best) - done) + done);
    PrefixSnoc(refs, picks, i);
    StepArithmetic(k, |best|, Gap(refs, picks, best, i), Gap(refs, picks, best, i + 1), gain);
  }

  lemma PrefixSnoc(refs: seq<set<nat>>, picks: seq<nat>, i: nat)
    requires i < |picks| && picks[i] < |refs|
    ensures |Covered(refs, picks[..i + 1])| == |Covered(refs, picks[..i])| + Gain(refs, picks, i)
  {
    assert picks[..i + 1] == picks[..i] + [picks[i]];
    CoveredSnoc(refs, picks[..i], picks[i]);
  }

  lemma PickIsBest(refs: seq<set<nat>>, tips: set<nat>, picks: seq<nat>, s: set<nat>, i: nat)
    requires Greedy(refs, tips, picks)
    requires s <= tips && i < |picks|
    ensures forall t | t in s :: t < |refs| && |refs[t] - Covered(refs, picks[..i])| <= Gain(refs, picks, i)
  {
    forall t | t in s
      ensures |refs[t] - Covered(refs, picks[..i])| <= Gain(refs, picks, i)
    {
      if t in picks[..i] {
        assert refs[t] - Covered(refs, picks[..i]) == {};
      } else {
        assert BestPick(refs, tips, picks, i);
        assert |Residual(refs, picks[..i], t)| <= Gain(refs, picks, i);
      }
    }
  }

  lemma StepArithmetic(k: nat, n: nat, gap: int, next: int, gain: nat)
    requires n <= k && gap <= n * gain && next == gap - gain
    ensures k * next <= (k - 1) * gap
  {
    TimesMonotone(gain, n, k);
    assert k * (gap - gain) == k * gap - k * gain;
    Distribute(k, -1, gap);
  }

  /** After i picks, the gap to what any `k` tips cover together has shrunk by (1 - 1/k) to the power of i. */
  lemma {:induction false} GreedyGap(refs: seq<set<nat>>, tips: set<nat>, picks: seq<nat>, best: set<nat>,
                                           k: nat, i: nat)
    requires Greedy(refs, tips, picks)
    requires best <= tips && |best| <= k && k > 0
    requires i <= |picks|
    ensures Power(k, i) * Gap(refs, picks, best, i) <= Power(k - 1, i) * |Union(refs, best)|
  {
    var gaps := seq(|picks| + 1, j requires 0 <= j <= |picks| => Gap(refs, picks, best, j));
    forall j | 0 <= j < |picks|
      ensures k * gaps[j + 1] <= (k - 1) * gaps[j]
    {
      GreedyStep(refs, tips, picks, best, k, j);
    }
    GeometricDecay(gaps, |Union(refs, best)|, k, i);
  }

  lemma {:induction false} GeometricDecay(gaps: seq<int>, start: nat, k: nat, i: nat)
    requires k > 0 && i < |gaps| && gaps[0] <= start
    requires forall j | 0 <= j < |gaps| - 1 :: k * gaps[j + 1] <= (k - 1) * gaps[j]
    ensures Power(k, i) * gaps[i] <= Power(k - 1, i) * start
  {
    if i > 0 {
      GeometricDecay(gaps, start, k, i - 1);
      GapArithmetic(k, Power(k, i - 1), Power(k - 1, i - 1), Power(k, i), Power(k - 1, i), gaps[i], gaps[i - 1], start);
    }
  }

  lemma GapArithmetic(k: nat, p: nat, q: nat, p': nat, q': nat, gap: int, gap': int, opt: nat)
    requires k > 0 && k * gap <= (k - 1) * gap' && p * gap' <= q * opt
    requires p' == k * p && q' == (k - 1) * q
    ensures p' * gap <= q' * opt
  {
    calc {
      (k * p) * gap;
    == { Rearrange(k, p, gap); }
      p * (k * gap);
    <= { TimesMonotone(p, k * gap, (k - 1) * gap'); }
      p * ((k - 1) * gap');
    == { Rearrange(k - 1, p, gap'); }
      (k - 1) * (p * gap');
    <= { TimesMonotone(k - 1, p * gap', q * opt); }
      (k - 1) * (q * opt);
    == { Rearrange(k - 1, q, opt); }
      ((k - 1) * q) * opt;
    }
  }

  lemma Rearrange(a: int, b: int, c: int)
    ensures (a * b) * c == b * (a * c) == a * (b * c)
  {
  }

  lemma TimesMonotone(a: nat, b: int, c: int)
    requires b <= c
    ensures a * b <= a * c
  {
  }

  /** The classical bound: k greedy picks miss at most (1 - 1/k) to the power of k of the best k tips. */
  lemma GreedyBound(refs: seq<set<nat>>, tips: set<nat>, picks: seq<nat>, best: set<nat>)
    requires Greedy(refs, tips, picks)
    requires best <= tips && |best| <= |picks| && picks != []
    ensures var k := |picks|;
      Power(k, k) * Gap(refs, picks, best, k) <= Power(k - 1, k) * |Union(refs, best)|
    ensures Gap(refs, picks, best, |picks|) == |Union(refs, best)| - |Covered(refs, picks)|
  {
    hide Power;
    assert picks[..|picks|] == picks;
    GreedyGap(refs, tips, picks, best, |picks|, |picks|);
  }
}
