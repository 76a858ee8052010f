/** The abstract state of the tip selector: the blocks tracked since the last reset, and what they reference. */
module Tangle {
  import opened ByteStrings
  import opened Coverage
  import opened Sets

  /** The i-th tracked block; `parents` are the positions of the parents that were tracked when it arrived. */
  datatype Node = Node(id: Byte32, parents: set<nat>)

  /** `refs[i]` is the bitset of the i-th block, `tips` are the positions in the tip list. */
  datatype View = View(dag: seq<Node>, refs: seq<set<nat>>, tips: set<nat>)

  const EMPTY := View([], [], {})

  ghost predicate WellFormed(dag: seq<Node>) {
    && (forall i, p | 0 <= i < |dag| && p in dag[i].parents :: p < i)
    && (forall i, j | 0 <= i < j < |dag| :: dag[i].id != dag[j].id)
  }

  ghost function PastCone(dag: seq<Node>, i: nat): set<nat>
    requires i < |dag|
  {
    {i} + set p, x | p in dag[i].parents && p < i && x in PastCone(dag, p) :: x
  }

  /** `path` leads from a block to one of its ancestors, one parent edge at a time. */
  ghost predicate IsPath(dag: seq<Node>, path: seq<nat>) {
    && path != []
    && (forall k | 0 <= k < |path| :: path[k] < |dag|)
    && (forall k | 0 <= k < |path| - 1 :: path[k + 1] in dag[path[k]].parents)
  }

  ghost predicate Reaches(dag: seq<Node>, i: nat, j: nat) {
    exists path :: IsPath(dag, path) && path[0] == i && path[|path| - 1] == j
  }

  ghost predicate HasChild(dag: seq<Node>, i: nat) {
    exists c :: 0 <= c < |dag| && i in dag[c].parents
  }

  ghost function TrackedParents(dag: seq<Node>, parents: seq<Byte32>): set<nat> {
    set i: nat | 0 <= i < |dag| && dag[i].id in parents
  }

  ghost predicate IsTracked(dag: seq<Node>, id: Byte32) {
    exists i :: 0 <= i < |dag| && dag[i].id == id
  }

  /** What OnNewSolidBlock does: a new block gets the next bit, and everything its tracked parents reference. */
  ghost function AddBlock(v: View, id: Byte32, parents: seq<Byte32>): View {
    if IsTracked(v.dag, id) then v
    else
      var n: nat, tracked := |v.dag|, TrackedParents(v.dag, parents);
      View(v.dag + [Node(id, tracked)], v.refs + [NewReferences(v.refs, n, tracked)], v.tips - tracked + {n})
  }

  /** The bitset of a new block: its own bit and everything its tracked parents reference. */
  ghost function NewReferences(refs: seq<set<nat>>, n: nat, tracked: set<nat>): set<nat> {
    {n} + Union(refs, tracked)
  }

  /** The picks that had been subtracted when the bitset of `t` changed for the last time. */
  ghost function Subtracted(picks: seq<nat>, m: nat, t: nat): (k: nat)
    requires m <= |picks|
    ensures k <= m
    ensures t !in picks[..k]
    ensures k < m ==> picks[k] == t
  {
    if m == 0 then 0
    else if Subtracted(picks, m - 1, t) < m - 1 then Subtracted(picks, m - 1, t)
    else if picks[m - 1] == t then m - 1
    else
      assert picks[..m] == picks[..m - 1] + [picks[m - 1]];
      m
  }

  /** The state after a selection that picked `picks` and referenced the first `m` of them. */
  ghost function AfterSelection(v: View, picks: seq<nat>, m: nat): View
    requires m <= |picks|
  {
    v.(refs := seq(|v.refs|, t requires 0 <= t < |v.refs| =>
                     if t in v.tips then v.refs[t] - Covered(v.refs, picks[..Subtracted(picks, m, t)]) else v.refs[t]))
  }

  /** Holds in every reachable state. */
  ghost predicate Consistent(v: View) {
    && WellFormed(v.dag)
    && |v.refs| == |v.dag|
    && (forall i | 0 <= i < |v.dag| :: i in v.refs[i] && v.refs[i] <= PastCone(v.dag, i))
    && (forall i: nat :: i in v.tips <==> i < |v.dag| && !HasChild(v.dag, i))
  }

  /** Holds after a reset, until a selection subtracts something that two tips share. */
  ghost predicate Intact(v: View) {
    |v.refs| == |v.dag| && forall i | 0 <= i < |v.dag| :: v.refs[i] == PastCone(v.dag, i)
  }

  // ----- past cones -----

  lemma {:induction false} ConeExtend(dag: seq<Node>, node: Node, i: nat)
    requires i < |dag|
    ensures PastCone(dag + [node], i) == PastCone(dag, i)
    decreases i
  {
    forall p | p in dag[i].parents && p < i
      ensures PastCone(dag + [node], p) == PastCone(dag, p)
    {
      ConeExtend(dag, node, p);
    }
  }

  lemma {:induction false} ConeToPath(dag: seq<Node>, i: nat, j: nat)
    requires i < |dag| && j in PastCone(dag, i)
    ensures Reaches(dag, i, j)
    decreases i
  {
    if i == j {
      assert IsPath(dag, [i]);
    } else {
      var p :| p in dag[i].parents && p < i && j in PastCone(dag, p);
      ConeToPath(dag, p, j);
      var path :| IsPath(dag, path) && path[0] == p && path[|path| - 1] == j;
      var longer := [i] + path;
      assert forall k | 0 < k < |longer| :: longer[k] == path[k - 1];
      assert IsPath(dag, longer);
    }
  }

  lemma {:induction false} PathToCone(dag: seq<Node>, path: seq<nat>)
    requires WellFormed(dag) && IsPath(dag, path)
    ensures path[|path| - 1] in PastCone(dag, path[0])
  {
    if |path| > 1 {
      assert path[1] in dag[path[0]].parents;
      PathToCone(dag, path[1..]);
    }
  }

  /** The past cone of a block is exactly what is reachable from it. */
  lemma ConeIsReachability(dag: seq<Node>, i: nat, j: nat)
    requires WellFormed(dag) && i < |dag|
    ensures j in PastCone(dag, i) <==> Reaches(dag, i, j)
  {
    if j in PastCone(dag, i) {
      ConeToPath(dag, i, j);
    }
    if Reaches(dag, i, j) {
      var path :| IsPath(dag, path) && path[0] == i && path[|path| - 1] == j;
      PathToCone(dag, path);
    }
  }

  lemma {:induction false} AncestorHasChild(dag: seq<Node>, i: nat, j: nat)
    requires i < |dag| && j in PastCone(dag, i) && i != j
    ensures HasChild(dag, j)
    decreases i
  {
    var p :| p in dag[i].parents && p < i && j in PastCone(dag, p);
    if p != j {
      AncestorHasChild(dag, p, j);
    }
  }

  ghost predicate OwnBits(v: View) {
    && |v.refs| == |v.dag|
    && forall t: nat | t in v.tips :: t < |v.refs| && forall i | 0 <= i < |v.refs| :: t in v.refs[i] <==> i == t
  }

  /** The bit of a tip is set in its own bitset and in no other; so no tip ever counts zero. */
  lemma TipOwnsItsBit(v: View, t: nat)
    requires Consistent(v) && t in v.tips
    ensures |v.refs[t]| >= 1
    ensures forall i | 0 <= i < |v.dag| :: t in v.refs[i] <==> i == t
  {
    assert t in v.refs[t];
    forall i | 0 <= i < |v.dag| && t in v.refs[i]
      ensures i == t
    {
      if i != t { AncestorHasChild(v.dag, i, t); }
    }
  }

  lemma TipsOwnTheirBits(v: View)
    requires Consistent(v)
    ensures OwnBits(v)
  {
    forall t: nat | t in v.tips { TipOwnsItsBit(v, t); }
  }

  // ----- steps -----

  lemma WellFormedAdd(v: View, id: Byte32, parents: seq<Byte32>)
    requires WellFormed(v.dag) && !IsTracked(v.dag, id)
    ensures WellFormed(AddBlock(v, id, parents).dag)
  {
    var dag' := AddBlock(v, id, parents).dag;
    forall i, p | 0 <= i < |dag'| && p in dag'[i].parents ensures p < i {
      if i < |v.dag| { assert p in v.dag[i].parents; }
    }
  }

  lemma ChildrenAdd(v: View, id: Byte32, parents: seq<Byte32>, i: nat)
    requires Consistent(v) && !IsTracked(v.dag, id) && i <= |v.dag|
    ensures HasChild(AddBlock(v, id, parents).dag, i) <==>
      HasChild(v.dag, i) || i in TrackedParents(v.dag, parents)
  {
    var dag' := AddBlock(v, id, parents).dag;
    if HasChild(v.dag, i) {
      var c :| 0 <= c < |v.dag| && i in v.dag[c].parents;
      assert i in dag'[c].parents;
    }
    if i in TrackedParents(v.dag, parents) {
      assert i in dag'[|v.dag|].parents;
    }
    if HasChild(dag', i) {
      var c :| 0 <= c < |dag'| && i in dag'[c].parents;
      if c < |v.dag| { assert i in v.dag[c].parents; }
    }
  }

  lemma UnionWithin(v: View, dag': seq<Node>, tracked: set<nat>, n: nat)
    requires |v.refs| == |v.dag| == n < |dag'| && dag'[n].parents == tracked
    requires forall p | p in tracked :: p < n && v.refs[p] <= PastCone(dag', p)
    ensures Union(v.refs, tracked) <= PastCone(dag', n)
    ensures (forall p | p in tracked :: v.refs[p] == PastCone(dag', p)) ==>
      NewReferences(v.refs, n, tracked) == PastCone(dag', n)
  {
  }

  lemma ConeAdd(v: View, id: Byte32, parents: seq<Byte32>)
    requires Consistent(v) && !IsTracked(v.dag, id)
    ensures var v', n := AddBlock(v, id, parents), |v.dag|;
      && n in v'.refs[n] && v'.refs[n] <= PastCone(v'.dag, n)
      && (Intact(v) ==> v'.refs[n] == PastCone(v'.dag, n))
      && forall i | 0 <= i < n :: PastCone(v'.dag, i) == PastCone(v.dag, i)
  {
    var v', tracked := AddBlock(v, id, parents), TrackedParents(v.dag, parents);
    forall i | 0 <= i < |v.dag| ensures PastCone(v'.dag, i) == PastCone(v.dag, i) {
      ConeExtend(v.dag, Node(id, tracked), i);
    }
    UnionWithin(v, v'.dag, tracked, |v.dag|);
  }

  lemma NewTips(v: View, id: Byte32, parents: seq<Byte32>, i: nat)
    requires Consistent(v) && !IsTracked(v.dag, id)
    ensures var v' := AddBlock(v, id, parents); i in v'.tips <==> i < |v'.dag| && !HasChild(v'.dag, i)
  {
    hide PastCone, NewReferences, WellFormed;
    if i <= |v.dag| {
      ChildrenAdd(v, id, parents, i);
      NoChildYet(v, |v.dag|);
    }
  }

  lemma NoChildYet(v: View, i: nat)
    requires WellFormed(v.dag) && i >= |v.dag|
    ensures !HasChild(v.dag, i)
  {
  }

  lemma ConsistentAdd(v: View, id: Byte32, parents: seq<Byte32>)
    requires Consistent(v)
    ensures Consistent(AddBlock(v, id, parents))
    ensures Intact(v) ==> Intact(AddBlock(v, id, parents))
  {
    hide PastCone, HasChild, NewReferences, TrackedParents, WellFormed;
    if !IsTracked(v.dag, id) {
      var v' := AddBlock(v, id, parents);
      WellFormedAdd(v, id, parents);
      ConeAdd(v, id, parents);
      forall i: nat ensures i in v'.tips <==> i < |v'.dag| && !HasChild(v'.dag, i) {
        NewTips(v, id, parents, i);
      }
    }
  }

  /** A selection of tips keeps the invariant, though not the past cones. */
  lemma ConsistentSelect(v: View, picks: seq<nat>, m: nat)
    requires Consistent(v) && m <= |picks|
    requires forall j | 0 <= j < |picks| :: picks[j] in v.tips
    ensures Consistent(AfterSelection(v, picks, m))
  {
    var v' := AfterSelection(v, picks, m);
    forall i | 0 <= i < |v.dag| ensures i in v'.refs[i] && v'.refs[i] <= v.refs[i] {
      if i in v.tips {
        TipOwnsItsBit(v, i);
        assert i !in Covered(v.refs, picks[..Subtracted(picks, m, i)]);
      }
    }
  }

  /** The bitsets that a selection leaves are past cones exactly when nothing it subtracted was there. */
  lemma IntactSelect(v: View, picks: seq<nat>, m: nat)
    requires Consistent(v) && Intact(v) && m <= |picks|
    requires forall j | 0 <= j < |picks| :: picks[j] in v.tips
    ensures Intact(AfterSelection(v, picks, m)) <==>
      forall t: nat | t in v.tips :: v.refs[t] !! Covered(v.refs, picks[..Subtracted(picks, m, t)])
    ensures m == 0 || |v.tips| == 1 ==> Intact(AfterSelection(v, picks, m))
  {
    var v' := AfterSelection(v, picks, m);
    forall t: nat | t in v.tips
      ensures v'.refs[t] == v.refs[t] <==> v.refs[t] !! Covered(v.refs, picks[..Subtracted(picks, m, t)])
      ensures m == 0 || |v.tips| == 1 ==> Subtracted(picks, m, t) == 0
      ensures Subtracted(picks, m, t) == 0 ==> v.refs[t] !! Covered(v.refs, picks[..Subtracted(picks, m, t)])
    {
      if m > 0 && |v.tips| == 1 {
        OnlyElement(v.tips, t, picks[0]);
      }
    }
  }

  lemma OnlyElement<T>(s: set<T>, x: T, y: T)
    requires |s| == 1 && x in s && y in s
    ensures x == y
  {
    if x != y {
      SubsetSize({x, y}, s);
    }
  }

  // ----- all runs -----

  /** What can happen to a selector: a selection is given by its picks and by how many of them it referenced. */
  datatype Event = Reset | NewBlock(id: Byte32, parents: seq<Byte32>) | Selection(picks: seq<nat>, m: nat)

  ghost predicate Enabled(v: View, e: Event) {
    e.Selection? ==> e.m <= |e.picks| && forall j | 0 <= j < |e.picks| :: e.picks[j] in v.tips
  }

  ghost function After(v: View, e: Event): View
    requires Enabled(v, e)
  {
    match e
    case Reset => EMPTY
    case NewBlock(id, parents) => AddBlock(v, id, parents)
    case Selection(picks, m) => AfterSelection(v, picks, m)
  }

  ghost predicate IsRun(v: View, events: seq<Event>)
    decreases |events|
  {
    events == [] || (Enabled(v, events[0]) && IsRun(After(v, events[0]), events[1..]))
  }

  ghost function RunFrom(v: View, events: seq<Event>): View
    requires IsRun(v, events)
    decreases |events|
  {
    if events == [] then v else RunFrom(After(v, events[0]), events[1..])
  }

  /** Every run keeps the invariant, and so lets every tip keep its own bit. */
  lemma {:induction false} RunsAreConsistent(v: View, events: seq<Event>)
    requires Consistent(v) && IsRun(v, events)
    ensures Consistent(RunFrom(v, events)) && OwnBits(RunFrom(v, events))
    decreases |events|
  {
    if events == [] {
      TipsOwnTheirBits(v);
    } else {
      match events[0] {
        case Reset =>
        case NewBlock(id, parents) => ConsistentAdd(v, id, parents);
        case Selection(picks, m) => ConsistentSelect(v, picks, m);
      }
      RunsAreConsistent(After(v, events[0]), events[1..]);
    }
  }

  /** As long as nothing is selected, every bitset is exactly the set of the tracked blocks that are reachable. */
  lemma {:induction false} RunsTrackPastCones(v: View, events: seq<Event>)
    requires Consistent(v) && Intact(v) && IsRun(v, events)
    requires forall e | e in events :: !e.Selection?
    ensures var v' := RunFrom(v, events);
      |v'.refs| == |v'.dag| && forall i, j: nat | 0 <= i < |v'.dag| :: j in v'.refs[i] <==> Reaches(v'.dag, i, j)
    decreases |events|
  {
    if events == [] {
      forall i, j: nat | 0 <= i < |v.dag| ensures j in v.refs[i] <==> Reaches(v.dag, i, j) {
        ConeIsReachability(v.dag, i, j);
      }
    } else {
      assert events[0] in events;
      match events[0] {
        case Reset =>
        case NewBlock(id, parents) => ConsistentAdd(v, id, parents);
      }
      RunsTrackPastCones(After(v, events[0]), events[1..]);
    }
  }

  // ----- one selection -----

  /** Picking another tip changes nothing yet: it is subtracted only when the next one is looked for. */
  lemma {:induction false} PickLater(v: View, picks: seq<nat>, m: nat, t: nat)
    requires m <= |picks|
    ensures AfterSelection(v, picks + [t], m) == AfterSelection(v, picks, m)
  {
    forall x: nat | x in v.tips ensures Subtracted(picks + [t], m, x) == Subtracted(picks, m, x) {
      SubtractedPrefix(picks, t, m, x);
    }
    forall x: nat | x in v.tips
      ensures (picks + [t])[..Subtracted(picks, m, x)] == picks[..Subtracted(picks, m, x)]
    {
    }
    assert AfterSelection(v, picks + [t], m).refs == AfterSelection(v, picks, m).refs;
  }

  lemma {:induction false} SubtractedPrefix(picks: seq<nat>, t: nat, m: nat, x: nat)
    requires m <= |picks|
    ensures Subtracted(picks + [t], m, x) == Subtracted(picks, m, x)
  {
    if m > 0 {
      SubtractedPrefix(picks, t, m - 1, x);
    }
  }

  /** Referencing the next pick subtracts its current bitset from those of the tips that are left. */
  lemma ReferenceStep(v: View, picks: seq<nat>, m: nat, t: nat)
    requires m < |picks| && Distinct(picks) && |v.refs| == |v.dag|
    requires picks[m] in v.tips && picks[m] < |v.refs| && t < |v.refs|
    ensures var before, after := AfterSelection(v, picks, m).refs, AfterSelection(v, picks, m + 1).refs;
      after[t] == if t in v.tips && t !in picks[..m + 1] then before[t] - before[picks[m]] else before[t]
  {
    hide Subtracted, Covered;
    if t in v.tips {
      SubtractedNow(picks, m);
      CoveredSnoc(v.refs, picks[..m], picks[m]);
      assert picks[..m + 1] == picks[..m] + [picks[m]];
      if t in picks[..m] {
        SubtractedBefore(picks, m, t);
      } else if t != picks[m] {
        SubtractedLater(picks, m, t);
      }
    }
  }

  /** `t` was referenced before. */
  lemma SubtractedBefore(picks: seq<nat>, m: nat, t: nat)
    requires m < |picks| && t in picks[..m]
    ensures Subtracted(picks, m + 1, t) == Subtracted(picks, m, t)
  {
    hide Subtracted;
    SubtractedUnfold(picks, m, t);
  }

  /** `t` is referenced now. */
  lemma SubtractedNow(picks: seq<nat>, m: nat)
    requires m < |picks| && Distinct(picks)
    ensures Subtracted(picks, m + 1, picks[m]) == Subtracted(picks, m, picks[m]) == m
  {
    hide Subtracted;
    SubtractedUnfold(picks, m, picks[m]);
  }

  /** `t` is not referenced yet. */
  lemma SubtractedLater(picks: seq<nat>, m: nat, t: nat)
    requires m < |picks| && t !in picks[..m + 1]
    ensures Subtracted(picks, m, t) == m && Subtracted(picks, m + 1, t) == m + 1
  {
    hide Subtracted;
    SubtractedUnfold(picks, m, t);
    assert picks[m] in picks[..m + 1];
    assert forall k: nat | k < m :: picks[k] in picks[..m + 1];
  }

  lemma SubtractedUnfold(picks: seq<nat>, m: nat, t: nat)
    requires m < |picks|
    ensures Subtracted(picks, m + 1, t) ==
      if Subtracted(picks, m, t) < m then Subtracted(picks, m, t) else if picks[m] == t then m else m + 1
  {
  }

  /** A selection that started in `v` has made `picks` and referenced the first `m` of them: the tips `left`
      in the working list, and the bitsets `refs` of all the blocks. */
  ghost predicate Selecting(v: View, picks: seq<nat>, m: nat, left: set<nat>, refs: seq<set<nat>>) {
    && |v.refs| == |v.dag|
    && m <= |picks| && Greedy(v.refs, v.tips, picks)
    && left == v.tips - Elements(picks[..m])
    && refs == AfterSelection(v, picks, m).refs
  }

  ghost predicate TooLight(limit: real, gain: nat, best: nat) {
    best > 0 && gain as real / best as real < limit
  }

  /** The first pick gains something, and each pick beyond the required ones at least a fraction `limit` of it. */
  ghost predicate Accepted(v: View, limit: real, minRequiredTips: int, picks: seq<nat>) {
    && (picks != [] ==> Gain(v.refs, picks, 0) > 0)
    && forall j | 0 <= j < |picks| && j >= minRequiredTips ::
         !TooLight(limit, Gain(v.refs, picks, j), Gain(v.refs, picks, 0))
  }

  /** Every tip that is not among the picks would gain too little. */
  ghost predicate NothingWorthwhile(v: View, limit: real, picks: seq<nat>) {
    forall t: nat | t in v.tips && t !in picks ::
      picks != [] && TooLight(limit, |Residual(v.refs, picks, t)|, Gain(v.refs, picks, 0))
  }

  lemma AcceptedSnoc(v: View, limit: real, minRequiredTips: int, picks: seq<nat>, t: nat)
    requires Greedy(v.refs, v.tips, picks) && Accepted(v, limit, minRequiredTips, picks)
    requires Greedy(v.refs, v.tips, picks + [t]) && minRequiredTips >= 1
    requires Gain(v.refs, picks + [t], |picks|) > 0
    requires picks != [] && |picks| >= minRequiredTips ==>
      !TooLight(limit, Gain(v.refs, picks + [t], |picks|), Gain(v.refs, picks, 0))
    ensures Accepted(v, limit, minRequiredTips, picks + [t])
    ensures picks != [] ==> Gain(v.refs, picks + [t], 0) == Gain(v.refs, picks, 0)
  {
    forall j | 0 <= j < |picks| ensures Gain(v.refs, picks + [t], j) == Gain(v.refs, picks, j) {
      assert (picks + [t])[j] < |v.refs|;
      GainPrefix(v.refs, picks, t, j);
    }
  }

  /** The bitsets after everything that `p` references is cleared in the other tips of `left`. */
  ghost function Cleared(refs: seq<set<nat>>, left: set<nat>, p: nat): seq<set<nat>>
    requires p < |refs|
  {
    seq(|refs|, t requires 0 <= t < |refs| => if t in left && t != p then refs[t] - refs[p] else refs[t])
  }

  lemma SelectingReference(v: View, picks: seq<nat>, m: nat, left: set<nat>, refs: seq<set<nat>>)
    requires Selecting(v, picks, m, left, refs) && m < |picks| && picks[m] < |refs|
    ensures Selecting(v, picks, m + 1, left - {picks[m]}, Cleared(refs, left, picks[m]))
  {
    LeftStep(v.tips, picks, m);
    AfterReference(v, picks, m, refs, Cleared(refs, left, picks[m]));
  }

  lemma LeftStep(tips: set<nat>, picks: seq<nat>, m: nat)
    requires m < |picks|
    ensures tips - Elements(picks[..m]) - {picks[m]} == tips - Elements(picks[..m + 1])
  {
    assert picks[..m + 1] == picks[..m] + [picks[m]];
  }

  lemma AfterReference(v: View, picks: seq<nat>, m: nat, refs: seq<set<nat>>, refs': seq<set<nat>>)
    requires |v.refs| == |v.dag| && m < |picks| && Distinct(picks)
    requires picks[m] in v.tips && picks[m] < |v.refs|
    requires refs == AfterSelection(v, picks, m).refs && |refs'| == |refs|
    requires forall t | 0 <= t < |refs| ::
      refs'[t] == if t in v.tips - Elements(picks[..m]) && t != picks[m] then refs[t] - refs[picks[m]] else refs[t]
    ensures refs' == AfterSelection(v, picks, m + 1).refs
  {
    var after := AfterSelection(v, picks, m + 1).refs;
    assert picks[..m + 1] == picks[..m] + [picks[m]];
    forall t: nat | t < |refs| ensures refs'[t] == after[t] {
      ReferenceStep(v, picks, m, t);
      assert t in picks[..m + 1] <==> t in Elements(picks[..m]) || t == picks[m];
    }
  }

  lemma SelectingPick(v: View, picks: seq<nat>, left: set<nat>, refs: seq<set<nat>>, t: nat)
    requires Selecting(v, picks, |picks|, left, refs)
    requires t in left && t < |refs| && forall x: nat | x in left && x < |refs| :: |refs[x]| <= |refs[t]|
    ensures Selecting(v, picks + [t], |picks|, left, refs)
    ensures |refs[t]| == Gain(v.refs, picks + [t], |picks|)
    ensures forall x: nat | x in left :: x < |v.refs| && |Residual(v.refs, picks, x)| <= |refs[t]|
  {
    assert picks[..|picks|] == picks == (picks + [t])[..|picks|];
    forall x: nat | x in left ensures refs[x] == Residual(v.refs, picks, x) {
      LeftOver(v, picks, x);
    }
    GreedySnoc(v.refs, v.tips, picks, t);
    PickLater(v, picks, |picks|, t);
  }

  /** The bitset of a tip that has not been picked is what it adds to the picks. */
  lemma LeftOver(v: View, picks: seq<nat>, t: nat)
    requires t in v.tips && t < |v.refs| && t !in picks
    ensures AfterSelection(v, picks, |picks|).refs[t] == Residual(v.refs, picks, t)
  {
    assert picks[..|picks|] == picks;
  }

  ghost function IDAt(dag: seq<Node>, i: nat): Byte32 {
    if i < |dag| then dag[i].id else 0
  }

  lemma PicksAreTracked(v: View, picks: seq<nat>)
    requires Greedy(v.refs, v.tips, picks)
    ensures forall j | 0 <= j < |picks| :: picks[j] < |v.refs|
  {
  }

  /** The block IDs of the picks. */
  ghost function IDs(dag: seq<Node>, picks: seq<nat>): (ids: seq<Byte32>)
    ensures |ids| == |picks|
    ensures forall j | 0 <= j < |picks| :: ids[j] == IDAt(dag, picks[j])
  {
    if picks == [] then [] else IDs(dag, picks[..|picks| - 1]) + [IDAt(dag, picks[|picks| - 1])]
  }

  lemma IDsSnoc(dag: seq<Node>, picks: seq<nat>, t: nat)
    ensures IDs(dag, picks + [t]) == IDs(dag, picks) + [IDAt(dag, t)]
  {
    assert (picks + [t])[..|picks|] == picks;
  }

  /** The invariant of the selection loop. */
  ghost predicate Progress(v: View, limit: real, minRequiredTips: int,
                           picks: seq<nat>, m: nat, left: set<nat>, refs: seq<set<nat>>)
  {
    && OwnBits(v) && minRequiredTips >= 1
    && Selecting(v, picks, m, left, refs)
    && m <= |picks| <= m + 1
    && Accepted(v, limit, minRequiredTips, picks)
  }

  lemma ProgressStart(v: View, limit: real, minRequiredTips: int)
    requires OwnBits(v) && minRequiredTips >= 1
    ensures Progress(v, limit, minRequiredTips, [], 0, v.tips, v.refs)
  {
    assert Covered(v.refs, []) == {};
    forall t | 0 <= t < |v.refs| ensures AfterSelection(v, [], 0).refs[t] == v.refs[t] {
    }
    assert AfterSelection(v, [], 0).refs == v.refs;
  }

  /** Referencing the last pick. */
  lemma ProgressReference(v: View, limit: real, minRequiredTips: int,
                          picks: seq<nat>, left: set<nat>, refs: seq<set<nat>>)
    requires picks != [] && Progress(v, limit, minRequiredTips, picks, |picks| - 1, left, refs)
    requires picks[|picks| - 1] < |refs|
    ensures var p := picks[|picks| - 1];
      Progress(v, limit, minRequiredTips, picks, |picks|, left - {p}, Cleared(refs, left, p))
  {
    SelectingReference(v, picks, |picks| - 1, left, refs);
  }

  /** Accepting the heaviest tip that is left; or stopping because it is too light. */
  lemma ProgressPick(v: View, limit: real, minRequiredTips: int,
                     picks: seq<nat>, left: set<nat>, refs: seq<set<nat>>, t: nat)
    requires Progress(v, limit, minRequiredTips, picks, |picks|, left, refs)
    requires t in left && t < |refs| && forall x: nat | x in left && x < |refs| :: |refs[x]| <= |refs[t]|
    ensures |refs[t]| > 0
    ensures picks == [] || |picks| < minRequiredTips || !TooLight(limit, |refs[t]|, Gain(v.refs, picks, 0)) ==>
      Progress(v, limit, minRequiredTips, picks + [t], |picks|, left, refs)
    ensures Greedy(v.refs, v.tips, picks + [t])
    ensures Gain(v.refs, picks + [t], 0) == if picks == [] then |refs[t]| else Gain(v.refs, picks, 0)
    ensures picks != [] && TooLight(limit, |refs[t]|, Gain(v.refs, picks, 0)) ==> NothingWorthwhile(v, limit, picks)
  {
    SelectingPick(v, picks, left, refs, t);
    OwnBitLeft(v, picks, t);
    assert (picks + [t])[|picks|] == t;
    if picks != [] {
      GainPrefix(v.refs, picks, t, 0);
      if TooLight(limit, |refs[t]|, Gain(v.refs, picks, 0)) {
        LightestToo(v, limit, picks, left, |refs[t]|);
      } else {
        AcceptedSnoc(v, limit, minRequiredTips, picks, t);
      }
    }
    if picks == [] || |picks| < minRequiredTips {
      AcceptedSnoc(v, limit, minRequiredTips, picks, t);
    }
  }

  /** A tip that has not been picked still adds itself. */
  lemma OwnBitLeft(v: View, picks: seq<nat>, t: nat)
    requires OwnBits(v) && Greedy(v.refs, v.tips, picks)
    requires t in v.tips && t !in picks
    ensures |Residual(v.refs, picks, t)| > 0
  {
    assert t in Residual(v.refs, picks, t);
  }

  lemma LightestToo(v: View, limit: real, picks: seq<nat>, left: set<nat>, count: nat)
    requires picks != [] && Greedy(v.refs, v.tips, picks) && Gain(v.refs, picks, 0) > 0
    requires left == v.tips - Elements(picks)
    requires forall x: nat | x in left :: x < |v.refs| && |Residual(v.refs, picks, x)| <= count
    requires TooLight(limit, count, Gain(v.refs, picks, 0))
    ensures NothingWorthwhile(v, limit, picks)
  {
    forall t: nat | t in v.tips && t !in picks
      ensures TooLight(limit, |Residual(v.refs, picks, t)|, Gain(v.refs, picks, 0))
    {
      assert t in left;
      FractionMonotone(|Residual(v.refs, picks, t)|, count, Gain(v.refs, picks, 0));
    }
  }

  lemma FractionMonotone(a: nat, b: nat, c: nat)
    requires a <= b && c > 0
    ensures a as real / c as real <= b as real / c as real
  {
  }

  lemma ProgressEnd(v: View, limit: real, minRequiredTips: int,
                    picks: seq<nat>, m: nat, left: set<nat>, refs: seq<set<nat>>)
    requires Consistent(v) && Progress(v, limit, minRequiredTips, picks, m, left, refs)
    ensures Greedy(v.refs, v.tips, picks) && Accepted(v, limit, minRequiredTips, picks)
    ensures m <= |picks| <= m + 1
    ensures v.(refs := refs) == AfterSelection(v, picks, m) && Consistent(v.(refs := refs))
    ensures m == |picks| && left == {} ==> Elements(picks) == v.tips
  {
    hide Consistent, OwnBits, Accepted, BestPick, AfterSelection;
    ConsistentSelect(v, picks, m);
    SelectionRefs(v, picks, m);
    if m == |picks| && left == {} {
      AllPicked(v, picks);
    }
  }

  lemma SelectionRefs(v: View, picks: seq<nat>, m: nat)
    requires m <= |picks|
    ensures AfterSelection(v, picks, m) == v.(refs := AfterSelection(v, picks, m).refs)
  {
  }

  lemma AllPicked(v: View, picks: seq<nat>)
    requires Greedy(v.refs, v.tips, picks) && v.tips - Elements(picks[..|picks|]) == {}
    ensures Elements(picks) == v.tips
  {
    hide BestPick;
    assert picks[..|picks|] == picks;
    forall t | t in v.tips ensures t in Elements(picks) {
      assert t !in v.tips - Elements(picks);
    }
  }

  // ----- what a new block means -----

  /** In terms of IDs: a block that is not tracked yet becomes a tip, its parents are no tips any more, and it
      references itself and exactly what those of its parents reference that are tracked. Nothing else changes. */
  lemma AddBlockMeans(v: View, id: Byte32, parents: seq<Byte32>)
    requires Consistent(v) && forall i | 0 <= i < |v.dag| :: v.dag[i].id != id
    ensures var v', n := AddBlock(v, id, parents), |v.dag|;
      && |v'.dag| == |v'.refs| == n + 1 && v'.dag[n].id == id
      && (forall x: nat :: x in v'.refs[n] <==>
            x == n || exists p :: 0 <= p < n && v.dag[p].id in parents && x in v.refs[p])
      && (forall i | 0 <= i < n :: v'.dag[i] == v.dag[i] && v'.refs[i] == v.refs[i])
      && (forall i: nat :: i in v'.tips <==> i == n || (i in v.tips && i < n && v.dag[i].id !in parents))
  {
    hide PastCone, HasChild;
    var tracked := TrackedParents(v.dag, parents);
    forall x: nat
      ensures x in Union(v.refs, tracked) <==> exists p :: 0 <= p < |v.dag| && v.dag[p].id in parents && x in v.refs[p]
    {
      if p :| 0 <= p < |v.dag| && v.dag[p].id in parents && x in v.refs[p] {
        assert p in tracked;
      }
    }
  }

  /** And one that is tracked already changes nothing. */
  lemma DuplicateMeans(v: View, id: Byte32, parents: seq<Byte32>)
    requires exists i :: 0 <= i < |v.dag| && v.dag[i].id == id
    ensures AddBlock(v, id, parents) == v
  {
  }
}
