/** The heaviest-branch tip selector: bitsets of past cones, and the greedy selection that subtracts them in place. */
module Heaviest {
  import opened ByteStrings
  import opened Coverage
  import opened Tangle
  import opened Selections

  class TrackedBlock {
    const blockID: Byte32
    /** whether the block has an element in the tip list */
    var tip: bool
    var refs: set<nat>
    /** the bit of this block */
    ghost const idx: nat

    constructor (blockID: Byte32, idx: nat)
      ensures this.blockID == blockID && this.idx == idx && refs == {idx} && !tip
    {
      this.blockID := blockID;
      this.idx := idx;
      refs := {idx};
      tip := false;
    }
  }

  /** The working list of a selection; the blocks are shared with the selector. */
  class TrackedBlocksList {
    var blocks: map<Byte32, TrackedBlock>

    ghost predicate Valid()
      reads this
    {
      forall id | id in blocks :: blocks[id].blockID == id
    }

    constructor (blocks: map<Byte32, TrackedBlock>)
      requires forall id | id in blocks :: blocks[id].blockID == id
      ensures Valid() && this.blocks == blocks
    {
      this.blocks := blocks;
    }

    method RemoveTip(tip: TrackedBlock)
      requires Valid()
      modifies this
      ensures Valid() && blocks == old(blocks) - {tip.blockID}
    {
      blocks := blocks - {tip.blockID};
    }

    /** Removes the tip and clears everything it references in all the other tips. */
    method ReferenceTip(tip: TrackedBlock)
      requires Valid()
      modifies this, (set id | id in blocks && id != tip.blockID :: blocks[id])`refs
      ensures Valid() && blocks == old(blocks) - {tip.blockID}
      ensures forall id | id in blocks :: blocks[id].refs == old(blocks[id].refs) - tip.refs
      ensures tip.refs == old(tip.refs)
    {
      RemoveTip(tip);
      var rest := blocks.Keys;
      while rest != {}
        invariant rest <= blocks.Keys
        invariant blocks == old(blocks) - {tip.blockID} && tip.refs == old(tip.refs)
        invariant forall id | id in rest :: blocks[id].refs == old(blocks[id].refs)
        invariant forall id | id in blocks && id !in rest :: blocks[id].refs == old(blocks[id].refs) - tip.refs
      {
        var id :| id in rest;
        blocks[id].refs := blocks[id].refs - tip.refs;
        rest := rest - {id};
      }
    }
  }

  /** The tip that references the most blocks, ties broken at random; none if there are no tips left. */
  method SelectTip(list: TrackedBlocksList) returns (r: Option<(TrackedBlock, nat)>)
    requires list.Valid()
    ensures r.None? <==> list.blocks == map[]
    ensures r.Some? ==> (var (tip, count) := r.value;
      && tip.blockID in list.blocks && list.blocks[tip.blockID] == tip
      && count == |tip.refs|
      && forall id | id in list.blocks :: |list.blocks[id].refs| <= count)
  {
    if |list.blocks| == 0 {
      return None;
    }
    var best: seq<TrackedBlock>, count: nat := [], 0;
    var rest := list.blocks.Keys;
    while rest != {}
      invariant rest <= list.blocks.Keys
      invariant rest == list.blocks.Keys || best != []
      invariant count > 0 ==> best != []
      invariant forall k | 0 <= k < |best| ::
        best[k].blockID in list.blocks && list.blocks[best[k].blockID] == best[k] && |best[k].refs| == count
      invariant forall id | id in list.blocks && id !in rest :: |list.blocks[id].refs| <= count
    {
      var id :| id in rest;
      var tip := list.blocks[id];
      var c := |tip.refs|;
      if c > count {
        best, count := [tip], c;
      } else if c == count {
        best := best + [tip];
      }
      rest := rest - {id};
    }
    if |best| == 0 {
      return None;
    }
    var k :| 0 <= k < |best|;
    return Some((best[k], count));
  }

  ghost function RefsOf(blocks: seq<TrackedBlock>): (refs: seq<set<nat>>)
    reads blocks`refs
    ensures |refs| == |blocks| && forall i | 0 <= i < |refs| :: refs[i] == blocks[i].refs
  {
    if blocks == [] then [] else RefsOf(blocks[..|blocks| - 1]) + [blocks[|blocks| - 1].refs]
  }

  /** `order` lists the tracked blocks by their bits. */
  ghost predicate IsOrdered(dag: seq<Node>, order: seq<TrackedBlock>, tracked: map<Byte32, TrackedBlock>) {
    && |dag| == |order| == |tracked|
    && (forall i | 0 <= i < |order| ::
          order[i].idx == i && order[i].blockID == dag[i].id && dag[i].id in tracked && tracked[dag[i].id] == order[i])
    && (forall id | id in tracked ::
          tracked[id].blockID == id && tracked[id].idx < |order| && order[tracked[id].idx] == tracked[id])
  }

  /** Exactly the blocks of the tip list have an element in it. */
  ghost predicate IsFlagged(order: seq<TrackedBlock>, tips: set<TrackedBlock>)
    reads order`tip
  {
    && (forall i | 0 <= i < |order| :: order[i].tip <==> order[i] in tips)
    && (forall b | b in tips :: b.idx < |order| && order[b.idx] == b)
  }

  ghost function TipsAt(order: seq<TrackedBlock>, tips: set<TrackedBlock>): set<nat> {
    set i: nat | i < |order| && order[i] in tips
  }

  lemma OrderedSnoc(dag: seq<Node>, order: seq<TrackedBlock>, tracked: map<Byte32, TrackedBlock>,
                    it: TrackedBlock, parents: set<nat>)
    requires IsOrdered(dag, order, tracked) && it.blockID !in tracked && it.idx == |dag|
    ensures IsOrdered(dag + [Node(it.blockID, parents)], order + [it], tracked[it.blockID := it])
  {
  }

  lemma TipsSnoc(order: seq<TrackedBlock>, tips: set<TrackedBlock>, it: TrackedBlock)
    requires it !in tips
    ensures TipsAt(order + [it], tips) == TipsAt(order, tips)
  {
  }

  /** What happens to the positions when a block leaves or enters the tip list. */
  lemma TipsChange(dag: seq<Node>, order: seq<TrackedBlock>, tracked: map<Byte32, TrackedBlock>,
                   tips: set<TrackedBlock>, it: TrackedBlock)
    requires IsOrdered(dag, order, tracked) && it.idx < |order| && order[it.idx] == it
    ensures TipsAt(order, tips - {it}) == TipsAt(order, tips) - {it.idx}
    ensures TipsAt(order, tips + {it}) == TipsAt(order, tips) + {it.idx}
    ensures it !in tips ==> it.idx !in TipsAt(order, tips)
  {
    assert forall i: nat | i < |order| && order[i] == it :: order[i].idx == i;
  }

  lemma OrderedFacts(dag: seq<Node>, order: seq<TrackedBlock>, tracked: map<Byte32, TrackedBlock>)
    requires IsOrdered(dag, order, tracked)
    ensures |dag| == |order| == |tracked| && forall i | 0 <= i < |order| :: order[i].idx == i
  {
  }

  datatype Selected = Tips(tips: seq<Byte32>) | NoTipsAvailable | Canceled

  /** Why a selection ends: enough tips, a cancelled context, no tips left, or too light a tip. */
  datatype Stop = Full | Done | Exhausted | Light

  function AllButLast(picks: seq<nat>): nat {
    if picks == [] then 0 else |picks| - 1
  }

  class Heaviest {
    const maxTips: int
    const reducedConfirmationLimit: real

    var trackedBlocks: map<Byte32, TrackedBlock>
    /** the tip list; its order is never observed */
    var tips: set<TrackedBlock>

    ghost var dag: seq<Node>
    ghost var order: seq<TrackedBlock>

    ghost predicate Tracks(b: TrackedBlock)
      reads this`order
    {
      b.idx < |order| && order[b.idx] == b
    }

    ghost predicate Indexed()
      reads this, order
    {
      IsOrdered(dag, order, trackedBlocks) && IsFlagged(order, tips)
    }

    ghost function Refs(): (refs: seq<set<nat>>)
      reads this`order, order`refs
      ensures |refs| == |order| && forall i | 0 <= i < |refs| :: refs[i] == order[i].refs
    {
      RefsOf(order)
    }

    ghost function TipSet(): set<nat>
      reads this`order, this`tips
    {
      TipsAt(order, tips)
    }

    ghost function Abstract(): View
      reads this, order
    {
      View(dag, Refs(), TipSet())
    }

    ghost predicate Valid()
      reads this, order
    {
      Indexed() && Consistent(Abstract())
    }

    constructor (maxTips: int, reducedConfirmationLimit: real)
      ensures Valid() && Abstract() == EMPTY
      ensures this.maxTips == maxTips && this.reducedConfirmationLimit == reducedConfirmationLimit
    {
      this.maxTips := maxTips;
      this.reducedConfirmationLimit := reducedConfirmationLimit;
      trackedBlocks, tips := map[], {};
      dag, order := [], [];
    }

    method Reset()
      modifies this
      ensures Valid() && Abstract() == EMPTY
    {
      trackedBlocks, tips := map[], {};
      dag, order := [], [];
    }

    method TrackedBlocks() returns (n: nat)
      requires Valid()
      ensures n == |Abstract().dag|
    {
      n := |trackedBlocks|;
    }

    method NumTips() returns (n: nat)
      requires Valid()
      ensures n == |Abstract().tips|
    {
      n := |tips|;
      CountTips(tips);
    }

    lemma {:induction false} CountTips(s: set<TrackedBlock>)
      requires forall i | 0 <= i < |order| :: order[i].idx == i
      requires forall b | b in s :: Tracks(b)
      ensures |set i: nat | i < |order| && order[i] in s| == |s|
    {
      var indices := set i: nat | i < |order| && order[i] in s;
      if s == {} {
        assert indices == {};
      } else {
        var b :| b in s;
        var rest := set i: nat | i < |order| && order[i] in s - {b};
        CountTips(s - {b});
        forall i: nat | i < |order| && order[i] == b ensures i == b.idx {
          assert order[i].idx == i;
        }
        assert indices == rest + {b.idx};
      }
    }

    /** Removes the block from the tip list, if it is there. */
    method RemoveTip(it: TrackedBlock)
      requires Indexed() && Tracks(it)
      modifies this`tips, it`tip
      ensures IsFlagged(order, tips) && TipSet() == old(TipSet()) - {it.idx}
    {
      hide RefsOf, IsOrdered, TipsAt;
      TipsChange(dag, order, trackedBlocks, tips, it);
      if !it.tip {
        return;
      }
      tips := tips - {it};
      it.tip := false;
    }

    method CollectParents(parents: seq<Byte32>) returns (r: seq<TrackedBlock>)
      requires Indexed()
      ensures forall k | 0 <= k < |r| :: Tracks(r[k]) && r[k].idx in TrackedParents(dag, parents)
      ensures forall i | i in TrackedParents(dag, parents) :: order[i] in r
    {
      r := [];
      for k := 0 to |parents|
        invariant forall j | 0 <= j < |r| :: Tracks(r[j]) && r[j].blockID in parents
        invariant forall j | 0 <= j < k && parents[j] in trackedBlocks :: trackedBlocks[parents[j]] in r
      {
        if parents[k] in trackedBlocks {
          r := r + [trackedBlocks[parents[k]]];
        }
      }
      forall i | i in TrackedParents(dag, parents) ensures order[i] in r {
        var j :| 0 <= j < |parents| && parents[j] == dag[i].id;
      }
    }

    method UniteReferences(it: TrackedBlock, parents: seq<TrackedBlock>)
      requires it !in parents
      modifies it`refs
      ensures forall x :: x in it.refs <==> x in old(it.refs) || exists k :: 0 <= k < |parents| && x in parents[k].refs
    {
      for k := 0 to |parents|
        invariant forall j | 0 <= j < |parents| :: parents[j].refs == old(parents[j].refs)
        invariant forall x :: x in it.refs <==> x in old(it.refs) || exists j :: 0 <= j < k && x in parents[j].refs
      {
        it.refs := it.refs + parents[k].refs;
      }
    }

    lemma UnitedReferences(r: seq<TrackedBlock>, parents: seq<Byte32>)
      requires forall i | 0 <= i < |order| :: order[i].idx == i
      requires |dag| == |order|
      requires forall k | 0 <= k < |r| :: Tracks(r[k]) && r[k].idx in TrackedParents(dag, parents)
      requires forall i | i in TrackedParents(dag, parents) :: order[i] in r
      ensures forall x :: x in Union(Refs(), TrackedParents(dag, parents)) <==>
        exists k :: 0 <= k < |r| && x in r[k].refs
    {
      var refs, tracked := Refs(), TrackedParents(dag, parents);
      forall k, x | 0 <= k < |r| && x in r[k].refs ensures x in Union(refs, tracked) {
        assert x in refs[r[k].idx];
      }
      forall x | x in Union(refs, tracked) ensures exists k :: 0 <= k < |r| && x in r[k].refs {
        var i :| i in tracked && i < |refs| && x in refs[i];
        var k :| 0 <= k < |r| && r[k] == order[i];
      }
    }

    /** Takes the blocks at the positions `s` off the tip list. */
    method RemoveTips(blocks: seq<TrackedBlock>, ghost s: set<nat>)
      requires Indexed()
      requires forall k | 0 <= k < |blocks| :: Tracks(blocks[k]) && blocks[k].idx in s
      requires forall i | i in s :: i < |order| && order[i] in blocks
      modifies this`tips, (set k | 0 <= k < |blocks| :: blocks[k])`tip
      ensures IsFlagged(order, tips) && TipSet() == old(TipSet()) - s
    {
      hide IsOrdered, IsFlagged, TipsAt, RefsOf;
      ghost var before, gone: set<nat> := TipSet(), {};
      for k := 0 to |blocks|
        invariant IsFlagged(order, tips)
        invariant TipSet() == before - gone && gone <= s
        invariant forall j | 0 <= j < k :: blocks[j].idx in gone
      {
        RemoveTip(blocks[k]);
        gone := gone + {blocks[k].idx};
      }
      OrderedFacts(dag, order, trackedBlocks);
      forall i | i in s ensures i in gone {
        var j :| 0 <= j < |blocks| && blocks[j] == order[i];
      }
    }

    /** A new block with the next bit and everything its parents reference. */
    method Expand(blockID: Byte32, parents: seq<TrackedBlock>, ghost refs: seq<set<nat>>, ghost tracked: set<nat>)
      returns (it: TrackedBlock)
      requires |dag| == |trackedBlocks|
      requires forall x :: x in Union(refs, tracked) <==> exists k :: 0 <= k < |parents| && x in parents[k].refs
      ensures fresh(it) && it.blockID == blockID && it.idx == |dag| && !it.tip
      ensures it.refs == NewReferences(refs, |dag|, tracked)
    {
      var idx := |trackedBlocks|;
      it := new TrackedBlock(blockID, idx);
      UniteReferences(it, parents);
    }

    /** Tracks a new block, which is not yet a tip. */
    method Track(it: TrackedBlock, ghost parents: set<nat>)
      requires Indexed() && it !in order && it.blockID !in trackedBlocks && it.idx == |dag| && !it.tip
      modifies this`trackedBlocks, this`order, this`dag
      ensures Indexed() && order == old(order) + [it] && dag == old(dag) + [Node(it.blockID, parents)]
      ensures Refs() == old(Refs()) + [it.refs] && TipSet() == old(TipSet())
    {
      hide IsOrdered, TipsAt, RefsOf;
      assert it !in tips;
      OrderedSnoc(dag, order, trackedBlocks, it, parents);
      TipsSnoc(order, tips, it);
      trackedBlocks := trackedBlocks[it.blockID := it];
      order, dag := order + [it], dag + [Node(it.blockID, parents)];
    }

    method PushTip(it: TrackedBlock)
      requires Indexed() && Tracks(it)
      modifies this`tips, it`tip
      ensures IsFlagged(order, tips) && TipSet() == old(TipSet()) + {it.idx}
    {
      hide IsOrdered, TipsAt, RefsOf;
      TipsChange(dag, order, trackedBlocks, tips, it);
      tips := tips + {it};
      it.tip := true;
    }

    /** Tracks a new block as a tip, and takes its parents off the tip list. */
    method Attach(it: TrackedBlock, parents: seq<TrackedBlock>, ghost tracked: set<nat>)
      requires Indexed() && it !in order && it.blockID !in trackedBlocks && it.idx == |dag| && !it.tip
      requires forall k | 0 <= k < |parents| :: Tracks(parents[k]) && parents[k].idx in tracked
      requires forall i | i in tracked :: i < |order| && order[i] in parents
      modifies this, order`tip, it`tip
      ensures Indexed() && dag == old(dag) + [Node(it.blockID, tracked)]
      ensures Refs() == old(Refs()) + [it.refs] && TipSet() == old(TipSet()) - tracked + {it.idx}
    {
      hide RefsOf, TipsAt, IsFlagged, IsOrdered;
      OrderedFacts(dag, order, trackedBlocks);
      Track(it, tracked);
      RemoveTips(parents, tracked);
      PushTip(it);
    }

    /** Adds a block that is not tracked yet, and takes its parents off the tip list. */
    method Insert(blockID: Byte32, parents: seq<Byte32>)
      requires Indexed() && blockID !in trackedBlocks
      modifies this, order`tip
      ensures Indexed()
      ensures dag == old(dag) + [Node(blockID, TrackedParents(old(dag), parents))]
      ensures Refs() == old(Refs()) + [NewReferences(old(Refs()), |old(dag)|, TrackedParents(old(dag), parents))]
      ensures var n: nat := |old(dag)|; TipSet() == old(TipSet()) - TrackedParents(old(dag), parents) + {n}
    {
      hide NewReferences, Union, TrackedParents, RefsOf, TipsAt, IsFlagged, IsOrdered;
      ghost var refs, tracked := Refs(), TrackedParents(dag, parents);
      var trackedParents := CollectParents(parents);
      OrderedFacts(dag, order, trackedBlocks);
      TrackedAreTracked(tracked, parents);
      UnitedReferences(trackedParents, parents);
      var it := Expand(blockID, trackedParents, refs, tracked);
      Attach(it, trackedParents, tracked);
    }

    lemma TrackedAreTracked(tracked: set<nat>, parents: seq<Byte32>)
      requires |dag| == |order| && tracked == TrackedParents(dag, parents)
      ensures forall i | i in tracked :: i < |order|
    {
    }

    /** Starts to track a block; duplicates are ignored. Returns the number of tracked blocks. */
    method OnNewSolidBlock(blockID: Byte32, parents: seq<Byte32>) returns (n: nat)
      requires Valid()
      modifies this, order
      ensures Valid()
      ensures Abstract() == AddBlock(old(Abstract()), blockID, parents)
      ensures n == |Abstract().dag|
    {
      TrackedIDs(blockID);
      if blockID in trackedBlocks {
        return |trackedBlocks|;
      }
      ConsistentAdd(Abstract(), blockID, parents);
      Insert(blockID, parents);
      n := |trackedBlocks|;
    }

    lemma TrackedIDs(id: Byte32)
      requires Indexed()
      ensures id in trackedBlocks <==> IsTracked(dag, id)
    {
      if id in trackedBlocks {
        assert dag[trackedBlocks[id].idx].id == id;
      }
    }

    /** `blocks` holds exactly the tracked blocks at the positions `left`. */
    ghost predicate Remaining(blocks: map<Byte32, TrackedBlock>, left: set<nat>)
      reads this`order
    {
      && (forall i: nat | i in left ::
            i < |order| && order[i].blockID in blocks && blocks[order[i].blockID] == order[i])
      && (forall id | id in blocks :: blocks[id].blockID == id && Tracks(blocks[id]) && blocks[id].idx in left)
    }

    lemma TipsRemain(blocks: map<Byte32, TrackedBlock>)
      requires Indexed()
      requires forall id | id in blocks :: blocks[id].blockID == id && blocks[id] in tips
      requires forall b | b in tips :: b.blockID in blocks && blocks[b.blockID] == b
      ensures Remaining(blocks, TipSet())
    {
      hide RefsOf;
    }

    /** The working list of a selection: the current tips by their block ID. The blocks are not copied. */
    method TipsToList() returns (list: TrackedBlocksList)
      requires Indexed()
      ensures fresh(list) && list.Valid()
      ensures Remaining(list.blocks, TipSet())
    {
      hide RefsOf, IsOrdered, Remaining, TipsAt;
      var blocks: map<Byte32, TrackedBlock> := map[];
      var rest := tips;
      SameIDSameBlock();
      while rest != {}
        invariant rest <= tips
        invariant forall id | id in blocks :: blocks[id].blockID == id && blocks[id] in tips
        invariant forall b | b in tips && b !in rest :: b.blockID in blocks && blocks[b.blockID] == b
      {
        var tip :| tip in rest;
        blocks := blocks[tip.blockID := tip];
        rest := rest - {tip};
      }
      TipsRemain(blocks);
      list := new TrackedBlocksList(blocks);
    }

    lemma SameIDSameBlock()
      requires Indexed()
      ensures forall b, b' | b in tips && b' in tips && b.blockID == b'.blockID :: b == b'
    {
      forall b | b in tips ensures b.blockID in trackedBlocks && trackedBlocks[b.blockID] == b {
        assert dag[b.idx].id == b.blockID;
      }
    }

    /** Clears what the last pick references in all the tips that are left. */
    method Subtract(list: TrackedBlocksList, last: TrackedBlock, ghost left: set<nat>)
      requires Indexed() && list.Valid() && Tracks(last) && last.idx in left
      requires Remaining(list.blocks, left)
      modifies list, order`refs
      ensures Indexed() && list.Valid()
      ensures Remaining(list.blocks, left - {last.idx})
      ensures Refs() == Cleared(old(Refs()), left, last.idx)
    {
      ghost var refs := Refs();
      list.ReferenceTip(last);
      forall t | 0 <= t < |order| ensures order[t].refs == Cleared(refs, left, last.idx)[t] {
        if t in left && t != last.idx {
          assert order[t].blockID in list.blocks;
        }
      }
      assert Refs() == Cleared(refs, left, last.idx);
    }

    /** The number of picks that a selection cannot exceed. */
    function Limit(): nat {
      if maxTips < 0 then 0 else maxTips
    }

    /** References the last pick, if any, and looks for the heaviest tip that is left. */
    method Next(list: TrackedBlocksList, last: TrackedBlock?, ghost left: set<nat>)
      returns (r: Option<(TrackedBlock, nat)>, ghost left': set<nat>)
      requires Indexed() && list.Valid() && Remaining(list.blocks, left)
      requires last != null ==> Tracks(last) && last.idx in left
      modifies list, order`refs
      ensures Indexed() && list.Valid() && Remaining(list.blocks, left')
      ensures left' == if last == null then left else left - {last.idx}
      ensures Refs() == if last == null then old(Refs()) else Cleared(old(Refs()), left, last.idx)
      ensures r.None? <==> left' == {}
      ensures r.Some? ==> (var (tip, count) := r.value;
        && Tracks(tip) && tip.idx in left' && tip.blockID == IDAt(dag, tip.idx)
        && count == |Refs()[tip.idx]|
        && forall x: nat | x in left' && x < |order| :: |Refs()[x]| <= count)
    {
      hide IsOrdered, IsFlagged, TipsAt, RefsOf, Cleared, Remaining;
      left' := left;
      if last != null {
        Subtract(list, last, left);
        left' := left - {last.idx};
      }
      r := SelectTip(list);
      HeaviestRemains(list.blocks, left', r);
    }

    lemma HeaviestRemains(blocks: map<Byte32, TrackedBlock>, left: set<nat>, r: Option<(TrackedBlock, nat)>)
      requires Indexed() && Remaining(blocks, left)
      requires r.None? <==> blocks == map[]
      requires r.Some? ==> r.value.0.blockID in blocks && blocks[r.value.0.blockID] == r.value.0
      requires r.Some? ==> forall id | id in blocks :: |blocks[id].refs| <= r.value.1
      ensures r.None? <==> left == {}
      ensures r.Some? ==> (var (tip, count) := r.value;
        && Tracks(tip) && tip.idx in left && tip.blockID == IDAt(dag, tip.idx)
        && forall x: nat | x in left && x < |order| :: |Refs()[x]| <= count)
    {
      hide RefsOf, TipsAt, IsFlagged;
      if left != {} {
        var i: nat :| i in left;
        assert order[i].blockID in blocks;
      }
      if r.Some? {
        assert dag[r.value.0.idx].id == r.value.0.blockID;
        forall x: nat | x in left && x < |order| ensures |order[x].refs| <= r.value.1 {
          assert order[x].blockID in blocks;
        }
      }
    }

    /** `last` is the last of the picks. */
    ghost predicate LastPick(last: TrackedBlock?, picks: seq<nat>, m: nat, left: set<nat>)
      reads this
    {
      && (last == null <==> picks == [])
      && (last == null ==> m == 0)
      && (last != null ==> m == |picks| - 1 && Tracks(last) && last.idx == picks[m] && picks[m] in left)
    }

    /** The next pick of a selection in progress, which is to be accepted unless it is too light. */
    method Advance(list: TrackedBlocksList, last: TrackedBlock?, ghost v: View, ghost minRequiredTips: int,
                   ghost picks: seq<nat>, ghost m: nat, ghost left: set<nat>)
      returns (r: Option<(TrackedBlock, nat)>, ghost left': set<nat>)
      requires Indexed() && dag == v.dag && list.Valid() && Remaining(list.blocks, left)
      requires Progress(v, reducedConfirmationLimit, minRequiredTips, picks, m, left, Refs())
      requires LastPick(last, picks, m, left)
      modifies list, order`refs
      ensures Indexed() && list.Valid() && Remaining(list.blocks, left')
      ensures Progress(v, reducedConfirmationLimit, minRequiredTips, picks, |picks|, left', Refs())
      ensures r.None? <==> left' == {}
      ensures r.Some? ==> (var (tip, count) := r.value;
        && Tracks(tip) && tip.idx in left' && count > 0
        && IDs(dag, picks + [tip.idx]) == IDs(dag, picks) + [tip.blockID]
        && Gain(v.refs, picks + [tip.idx], 0) == (if picks == [] then count else Gain(v.refs, picks, 0))
        && if picks != [] && |picks| >= minRequiredTips &&
              TooLight(reducedConfirmationLimit, count, Gain(v.refs, picks, 0)) then
             NothingWorthwhile(v, reducedConfirmationLimit, picks)
           else Progress(v, reducedConfirmationLimit, minRequiredTips, picks + [tip.idx], |picks|, left', Refs()))
    {
      hide Progress, NothingWorthwhile, Gain, TooLight;
      ghost var refs := Refs();
      r, left' := Next(list, last, left);
      if picks != [] {
        ProgressReference(v, reducedConfirmationLimit, minRequiredTips, picks, left, refs);
      }
      if r.Some? {
        ghost var t: nat := r.value.0.idx;
        ProgressPick(v, reducedConfirmationLimit, minRequiredTips, picks, left', Refs(), t);
        IDsSnoc(dag, picks, t);
      }
    }

    /** Picks tips greedily from the list. `ctxDone(i)` tells whether the context is done before the i-th pick. */
    method PickGreedy(ctxDone: nat -> bool, minRequiredTips: int, list: TrackedBlocksList, ghost v: View)
      returns (tips: seq<Byte32>, stop: Stop, ghost picks: seq<nat>, ghost m: nat, ghost left: set<nat>)
      requires Indexed() && v == Abstract() && OwnBits(v) && minRequiredTips >= 1
      requires list.Valid() && Remaining(list.blocks, v.tips)
      modifies order`refs, list
      ensures Indexed() && dag == v.dag && TipSet() == v.tips
      ensures tips == IDs(dag, picks) && |picks| <= Limit() && (stop == Full <==> |picks| == Limit())
      ensures Progress(v, reducedConfirmationLimit, minRequiredTips, picks, m, left, Refs())
      ensures match stop
        case Full => m == AllButLast(picks)
        case Done => ctxDone(|picks|) && m == AllButLast(picks)
        case Exhausted => left == {} && m == |picks|
        case Light => m == |picks| >= minRequiredTips && NothingWorthwhile(v, reducedConfirmationLimit, picks)
    {
      hide Progress, NothingWorthwhile, Gain, Refs, TipSet, Remaining, Indexed, IDs, OwnBits;
      picks, m, left := [], 0, TipSet();
      ProgressStart(v, reducedConfirmationLimit, minRequiredTips);
      tips, stop := [], Full;
      var last: TrackedBlock?, best: nat := null, 0;
      var i := 0;
      while i < maxTips
        invariant i == |picks| <= Limit()
        invariant Indexed() && dag == v.dag && list.Valid() && Remaining(list.blocks, left)
        invariant Progress(v, reducedConfirmationLimit, minRequiredTips, picks, m, left, Refs())
        invariant LastPick(last, picks, m, left)
        invariant tips == IDs(dag, picks)
        invariant picks != [] ==> best == Gain(v.refs, picks, 0) && best > 0
        decreases maxTips - i
      {
        if ctxDone(i) {
          stop := Done;
          return;
        }
        var pick: Option<(TrackedBlock, nat)>;
        pick, left := Advance(list, last, v, minRequiredTips, picks, m, left);
        m := |picks|;
        if pick.None? {
          stop := Exhausted;
          return;
        }
        var (tip, count) := pick.value;
        if i == 0 {
          best := count;
        }
        if |tips| >= minRequiredTips && count as real / best as real < reducedConfirmationLimit {
          stop := Light;
          return;
        }
        tips := tips + [tip.blockID];
        picks := picks + [tip.idx];
        last := tip;
        i := i + 1;
      }
    }

    /** Selects at least `minRequiredTips` tips if there are as many. `ctxDone(i)` tells whether the context is
        done before the i-th pick. */
    method SelectTips(ctxDone: nat -> bool, minRequiredTips: int)
      returns (r: Selected, ghost stop: Stop, ghost picks: seq<nat>, ghost m: nat)
      requires Valid() && minRequiredTips >= 1
      modifies order`refs
      ensures Valid()
      // the picks: greedy, at most maxTips, and all of them worth it
      ensures Outcome(old(Abstract()), Limit(), minRequiredTips, reducedConfirmationLimit, picks, m)
      // the result: success if there are enough picks, or as many as allowed
      ensures r.Tips? <==> |picks| >= minRequiredTips || stop == Full
      ensures r.Tips? ==> |r.tips| == |picks| && forall k | 0 <= k < |picks| ::
        picks[k] < |dag| && r.tips[k] == dag[picks[k]].id
      ensures r.NoTipsAvailable? ==> stop == Exhausted
      ensures r.Canceled? ==> stop == Done
      // why there are no more picks, and whether the last one was referenced
      ensures |picks| <= maxTips || picks == []
      ensures stop == Full <==> |picks| >= maxTips
      ensures match stop
        case Full => m == AllButLast(picks)
        case Done => ctxDone(|picks|) && m == AllButLast(picks)
        case Exhausted => Elements(picks) == old(TipSet()) && m == |picks|
        case Light =>
          m == |picks| >= minRequiredTips && NothingWorthwhile(old(Abstract()), reducedConfirmationLimit, picks)
      // the bitsets are left as the selection made them
      ensures Abstract() == AfterSelection(old(Abstract()), picks, m)
      ensures Limit() <= 1 && Intact(old(Abstract())) ==> Intact(Abstract())
    {
      hide Consistent, Intact, AfterSelection, NothingWorthwhile, Greedy, Accepted, Progress, IsOrdered, IsFlagged,
        RefsOf, TipsAt, Remaining;
      ghost var v := Abstract();
      TipsOwnTheirBits(v);
      if Intact(v) {
        SelectionKeepsCones(v, Limit(), minRequiredTips, reducedConfirmationLimit);
      }
      var list := TipsToList();
      var tips, why;
      ghost var left;
      tips, why, picks, m, left := PickGreedy(ctxDone, minRequiredTips, list, v);
      stop := why;
      ProgressEnd(v, reducedConfirmationLimit, minRequiredTips, picks, m, left, Refs());
      PicksAreTracked(v, picks);
      r := if |tips| >= minRequiredTips || why == Full then Tips(tips)
           else if why == Done then Canceled else NoTipsAvailable;
    }
  }
}
