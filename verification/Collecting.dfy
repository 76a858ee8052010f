/** The loops of EndBlock and Commit. They visit their maps in an arbitrary order; what they return does not
    depend on it. */
module Collecting {
  import opened ByteStrings
  import opened Committees
  import opened AppData
  import opened Sorting
  import opened Parents
  import opened Blocks

  ghost predicate NoDuplicates(s: seq<Byte32>) {
    forall i, j | 0 <= i < j < |s| :: s[i] != s[j]
  }

  /** What the loop has found in the part of the map it has visited. */
  ghost predicate Collected(c: Committee, a: App, visited: set<Byte32>, weight: int, parents: seq<Byte32>) {
    && weight == |IssuersOf(a, Confirmed(c, a) * visited)|
    && NoDuplicates(parents) && Elements(parents) == Candidates(c, a) * visited
  }

  lemma CollectedNone(c: Committee, a: App)
    ensures Collected(c, a, a.proofIssuersByBlockID.Keys - a.proofIssuersByBlockID.Keys, 0, [])
  {
    assert Confirmed(c, a) * {} == {};
    assert IssuersOf(a, {}) == {};
  }

  lemma CollectedAll(c: Committee, a: App, weight: int, parents: seq<Byte32>)
    requires Collected(c, a, a.proofIssuersByBlockID.Keys - {}, weight, parents)
    ensures weight == |IssuersOf(a, Confirmed(c, a))|
    ensures NoDuplicates(parents) && Elements(parents) == Candidates(c, a)
  {
    var all := a.proofIssuersByBlockID.Keys - {};
    assert Confirmed(c, a) * all == Confirmed(c, a);
    assert Candidates(c, a) * all == Candidates(c, a);
  }

  lemma CollectedWeight(c: Committee, a: App, visited: set<Byte32>, b: Byte32)
    requires Counted(c, a) && b !in visited
    ensures |IssuersOf(a, Confirmed(c, a) * (visited + {b}))| ==
      |IssuersOf(a, Confirmed(c, a) * visited)| + (if b in Confirmed(c, a) then Count(a, b) else 0)
  {
    hide Confirmed, IssuersOf;
    var before := Confirmed(c, a) * visited;
    if b in Confirmed(c, a) {
      IssuersSplit(a, before, b);
      assert Confirmed(c, a) * (visited + {b}) == before + {b};
    } else {
      assert Confirmed(c, a) * (visited + {b}) == before;
    }
  }

  lemma CollectedSkip(c: Committee, a: App, visited: set<Byte32>, weight: int, parents: seq<Byte32>, b: Byte32)
    requires Counted(c, a) && b !in visited && Collected(c, a, visited, weight, parents)
    ensures b !in Confirmed(c, a) ==> Collected(c, a, visited + {b}, weight, parents)
    ensures b in Confirmed(c, a) && b == a.state.lastMilestoneBlockID ==>
      Collected(c, a, visited + {b}, weight + Count(a, b), parents)
  {
    hide Confirmed, IssuersOf, Counted;
    CollectedWeight(c, a, visited, b);
    assert b !in Candidates(c, a) ==> Candidates(c, a) * (visited + {b}) == Candidates(c, a) * visited;
  }

  lemma CollectedParent(c: Committee, a: App, visited: set<Byte32>, weight: int, parents: seq<Byte32>, b: Byte32)
    requires Counted(c, a) && b !in visited && Collected(c, a, visited, weight, parents)
    requires b in Candidates(c, a)
    ensures Collected(c, a, visited + {b}, weight + Count(a, b), parents + [b])
  {
    hide Confirmed, IssuersOf, Counted;
    CollectedWeight(c, a, visited, b);
    assert b !in Elements(parents);
    assert Elements(parents + [b]) == Elements(parents) + {b};
    assert Candidates(c, a) * (visited + {b}) == Candidates(c, a) * visited + {b};
  }

  lemma ConfirmedIf(c: Committee, a: App, b: Byte32)
    requires b in a.proofIssuersByBlockID
    ensures b in Confirmed(c, a) <==> Count(a, b) > 0 && |a.proofIssuersByBlockID[b]| > c.f
    ensures b in Candidates(c, a) <==> b in Confirmed(c, a) && b != a.state.lastMilestoneBlockID
  {
  }

  /** One turn of the loop; `rest` is what it still has to visit. */
  lemma CollectedStep(c: Committee, a: App, rest: set<Byte32>, weight: int, parents: seq<Byte32>, b: Byte32)
    requires Counted(c, a) && b in rest && rest <= a.proofIssuersByBlockID.Keys
    requires Collected(c, a, a.proofIssuersByBlockID.Keys - rest, weight, parents)
    ensures var confirmed := Count(a, b) > 0 && |a.proofIssuersByBlockID[b]| > c.f;
      Collected(c, a, a.proofIssuersByBlockID.Keys - (rest - {b}), if confirmed then weight + Count(a, b) else weight,
                if confirmed && b != a.state.lastMilestoneBlockID then parents + [b] else parents)
  {
    hide Collected, Confirmed, Candidates, IssuersOf, Counted;
    var visited := a.proofIssuersByBlockID.Keys - rest;
    assert a.proofIssuersByBlockID.Keys - (rest - {b}) == visited + {b};
    ConfirmedIf(c, a, b);
    if b in Candidates(c, a) {
      CollectedParent(c, a, visited, weight, parents, b);
    } else {
      CollectedSkip(c, a, visited, weight, parents, b);
    }
  }

  /** Collects the confirmed parents, except for the last milestone block, and counts their proposers. */
  method CollectParents(c: Committee, a: App) returns (weight: int, parents: seq<Byte32>)
    requires Counted(c, a)
    ensures weight == |IssuersOf(a, Confirmed(c, a))|
    ensures NoDuplicates(parents) && Elements(parents) == Candidates(c, a)
  {
    hide Collected, IssuersOf, Counted, Confirmed, Candidates, NoDuplicates, Elements;
    weight, parents := 0, [];
    CollectedNone(c, a);
    var rest := a.proofIssuersByBlockID.Keys;
    while rest != {}
      invariant rest <= a.proofIssuersByBlockID.Keys
      invariant Collected(c, a, a.proofIssuersByBlockID.Keys - rest, weight, parents)
      decreases rest
    {
      var b :| b in rest;
      CollectedStep(c, a, rest, weight, parents, b);
      if Count(a, b) > 0 && |a.proofIssuersByBlockID[b]| > c.f {
        weight := weight + Count(a, b);
        if b != a.state.lastMilestoneBlockID {
          parents := parents + [b];
        }
      }
      rest := rest - {b};
    }
    CollectedAll(c, a, weight, parents);
  }

  lemma RankedPrefix(a: App, s: seq<Byte32>, k: nat)
    requires NoDuplicates(s) && k <= |s|
    ensures Elements(SortRanked(a, s)[..k]) == First(a, Elements(s), k)
  {
    SortIsRanked(a, s);
    PrefixIsFirst(a, SortRanked(a, s), k);
  }

  lemma ElementsSnoc(s: seq<Byte32>, x: Byte32)
    ensures Elements(s + [x]) == Elements(s) + {x}
  {
  }

  /** Cuts the collected parents down to what fits in a block, and adds the last milestone block. */
  method FinalParents(w: World, ghost c: Committee, a: App, collected: seq<Byte32>) returns (parents: seq<Byte32>)
    requires FitsLimits(w, c)
    requires NoDuplicates(collected) && Elements(collected) == Candidates(c, a)
    ensures parents == MilestoneParents(w, c, a)
  {
    hide Elements, Candidates, First, SortRanked, RemoveDupsAndSort;
    parents := collected;
    NoDuplicatesSize(collected);
    if |parents| > w.blockMaxParents - 1 {
      RankedPrefix(a, parents, w.blockMaxParents - 1);
      parents := SortRanked(a, parents)[..w.blockMaxParents - 1];
    }
    ElementsSnoc(parents, a.state.lastMilestoneBlockID);
    parents := parents + [a.state.lastMilestoneBlockID];
    SortIsDetermined(parents);
    parents := RemoveDupsAndSort(parents);
  }

  lemma {:induction false} NoDuplicatesSize(s: seq<Byte32>)
    requires NoDuplicates(s)
    ensures |Elements(s)| == |s|
  {
    if s == [] {
      assert Elements(s) == {};
    } else {
      NoDuplicatesSize(s[1..]);
      assert Elements(s) == Elements(s[1..]) + {s[0]};
    }
  }

  /** The signatures of a complete milestone, sorted. */
  method CollectSignatures(a: App) returns (signatures: seq<Signature>)
    requires forall p | p in a.signaturesByIssuer :: a.signaturesByIssuer[p].publicKey == p
    ensures signatures == SignatureList(a)
  {
    signatures := [];
    var rest := a.signaturesByIssuer.Keys;
    while rest != {}
      invariant rest <= a.signaturesByIssuer.Keys
      invariant forall i, j | 0 <= i < j < |signatures| :: signatures[i].publicKey != signatures[j].publicKey
      invariant forall s :: s in signatures <==>
        s.publicKey in a.signaturesByIssuer && s.publicKey !in rest && a.signaturesByIssuer[s.publicKey] == s
      decreases rest
    {
      var p :| p in rest;
      forall i | 0 <= i < |signatures| ensures signatures[i].publicKey != p {
        assert signatures[i] in signatures;
      }
      signatures := signatures + [a.signaturesByIssuer[p]];
      rest := rest - {p};
    }
    SortKeyed(signatures);
    ListedSignatures(a);
    KeyedUnique(SortSignatures(signatures), SignatureList(a));
    signatures := SortSignatures(signatures);
  }

  lemma ListedSignatures(a: App)
    requires forall p | p in a.signaturesByIssuer :: a.signaturesByIssuer[p].publicKey == p
    ensures Keyed(SignatureList(a))
    ensures forall s :: s in SignatureList(a) <==>
      s.publicKey in a.signaturesByIssuer && a.signaturesByIssuer[s.publicKey] == s
  {
    var keys, list := Sorted(a.signaturesByIssuer.Keys), SignatureList(a);
    forall i | 0 <= i < |list| ensures keys[i] in a.signaturesByIssuer && list[i].publicKey == keys[i] {
      assert keys[i] in Elements(keys);
    }
    forall p | p in a.signaturesByIssuer ensures a.signaturesByIssuer[p] in list {
      assert p in Elements(keys);
      var i :| 0 <= i < |keys| && keys[i] == p;
      assert list[i] == a.signaturesByIssuer[p];
    }
  }
}
