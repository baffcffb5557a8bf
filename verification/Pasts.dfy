/**
  The past of a block - all its ancestors - and the sizes derived from it.
 */
module Pasts {
  import opened Collections
  import opened Graphs
  import opened Dags

  ghost function Past(s: Store, h: BlockHash): set<BlockHash> {
    set a | a in s && Reaches(ParentGraph(s), h, a)
  }

  /** The traversal's anticone: ancestors of `b` that are neither `r` nor ancestors of `r`. */
  ghost function Anticone(s: Store, b: BlockHash, r: BlockHash): set<BlockHash> {
    Past(s, b) - Past(s, r) - {r}
  }

  ghost function BlueScore(s: Store, h: BlockHash): nat {
    |Past(s, h)| + 1
  }

  lemma PastExactly(s: Store, h: BlockHash, a: BlockHash)
    requires Layered(s)
    ensures a in Past(s, h) <==> Reaches(ParentGraph(s), h, a)
  {
    StoreIsRanked(s);
    if Reaches(ParentGraph(s), h, a) {
      ReachesDescends(ParentGraph(s), TopoRank(s), h, a);
    }
  }

  lemma NotInOwnPast(s: Store, h: BlockHash)
    requires Layered(s)
    ensures h !in Past(s, h)
  {
    StoreIsRanked(s);
    if Reaches(ParentGraph(s), h, h) {
      ReachesDescends(ParentGraph(s), TopoRank(s), h, h);
    }
  }

  lemma PastIsTransitive(s: Store, h: BlockHash, a: BlockHash)
    requires a in Past(s, h)
    ensures Past(s, a) <= Past(s, h)
  {
    forall x | x in Past(s, a)
      ensures x in Past(s, h)
    {
      ReachesTransitive(ParentGraph(s), h, a, x);
    }
  }

  lemma AnticoneExactly(s: Store, b: BlockHash, r: BlockHash)
    requires Layered(s)
    ensures forall x :: x in Anticone(s, b, r) <==>
              Reaches(ParentGraph(s), b, x) && x != r && !Reaches(ParentGraph(s), r, x)
  {
    forall x
      ensures x in Anticone(s, b, r) <==> Reaches(ParentGraph(s), b, x) && x != r && !Reaches(ParentGraph(s), r, x)
    {
      PastExactly(s, b, x);
      PastExactly(s, r, x);
    }
  }

  /** An ancestor of `r` has an empty anticone against `r`. */
  lemma AnticoneOfAncestor(s: Store, b: BlockHash, r: BlockHash)
    requires b == r || b in Past(s, r)
    ensures Anticone(s, b, r) == {}
  {
    if b in Past(s, r) {
      PastIsTransitive(s, r, b);
    }
  }

  /** Every block of `s` is in `s'`, unchanged. */
  ghost predicate Grows(s: Store, s': Store) {
    forall x :: x in s ==> x in s' && s'[x] == s[x]
  }

  lemma {:induction false} WalkStable(s: Store, s': Store, h: BlockHash, a: BlockHash, n: nat)
    requires Layered(s) && h in s
    requires Grows(s, s')
    ensures Walk(ParentGraph(s), h, a, n) <==> Walk(ParentGraph(s'), h, a, n)
    decreases n
  {
    if n > 0 {
      assert Adj(ParentGraph(s), h) == Adj(ParentGraph(s'), h);
      forall p | p in Adj(ParentGraph(s), h) { WalkStable(s, s', p, a, n - 1); }
    }
  }

  /** The past of a stored block never changes while the DAG grows; nor does its blue score. */
  lemma {:induction false} PastStable(s: Store, s': Store, h: BlockHash)
    requires Layered(s) && Layered(s') && h in s
    requires Grows(s, s')
    ensures Past(s', h) == Past(s, h) && BlueScore(s', h) == BlueScore(s, h)
  {
    forall a
      ensures Reaches(ParentGraph(s), h, a) <==> Reaches(ParentGraph(s'), h, a)
    {
      forall n: nat { WalkStable(s, s', h, a, n); }
    }
    forall a
      ensures a in Past(s', h) <==> a in Past(s, h)
    {
      PastExactly(s, h, a);
      PastExactly(s', h, a);
    }
  }

  /** A block that is not stored, or stored without parents, scores one; every other block scores more. */
  lemma ScoreOneExactly(s: Store, h: BlockHash)
    requires Layered(s)
    ensures BlueScore(s, h) == 1 <==> h !in s || s[h].header.parentHashes == []
  {
    var ps := Adj(ParentGraph(s), h);
    SomeMember(ps);
    if ps != [] {
      var p :| p in ps;
      ReachesByEdge(ParentGraph(s), h, p);
      PastExactly(s, h, p);
    } else {
      forall a ensures a !in Past(s, h) { NothingAbove(s, h, a); }
      assert Past(s, h) == {};
    }
  }

  lemma NothingAbove(s: Store, h: BlockHash, a: BlockHash)
    requires Adj(ParentGraph(s), h) == []
    ensures !Reaches(ParentGraph(s), h, a)
  {
    if Reaches(ParentGraph(s), h, a) {
      var p := ReachesFirstStep(ParentGraph(s), h, a);
      assert false;
    }
  }
}
