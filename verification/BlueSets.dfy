/**
  Blue and red sets against a reference block (src/consensus/blue_set.rs).
 */
module BlueSets {
  import opened Collections
  import opened Graphs
  import opened Dags
  import opened Pasts
  import opened BlockDags
  import Kahn
  import Traversal = DagTraversals

  /** Blue: the reference itself, and every stored block whose anticone has at most `k` members. */
  ghost function Blue(s: Store, k: nat, r: BlockHash): set<BlockHash> {
    {r} + set b | b in s && |Anticone(s, b, r)| <= k
  }

  class BlueSet {
    const k: nat

    constructor (k: nat)
      ensures this.k == k
    {
      this.k := k;
    }

    method BuildBlueSet(dag: BlockDag, hashes: seq<BlockHash>, reference: BlockHash) returns (blue: set<BlockHash>)
      requires dag.Valid() && Lists(hashes, dag.store.Keys)
      ensures blue == Blue(dag.store, k, reference)
    {
      hide Dags.ValidStore, Indexed, Kahn.Topological, Kahn.Order, Anticone;
      blue := {reference};
      var all := dag.GetTopologicalOrder(hashes);
      ValidIsLayered(dag.rules, dag.store);
      for i := 0 to |all|
        invariant blue == {reference} + set b | b in all[..i] && |Anticone(dag.store, b, reference)| <= k
      {
        assert all[..i + 1] == all[..i] + [all[i]];
        if all[i] != reference {
          var anticone := Traversal.GetAnticone(dag.store, all[i], reference);
          if |anticone| <= k {
            blue := blue + {all[i]};
          }
        }
      }
      assert all[..|all|] == all;
    }

    method BuildRedSet(dag: BlockDag, hashes: seq<BlockHash>, reference: BlockHash) returns (red: set<BlockHash>)
      requires dag.Valid() && Lists(hashes, dag.store.Keys)
      ensures red == dag.store.Keys - Blue(dag.store, k, reference)
    {
      hide *;
      var blue := BuildBlueSet(dag, hashes, reference);
      var all := dag.GetTopologicalOrder(hashes);
      ListedSet(all, dag.store.Keys);
      red := (set h | h in all) - blue;
    }

    /** A block is blue in this sense exactly when it is the reference or in its past, whatever `k`. */
    method IsBlue(dag: BlockDag, blockHash: BlockHash, reference: BlockHash) returns (r: bool)
      requires dag.Valid()
      ensures r <==> blockHash == reference || blockHash in Past(dag.store, reference)
    {
      hide Dags.ValidStore, Indexed;
      ValidIsLayered(dag.rules, dag.store);
      PastExactly(dag.store, reference, blockHash);
      if blockHash != reference {
        var ancestors := dag.index.GetAllAncestors(reference, dag.store);
        if blockHash !in ancestors {
          return false;
        }
      }
      var anticone := Traversal.GetAnticone(dag.store, blockHash, reference);
      AnticoneOfAncestor(dag.store, blockHash, reference);
      r := |anticone| <= k;
    }

    method AreAllAncestorsBlue(dag: BlockDag, hashes: seq<BlockHash>, blockHash: BlockHash, reference: BlockHash)
      returns (r: bool)
      requires dag.Valid() && Lists(hashes, dag.store.Keys)
      ensures r <==> Past(dag.store, blockHash) <= Blue(dag.store, k, reference)
      ensures blockHash in Blue(dag.store, k, reference) ==> r
    {
      hide Dags.ValidStore, Indexed, Blue, Past;
      ValidIsLayered(dag.rules, dag.store);
      var ancestors := Traversal.GetAncestors(dag.store, blockHash);
      var blue := BuildBlueSet(dag, hashes, reference);
      if blockHash in Blue(dag.store, k, reference) {
        BlueIsAncestorClosed(dag.store, k, reference, blockHash);
      }
      var rest := ancestors;
      while rest != {}
        invariant rest <= ancestors && ancestors - rest <= blue
        decreases rest
      {
        var a :| a in rest;
        if a !in blue {
          return false;
        }
        rest := rest - {a};
      }
      r := true;
    }
  }

  lemma ListedSet(xs: seq<BlockHash>, S: set<BlockHash>)
    requires Lists(xs, S)
    ensures (set h | h in xs) == S
  {
  }

  /** The whole past of the reference is blue, for every `k`. */
  lemma PastIsBlue(s: Store, k: nat, r: BlockHash)
    ensures Past(s, r) <= Blue(s, k, r)
  {
    forall a | a in Past(s, r)
      ensures a in Blue(s, k, r)
    {
      AnticoneOfAncestor(s, a, r);
    }
  }

  /** Blue is closed under ancestors. */
  lemma BlueIsAncestorClosed(s: Store, k: nat, r: BlockHash, b: BlockHash)
    requires b in Blue(s, k, r)
    ensures Past(s, b) <= Blue(s, k, r)
  {
    if b == r {
      PastIsBlue(s, k, r);
    } else {
      forall a | a in Past(s, b)
        ensures a in Blue(s, k, r)
      {
        PastIsTransitive(s, b, a);
        assert Anticone(s, a, r) <= Anticone(s, b, r);
        SubsetIsSmaller(Anticone(s, a, r), Anticone(s, b, r));
      }
    }
  }

  /** A larger `k` makes more blocks blue, and some `k` makes all of them blue. */
  lemma BlueGrowsWithK(s: Store, k: nat, k': nat, r: BlockHash)
    requires k <= k'
    ensures Blue(s, k, r) <= Blue(s, k', r)
    ensures |s| <= k' ==> s.Keys <= Blue(s, k', r)
  {
    if |s| <= k' {
      forall b | b in s
        ensures b in Blue(s, k', r)
      {
        SubsetIsSmaller(Anticone(s, b, r), s.Keys);
      }
    }
  }

  /** For a stored reference, blue and red split the DAG. */
  lemma BlueAndRedPartition(s: Store, k: nat, r: BlockHash)
    requires r in s
    ensures var blue, red := Blue(s, k, r), s.Keys - Blue(s, k, r);
            && blue + red == s.Keys && blue !! red && |blue| + |red| == |s|
  {
    var blue, red := Blue(s, k, r), s.Keys - Blue(s, k, r);
    assert blue <= s.Keys;
    hide Blue;
    assert blue + red == s.Keys;
    assert |blue + red| == |blue| + |red|;
  }
}
