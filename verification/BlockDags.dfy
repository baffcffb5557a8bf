/**
  The DAG engine object (src/dag/blockdag.rs): it owns the store and the index, inserts
  blocks, and answers queries about heights, ancestors and order.
 */
module BlockDags {
  import opened Collections
  import opened Graphs
  import opened Blocks
  import opened Dags
  import opened DagIndexes
  import opened Heights
  import Kahn

  class BlockDag {
    const rules: Rules
    var store: Store
    var index: DagIndex

    ghost function View(): Dag
      reads this, index
    {
      Dag(store, index.tips, index.parentToChildren)
    }

    /** Every run of insertions from `new` is in such a state, see `Dags.RunIsValid`. */
    ghost predicate Valid()
      reads this, index
    {
      CollisionFree(rules) && Dags.Valid(rules, View())
    }

    constructor (rules: Rules)
      requires CollisionFree(rules)
      ensures View() == EMPTY_DAG && Valid() && fresh(index) && this.rules == rules
    {
      this.rules := rules;
      store := map[];
      index := new DagIndex();
      new;
      RunIsValid(rules, []);
    }

    /** The loop that tracks the best parent and its height. */
    method SelectBestParent(ps: seq<BlockHash>) returns (best: Option<BlockHash>, height: nat)
      ensures (best, height) == BestParent(store, ps)
    {
      best, height := None, 0;
      for i := 0 to |ps|
        invariant (best, height) == BestParent(store, ps[..i])
      {
        assert ps[..i + 1][..i] == ps[..i];
        if ps[i] in store && store[ps[i]].height >= height {
          best, height := Some(ps[i]), store[ps[i]].height;
        }
      }
      assert ps[..|ps|] == ps;
    }

    method ComputeBlueScore(ps: seq<BlockHash>) returns (score: nat)
      ensures score == MaxBlueScore(store, ps) + 1
    {
      var best := 0;
      for i := 0 to |ps|
        invariant best == MaxBlueScore(store, ps[..i])
      {
        assert ps[..i + 1][..i] == ps[..i];
        if ps[i] in store && store[ps[i]].header.blueScore > best {
          best := store[ps[i]].header.blueScore;
        }
      }
      assert ps[..|ps|] == ps;
      score := best + 1;
    }

    /** Checks, annotates, re-hashes and stores a block, and updates the index; a rejected block changes nothing. */
    method InsertBlock(b: Block, now: nat) returns (r: Checked)
      requires Valid()
      modifies this, index
      ensures Valid() && index == old(index)
      ensures match Insert(rules, now, old(View()), b)
              case Ok(d) => r.Pass? && View() == d
              case Err(e) => r == Fail(e) && View() == old(View())
      ensures forall h :: h in old(store) ==> h in store && store[h] == old(store)[h]
      ensures r.Pass? ==>
                exists x :: x in store && x !in old(store) && store.Keys == old(store).Keys + {x} &&
                  CarriesSubmission(b, store[x])
    {
      hide Dags.Valid, BestParent, MaxBlueScore, AddChild;
      ghost var d := View();
      r := Admit(rules, now, store, b);
      if r.Pass? {
        var ps := b.header.parentHashes;
        var best, height := SelectBestParent(ps);
        var score := ComputeBlueScore(ps);
        var annotated := SetConsensusMetadata(rules, b, best, score, if ps == [] then 0 else height + 1, |store|);
        assert BestParent(store, []) == (None, 0) by { BestParentOfNone(store); }
        assert annotated == Annotate(rules, store, b);
        InsertKeepsValid(rules, now, d, b);
        ghost var x := InsertStoresSubmission(rules, now, d, b);
        store := store[annotated.hash := annotated];
        index.UpdateTipsAfterInsert(annotated);
      }
    }

    /** A rebuilt index has the same tips and, up to the order of siblings, the same child lists. */
    method RebuildIndex(hashes: seq<BlockHash>)
      requires Valid() && Lists(hashes, store.Keys)
      modifies this
      ensures Valid() && store == old(store) && fresh(index)
      ensures index.tips == old(index.tips)
      ensures forall p :: multiset(Adj(index.parentToChildren, p)) == multiset(Adj(old(index.parentToChildren), p))
      ensures index.parentToChildren == Rebuilt(ParentGraph(store), hashes)
    {
      hide Rebuilt;
      ghost var c := index.parentToChildren;
      index := DagIndex.BuildFromStore(store, hashes);
      SameTranspose(ParentGraph(store), c, index.parentToChildren);
    }

    method GetTopologicalOrder(hashes: seq<BlockHash>) returns (order: seq<BlockHash>)
      requires Valid() && Lists(hashes, store.Keys)
      ensures order == Kahn.Order(ParentGraph(store), index.parentToChildren, hashes)
      ensures Lists(order, store.Keys) && Kahn.Topological(ParentGraph(store), order)
    {
      order := index.GetTopologicalOrder(store, hashes);
      StoreIsRanked(store);
      Kahn.OrderIsTopological(ParentGraph(store), index.parentToChildren, hashes, TopoRank(store));
    }

    /** Two stored blocks always have a lowest common ancestor. */
    method FindLca(hash1: BlockHash, hash2: BlockHash) returns (r: Option<BlockHash>, ghost hops: nat)
      requires Valid()
      ensures hash1 in store && hash2 in store ==> r.Some?
      ensures r.Some? ==>
                && AncestorOrSelf(ParentGraph(store), hash1, r.value)
                && Walk(ParentGraph(store), hash2, r.value, hops)
                && forall x, n: nat ::
                     AncestorOrSelf(ParentGraph(store), hash1, x) && Walk(ParentGraph(store), hash2, x, n) ==>
                       hops <= n
    {
      hide Dags.ValidStore;
      r, hops := index.FindLca(hash1, hash2, store);
      if hash1 in store && hash2 in store {
        var root := CommonAncestor(rules, store, hash1, hash2);
        if store[hash1].header.chainHeight == 0 {
          assert root == hash1;
        }
        assert AncestorOrSelf(ParentGraph(store), hash1, root);
      }
    }

    /** The level-by-level depth is the stored height. */
    method GetBlockDepth(hash: BlockHash) returns (depth: nat)
      requires Valid()
      ensures depth == if hash in store then store[hash].header.chainHeight else 0
    {
      hide Annotated, Keyed, Numbered, Rooted, Indexed;
      depth := index.GetBlockDepth(hash, store);
      ghost var a :| Walk(ParentGraph(store), hash, a, depth);
      if hash in store {
        HeightIsLongestPath(rules, store, hash);
      }
    }

    method GetBlockHeight(hash: BlockHash) returns (r: Option<nat>)
      requires Valid()
      ensures r == if hash in store then Some(store[hash].header.chainHeight) else None
    {
      if hash !in store {
        return None;
      }
      assert AnnotatedBlock(store, store[hash]);
      var b := store[hash];
      var stored := if b.header.chainHeight > 0 then b.header.chainHeight else if b.height > 0 then b.height else 0;
      if stored > 0 {
        return Some(stored);
      }
      var depth := GetBlockDepth(hash);
      r := Some(depth);
    }

    /** Walking up the selected parents yields min(max, height + 1) timestamps, oldest first. */
    method GetTimestampsFromStart(start: BlockHash, max: nat) returns (timestamps: seq<nat>)
      requires Valid()
      ensures start !in store ==> timestamps == []
      ensures start in store ==>
                var k := if max < store[start].header.chainHeight + 1 then max else store[start].header.chainHeight + 1;
                OldestFirst(store, SelectedChain(rules, store, start), k, timestamps)
    {
      hide ValidStore;
      timestamps := [];
      if start !in store {
        return Reversed([]);
      }
      ghost var chain := SelectedChain(rules, store, start);
      var current := start;
      var i := 0;
      while |timestamps| < max
        invariant i == |timestamps| <= max && i < |chain|
        invariant current in store && chain[i..] == SelectedChain(rules, store, current)
        invariant forall j :: 0 <= j < i ==> chain[j] in store && timestamps[j] == store[chain[j]].header.timestamp
      {
        var b := store[current];
        assert chain[i] == chain[i..][0] == current;
        SelectedParentIsNext(rules, store, current);
        timestamps := timestamps + [b.header.timestamp];
        if b.header.selectedParent.Some? {
          current := b.header.selectedParent.value;
          assert chain[i..][1..] == chain[i + 1..];
          i := i + 1;
        } else {
          assert |chain[i..]| == 1;
          break;
        }
      }
      ReversedIsOldestFirst(store, chain, timestamps);
      timestamps := Reversed(timestamps);
    }

    method GetBlueSet(hash: BlockHash) returns (r: Option<set<BlockHash>>)
      requires Valid()
      ensures r.Some? <==> hash in store
      ensures r.Some? ==> forall a :: a in r.value <==> a == hash || Reaches(ParentGraph(store), hash, a)
    {
      if hash !in store {
        return None;
      }
      var ancestors := index.GetAllAncestors(hash, store);
      r := Some(ancestors + {hash});
    }
  }

  lemma SameTranspose(g: Graph, c: Graph, c': Graph)
    requires Transposed(g, c) && Transposed(g, c')
    ensures forall p :: multiset(Adj(c, p)) == multiset(Adj(c', p))
  {
    forall p
      ensures multiset(Adj(c, p)) == multiset(Adj(c', p))
    {
      forall h
        ensures multiset(Adj(c, p))[h] == multiset(Adj(c', p))[h]
      {
        assert multiset(Adj(c, p))[h] == multiset(Adj(g, h))[p];
      }
    }
  }
}
