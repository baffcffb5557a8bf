/**
  The consensus layer's own traversals (src/consensus/dag_traversal.rs).  They differ from
  the index's in keeping a second visited set and in never reporting the start block.
 */
module DagTraversals {
  import opened Graphs
  import opened Dags
  import opened Pasts

  /** The loop of `get_ancestors` and `get_descendants`: `found` leaves out the start block. */
  method Explore(g: Graph, start: BlockHash) returns (found: set<BlockHash>)
    ensures forall x :: x in found <==> x != start && Reaches(g, start, x)
  {
    hide Walk, Reaches;
    found := {};
    var queue, visited := [start], {};
    while queue != []
      invariant found <= Targets(g) && start !in found
      invariant visited <= found + {start}
      invariant forall x :: x in found ==> Reaches(g, start, x)
      invariant forall q :: q in queue ==> q == start || q in found
      invariant forall x :: (x == start || x in found) ==> x in queue || x in visited
      invariant forall x, y :: x in visited && y in Adj(g, x) ==> y == start || y in found
      decreases Targets(g) - found, |queue|
    {
      var current := queue[0];
      ghost var before := queue;
      queue := queue[1..];
      assert forall x :: x in before ==> x == current || x in queue;
      if current !in visited {
        visited := visited + {current};
        var next := Adj(g, current);
        ghost var found0, queue0 := found, queue;
        for i := 0 to |next|
          invariant found0 <= found <= Targets(g) && start !in found
          invariant found == found0 ==> queue == queue0
          invariant forall x :: x in found ==> Reaches(g, start, x)
          invariant forall q :: q in queue ==> q == start || q in found
          invariant forall q :: q in queue0 ==> q in queue
          invariant forall x :: x in found ==> x in found0 || x in queue
          invariant forall y :: y in next[..i] ==> y == start || y in found
        {
          if next[i] !in found && next[i] != start {
            ReachesByEdge(g, current, next[i]);
            if current != start {
              ReachesTransitive(g, start, current, next[i]);
            }
            found := found + {next[i]};
            queue := queue + [next[i]];
          }
        }
        assert next[..|next|] == next;
      }
    }
    forall x | x != start && Reaches(g, start, x)
      ensures x in found
    {
      ReachesStaysInClosed(g, found + {start}, start, x);
    }
  }

  method GetAncestors(store: Store, hash: BlockHash) returns (r: set<BlockHash>)
    requires Layered(store)
    ensures r == Past(store, hash)
  {
    r := Explore(ParentGraph(store), hash);
    NotInOwnPast(store, hash);
    forall a { PastExactly(store, hash, a); }
  }

  /** Exactly the blocks that have `hash` in their past. */
  method GetDescendants(children: Graph, ghost store: Store, hash: BlockHash) returns (r: set<BlockHash>)
    requires Layered(store) && Transposed(ParentGraph(store), children)
    ensures forall x :: x in r <==> hash in Past(store, x)
  {
    r := Explore(children, hash);
    NotInOwnPast(store, hash);
    forall x
      ensures x in r <==> hash in Past(store, x)
    {
      PastExactly(store, x, hash);
      ReachesConverse(ParentGraph(store), children, x, hash);
    }
  }

  method GetAnticone(store: Store, blockHash: BlockHash, referenceHash: BlockHash) returns (r: set<BlockHash>)
    requires Layered(store)
    ensures r == Anticone(store, blockHash, referenceHash)
    ensures forall x :: x in r <==>
              && Reaches(ParentGraph(store), blockHash, x)
              && x != referenceHash && !Reaches(ParentGraph(store), referenceHash, x)
  {
    AnticoneExactly(store, blockHash, referenceHash);
    hide Reaches;
    var ancestors := GetAncestors(store, referenceHash);
    var reachable := ancestors + {referenceHash};
    var rest := GetAncestors(store, blockHash);
    r := {};
    while rest != {}
      invariant r + (rest - reachable) == Anticone(store, blockHash, referenceHash)
      decreases rest
    {
      var a :| a in rest;
      rest := rest - {a};
      if a !in reachable {
        r := r + {a};
      }
    }
  }
}
