/**
  The in-memory index over the block store (src/dag/dag_index.rs): child lists and
  tips kept up to date in place, and the traversals that run over them.

  `hashes` stands for the enumeration of the store's keys that a traversal starts
  from; every result below holds for any enumeration.
 */
module DagIndexes {
  import opened Collections
  import opened Graphs
  import opened Blocks
  import opened Dags
  import opened Kahn
  import opened Distances

  ghost predicate UnderOwnHash(s: Store) {
    forall h :: h in s ==> s[h].hash == h
  }

  ghost function Restrict(s: Store, hs: seq<BlockHash>): Store
    requires forall h :: h in hs ==> h in s
  {
    map h | h in hs :: s[h]
  }

  lemma RestrictSnoc(s: Store, hashes: seq<BlockHash>, i: nat)
    requires Lists(hashes, s.Keys) && i < |hashes| && UnderOwnHash(s)
    ensures hashes[i] in s && hashes[i] !in Restrict(s, hashes[..i])
    ensures Restrict(s, hashes[..i + 1]) == Restrict(s, hashes[..i])[hashes[i] := s[hashes[i]]]
  {
    assert hashes[i] in hashes;
    assert hashes[..i + 1] == hashes[..i] + [hashes[i]];
  }

  lemma RestrictAll(s: Store, hashes: seq<BlockHash>)
    requires Lists(hashes, s.Keys)
    ensures Restrict(s, hashes[..|hashes|]) == s
  {
    assert hashes[..|hashes|] == hashes;
  }

  lemma NothingHasChildren(s: Store, hashes: seq<BlockHash>, t: BlockHash)
    requires Lists(hashes, s.Keys)
    ensures Childless(Restrict(s, hashes[..0]), t)
  {
    assert Restrict(s, hashes[..0]) == map[];
  }

  class DagIndex {
    var parentToChildren: Graph
    var tips: set<BlockHash>

    constructor ()
      ensures parentToChildren == map[] && tips == {}
    {
      parentToChildren := map[];
      tips := {};
    }

    /** Appends `h` to the child list of every entry of `ps`. */
    method PushChild(ps: seq<BlockHash>, h: BlockHash)
      modifies this`parentToChildren
      ensures parentToChildren == AddChild(old(parentToChildren), ps, h)
    {
      for i := 0 to |ps|
        invariant parentToChildren == AddChild(old(parentToChildren), ps[..i], h)
      {
        assert ps[..i + 1][..i] == ps[..i];
        parentToChildren := parentToChildren[ps[i] := Adj(parentToChildren, ps[i]) + [h]];
      }
      assert ps[..|ps|] == ps;
    }

    /** The first loop of a rebuild: every block is pushed to the child lists of its parents. */
    method PushAllChildren(store: Store, hashes: seq<BlockHash>)
      requires UnderOwnHash(store) && Lists(hashes, store.Keys) && parentToChildren == map[]
      modifies this`parentToChildren
      ensures parentToChildren == Rebuilt(ParentGraph(store), hashes)
      ensures Transposed(ParentGraph(store), parentToChildren)
    {
      hide Transposed, AddChild;
      for i := 0 to |hashes|
        invariant parentToChildren == Rebuilt(ParentGraph(store), hashes[..i])
      {
        assert hashes[i] in hashes;
        assert hashes[..i + 1][..i] == hashes[..i];
        var block := store[hashes[i]];
        PushChild(block.header.parentHashes, block.hash);
      }
      assert hashes[..|hashes|] == hashes;
      RebuiltTransposes(ParentGraph(store), hashes);
    }

    /** The second loop: start from all blocks and strike out every parent. */
    static method FindTips(store: Store, hashes: seq<BlockHash>) returns (potential: set<BlockHash>)
      requires UnderOwnHash(store) && Lists(hashes, store.Keys)
      ensures forall t :: t in potential <==> t in store && Childless(store, t)
    {
      hide Childless, Restrict;
      potential := set h | h in store;
      forall t ensures Childless(Restrict(store, hashes[..0]), t) { NothingHasChildren(store, hashes, t); }
      for i := 0 to |hashes|
        invariant forall t :: t in potential <==> t in store && Childless(Restrict(store, hashes[..i]), t)
      {
        RestrictSnoc(store, hashes, i);
        var block := store[hashes[i]];
        forall t { ChildlessGrows(Restrict(store, hashes[..i]), block, t); }
        potential := potential - (set p | p in block.header.parentHashes);
      }
      RestrictAll(store, hashes);
    }

    /** Re-indexing a store from scratch gives the childless blocks as tips and the parent lists turned round. */
    static method BuildFromStore(store: Store, hashes: seq<BlockHash>) returns (index: DagIndex)
      requires UnderOwnHash(store) && Lists(hashes, store.Keys)
      ensures fresh(index)
      ensures Indexed(store, index.tips, index.parentToChildren)
      ensures index.parentToChildren == Rebuilt(ParentGraph(store), hashes)
    {
      hide Transposed, Childless, Lists, UnderOwnHash, Rebuilt;
      index := new DagIndex();
      index.PushAllChildren(store, hashes);
      index.tips := FindTips(store, hashes);
    }

    /** The incremental update made after a block has been stored. */
    method UpdateTipsAfterInsert(b: Block)
      modifies this
      ensures tips == old(tips) + {b.hash} - (set p | p in b.header.parentHashes)
      ensures parentToChildren == AddChild(old(parentToChildren), b.header.parentHashes, b.hash)
    {
      var ps := b.header.parentHashes;
      tips := tips + {b.hash};
      for i := 0 to |ps|
        invariant tips == old(tips) + {b.hash} - (set p | p in ps[..i])
        invariant parentToChildren == old(parentToChildren)
      {
        tips := tips - {ps[i]};
        assert ps[..i + 1] == ps[..i] + [ps[i]];
      }
      assert ps[..|ps|] == ps;
      PushChild(ps, b.hash);
    }

    method GetAllAncestors(hash: BlockHash, store: Store) returns (r: set<BlockHash>)
      ensures forall a :: a in r <==> Reaches(ParentGraph(store), hash, a)
    {
      r := BreadthFirst(ParentGraph(store), hash);
    }

    /**
      Searching the child lists of an up-to-date index finds exactly the blocks that have `hash` among their
      ancestors.
     */
    method GetAllDescendants(hash: BlockHash, ghost store: Store) returns (r: set<BlockHash>)
      ensures forall a :: a in r <==> Reaches(parentToChildren, hash, a)
      ensures Indexed(store, tips, parentToChildren) ==> forall a :: a in r <==> Reaches(ParentGraph(store), a, hash)
    {
      hide Reaches;
      r := BreadthFirst(parentToChildren, hash);
      if Indexed(store, tips, parentToChildren) {
        forall a { ReachesConverse(ParentGraph(store), parentToChildren, a, hash); }
      }
    }

    /** Appends the entries of `ps` that have not been visited. */
    method PushUnvisited(ps: seq<BlockHash>, visited: set<BlockHash>, queue0: seq<BlockHash>)
      returns (queue: seq<BlockHash>)
      ensures queue == queue0 + Unvisited(ps, visited)
    {
      queue := queue0;
      for i := 0 to |ps|
        invariant queue == queue0 + Unvisited(ps[..i], visited)
      {
        assert ps[..i + 1][..i] == ps[..i];
        if ps[i] !in visited {
          queue := queue + [ps[i]];
        }
      }
      assert ps[..|ps|] == ps;
    }

    /**
      A breadth-first search upwards from `hash2` for an ancestor-or-self of `hash1`.
      The block found is `hops` links above `hash2`, and no common ancestor is nearer.
     */
    method FindLca(hash1: BlockHash, hash2: BlockHash, store: Store) returns (r: Option<BlockHash>, ghost hops: nat)
      ensures r.Some? ==>
                && AncestorOrSelf(ParentGraph(store), hash1, r.value)
                && Walk(ParentGraph(store), hash2, r.value, hops)
                && forall x, n: nat ::
                     AncestorOrSelf(ParentGraph(store), hash1, x) && Walk(ParentGraph(store), hash2, x, n) ==>
                       hops <= n
      ensures r.None? ==>
                forall x, n: nat ::
                  AncestorOrSelf(ParentGraph(store), hash1, x) ==> !Walk(ParentGraph(store), hash2, x, n)
    {
      hide Searched, Unvisited;
      var ancestors := GetAllAncestors(hash1, store);
      var queue, visited := [hash2], {};
      ghost var g, dist, qd: seq<nat> := ParentGraph(store), map[], [0];
      SearchStart(g, hash2);
      while queue != []
        invariant Searched(g, hash2, dist, queue, qd)
        invariant visited == dist.Keys <= Targets(g) + {hash2}
        invariant forall v :: v in visited ==> !AncestorOrSelf(g, hash1, v)
        decreases Targets(g) + {hash2} - visited, |queue|
      {
        SearchedHead(g, hash2, dist, queue, qd);
        var current := queue[0];
        if current in visited {
          SearchSkip(g, hash2, dist, queue, qd);
          queue, qd := queue[1..], qd[1..];
        } else {
          if current in ancestors || hash1 == current {
            forall x, n: nat | AncestorOrSelf(g, hash1, x) && Walk(g, hash2, x, n)
              ensures qd[0] <= n
            {
              HeadIsNearest(g, hash2, dist, queue, qd, x, n);
            }
            return Some(current), qd[0];
          }
          WalkEndsInTargets(g, hash2, current, qd[0]);
          SearchVisit(g, hash2, dist, queue, qd);
          visited := visited + {current};
          assert dist[current := qd[0]].Keys == visited;
          ghost var found := Unvisited(Adj(g, current), visited);
          var ps := if current in store then store[current].header.parentHashes else [];
          queue := PushUnvisited(ps, visited, queue[1..]);
          dist, qd := dist[current := qd[0]], qd[1..] + seq(|found|, _ => qd[0] + 1);
        }
      }
      forall x, n: nat | AncestorOrSelf(g, hash1, x)
        ensures !Walk(g, hash2, x, n)
      {
        if Walk(g, hash2, x, n) {
          HeadIsNearest(g, hash2, dist, queue, qd, x, n);
        }
      }
      r, hops := None, 0;
    }

    /** The initial in-degree table and queue. */
    method CountParents(store: Store, hashes: seq<BlockHash>) returns (queue: seq<BlockHash>, degree: Degrees)
      requires Lists(hashes, store.Keys)
      ensures queue == Roots(ParentGraph(store), hashes) && degree == InDegrees(ParentGraph(store))
    {
      ghost var g := ParentGraph(store);
      queue, degree := [], map[];
      hide Roots;
      RootsNone(g);
      for i := 0 to |hashes|
        invariant forall h :: h in degree <==> h in hashes[..i]
        invariant forall h :: h in degree ==> h in g && degree[h] == |g[h]|
        invariant queue == Roots(g, hashes[..i])
      {
        assert hashes[i] in store;
        assert hashes[..i + 1] == hashes[..i] + [hashes[i]];
        RootsOne(g, hashes[..i], hashes[i]);
        var ps := store[hashes[i]].header.parentHashes;
        degree := degree[hashes[i] := |ps|];
        if ps == [] {
          queue := queue + [hashes[i]];
        }
      }
      assert hashes[..|hashes|] == hashes;
    }

    /** Decrements the in-degree of every listed child and queues those that reach zero. */
    method Relax(cs: seq<BlockHash>, queue0: seq<BlockHash>, degree0: Degrees)
      returns (queue: seq<BlockHash>, degree: Degrees)
      ensures queue == queue0 + Freed(degree0, cs) && degree == Settle(degree0, cs)
    {
      queue, degree := queue0, degree0;
      hide Freed, Settle;
      RelaxNone(degree0);
      for i := 0 to |cs|
        invariant degree == Settle(degree0, cs[..i])
        invariant queue == queue0 + Freed(degree0, cs[..i])
      {
        assert cs[..i + 1] == cs[..i] + [cs[i]];
        SettleOne(degree0, cs[..i], cs[i]);
        FreedOne(degree0, cs[..i], cs[i]);
        if cs[i] in degree {
          degree := degree[cs[i] := degree[cs[i]] - 1];
          if degree[cs[i]] == 0 {
            queue := queue + [cs[i]];
          }
        }
      }
      assert cs[..|cs|] == cs;
    }

    /** Kahn's loop: pop a block, output it, and relax its children. */
    method GetTopologicalOrder(store: Store, hashes: seq<BlockHash>) returns (order: seq<BlockHash>)
      requires Lists(hashes, store.Keys)
      ensures order == Order(ParentGraph(store), parentToChildren, hashes)
    {
      hide ParentGraph, Roots, Lists, InDegrees, Freed, Settle, Waiting;
      var queue, degree := CountParents(store, hashes);
      order := [];
      while queue != []
        invariant order + Drain(queue, degree, parentToChildren) == Order(ParentGraph(store), parentToChildren, hashes)
        decreases Waiting(degree), |queue|
      {
        var current := queue[0];
        var cs := Adj(parentToChildren, current);
        SettleShrinks(degree, cs);
        order := order + [current];
        queue, degree := Relax(cs, queue[1..], degree);
      }
    }

    /** Level by level: the number of levels above `hash`. */
    method GetBlockDepth(hash: BlockHash, store: Store) returns (depth: nat)
      requires Layered(store)
      ensures exists a :: Walk(ParentGraph(store), hash, a, depth)
      ensures forall a, n: nat :: Walk(ParentGraph(store), hash, a, n) ==> n <= depth
    {
      hide *;
      depth := 0;
      var current := [hash];
      FirstLevel(store, hash);
      while true
        invariant IsLevel(store, hash, current, depth) && current != []
        decreases LevelBound(store, hash) - depth
      {
        var next := NextLevel(current, store);
        LevelAbove(store, hash, current, next, depth);
        if next == [] {
          break;
        }
        LevelIsBounded(store, hash, next, depth + 1);
        current := next;
        depth := depth + 1;
      }
      LastLevel(store, hash, current, depth);
    }

    /** The parents of one level, each once. */
    method NextLevel(current: seq<BlockHash>, store: Store) returns (next: seq<BlockHash>)
      ensures forall x :: x in next <==> exists y :: y in current && x in Adj(ParentGraph(store), y)
    {
      ghost var g := ParentGraph(store);
      next := [];
      for i := 0 to |current|
        invariant forall x :: x in next <==> exists y :: y in current[..i] && x in Adj(g, y)
      {
        assert current[..i + 1] == current[..i] + [current[i]];
        ghost var before := next;
        var ps := if current[i] in store then store[current[i]].header.parentHashes else [];
        for j := 0 to |ps|
          invariant forall x :: x in next <==> x in before || x in ps[..j]
        {
          assert ps[..j + 1] == ps[..j] + [ps[j]];
          if ps[j] !in next {
            next := next + [ps[j]];
          }
        }
        assert ps[..|ps|] == ps == Adj(g, current[i]);
      }
      assert current[..|current|] == current;
    }
  }

  ghost predicate AncestorOrSelf(g: Graph, h: BlockHash, a: BlockHash) {
    a == h || Reaches(g, h, a)
  }

  lemma SearchedHead(g: Graph, start: BlockHash, dist: map<BlockHash, nat>, queue: seq<BlockHash>, qd: seq<nat>)
    requires Searched(g, start, dist, queue, qd) && queue != []
    ensures |qd| == |queue| && Walk(g, start, queue[0], qd[0])
  {
  }

  lemma WalkEndsInTargets(g: Graph, a: BlockHash, b: BlockHash, n: nat)
    requires Walk(g, a, b, n)
    ensures b == a || b in Targets(g)
  {
    if n > 0 {
      var p := WalkSplit(g, a, b, n - 1, 1);
      WalkOne(g, p, b);
    }
  }

  lemma RootsNone(g: Graph)
    ensures Roots(g, []) == []
  {
  }

  lemma RootsOne(g: Graph, hashes: seq<BlockHash>, x: BlockHash)
    ensures Roots(g, hashes + [x]) == Roots(g, hashes) + (if x in g && g[x] == [] then [x] else [])
  {
    assert (hashes + [x])[..|hashes|] == hashes;
  }

  lemma RelaxNone(deg: Degrees)
    ensures Settle(deg, []) == deg && Freed(deg, []) == []
  {
  }

  lemma SettleOne(deg: Degrees, cs: seq<BlockHash>, x: BlockHash)
    ensures Settle(deg, cs).Keys == deg.Keys
    ensures Settle(deg, cs + [x]) == if x in deg then Settle(deg, cs)[x := Settle(deg, cs)[x] - 1] else Settle(deg, cs)
  {
  }

  lemma FreedOne(deg: Degrees, cs: seq<BlockHash>, x: BlockHash)
    ensures Freed(deg, cs + [x]) == Freed(deg, cs) + (if x in deg && Settle(deg, cs)[x] == 1 then [x] else [])
  {
    assert (cs + [x])[..|cs|] == cs;
  }

  /** `level` holds exactly what lies `n` links above `hash`. */
  ghost predicate IsLevel(s: Store, hash: BlockHash, level: seq<BlockHash>, n: nat) {
    forall x :: x in level <==> Walk(ParentGraph(s), hash, x, n)
  }

  ghost function LevelBound(s: Store, hash: BlockHash): nat {
    if hash in s then s[hash].header.topoIndex + 1 else 1
  }

  lemma FirstLevel(s: Store, hash: BlockHash)
    ensures IsLevel(s, hash, [hash], 0)
  {
  }

  lemma LevelAbove(s: Store, hash: BlockHash, level: seq<BlockHash>, next: seq<BlockHash>, n: nat)
    requires IsLevel(s, hash, level, n)
    requires forall x :: x in next <==> exists y :: y in level && x in Adj(ParentGraph(s), y)
    ensures IsLevel(s, hash, next, n + 1)
  {
    hide Walk;
    var above := n + 1;
    forall x ensures x in next <==> Walk(ParentGraph(s), hash, x, above) {
      LevelStep(ParentGraph(s), hash, level, x, n);
    }
  }

  lemma LevelIsBounded(s: Store, hash: BlockHash, level: seq<BlockHash>, n: nat)
    requires Layered(s) && IsLevel(s, hash, level, n) && level != [] && n > 0
    ensures n < LevelBound(s, hash)
  {
    var x := level[0];
    assert x in level;
    var p :| p in Adj(ParentGraph(s), hash) && Walk(ParentGraph(s), p, x, n - 1);
    StoreIsRanked(s);
    WalkDescends(ParentGraph(s), TopoRank(s), hash, x, n);
  }

  lemma LastLevel(s: Store, hash: BlockHash, level: seq<BlockHash>, n: nat)
    requires IsLevel(s, hash, level, n) && level != [] && IsLevel(s, hash, [], n + 1)
    ensures exists a :: Walk(ParentGraph(s), hash, a, n)
    ensures forall a, m: nat :: Walk(ParentGraph(s), hash, a, m) ==> m <= n
  {
    assert level[0] in level;
    forall a, m: nat | Walk(ParentGraph(s), hash, a, m)
      ensures m <= n
    {
      if m > n {
        var b := WalkSplit(ParentGraph(s), hash, a, n + 1, m - n - 1);
      }
    }
  }

  lemma LevelStep(g: Graph, hash: BlockHash, level: seq<BlockHash>, x: BlockHash, n: nat)
    requires forall y :: y in level <==> Walk(g, hash, y, n)
    ensures (exists y :: y in level && x in Adj(g, y)) <==> Walk(g, hash, x, n + 1)
  {
    if y :| y in level && x in Adj(g, y) {
      WalkOne(g, y, x);
      WalkConcat(g, hash, y, x, n, 1);
    }
    if Walk(g, hash, x, n + 1) {
      var y := WalkSplit(g, hash, x, n, 1);
      WalkOne(g, y, x);
    }
  }
}
