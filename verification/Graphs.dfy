/**
  Directed graphs as adjacency maps.

  The block store induces one such graph (block -> parent list) and the DAG
  index holds another (block -> child list).  Reachability is defined by walks of
  a given number of links, so that hop distances and longest paths can be stated
  with the same predicate.
 */
module Graphs {
  import opened Collections

  /** A 256-bit hash, identified with its big-endian value. */
  type BlockHash = nat

  type Graph = map<BlockHash, seq<BlockHash>>

  /** The neighbours of `h`; a missing entry counts as the empty list. */
  function Adj(g: Graph, h: BlockHash): seq<BlockHash> {
    if h in g then g[h] else []
  }

  /** `to` is reached from `from` by following exactly `n` links. */
  ghost predicate Walk(g: Graph, from: BlockHash, to: BlockHash, n: nat)
    decreases n
  {
    if n == 0 then from == to
    else exists p :: p in Adj(g, from) && Walk(g, p, to, n - 1)
  }

  /** `to` is reached from `from` by one link or more. */
  ghost predicate Reaches(g: Graph, from: BlockHash, to: BlockHash) {
    exists n: nat :: n > 0 && Walk(g, from, to, n)
  }

  /** Every edge stays inside the graph and goes down in `rank`; hence there is no cycle. */
  ghost predicate Ranked(g: Graph, rank: map<BlockHash, nat>) {
    && g.Keys <= rank.Keys
    && forall h, p :: h in g && p in g[h] ==> p in g && rank[p] < rank[h]
  }

  /** `c` is `g` with every edge turned round, repeated edges as often as in `g`. */
  ghost predicate Transposed(g: Graph, c: Graph) {
    forall p, h :: multiset(Adj(c, p))[h] == multiset(Adj(g, h))[p]
  }

  /** `xs` lists every element of `S` exactly once. */
  ghost predicate Lists(xs: seq<BlockHash>, S: set<BlockHash>) {
    && (forall x :: x in xs <==> x in S)
    && NoRepeats(xs)
  }

  lemma {:induction false} WalkConcat(g: Graph, a: BlockHash, b: BlockHash, c: BlockHash, m: nat, n: nat)
    requires Walk(g, a, b, m) && Walk(g, b, c, n)
    ensures Walk(g, a, c, m + n)
    decreases m
  {
    if m > 0 {
      var p :| p in Adj(g, a) && Walk(g, p, b, m - 1);
      WalkConcat(g, p, b, c, m - 1, n);
    }
  }

  lemma {:induction false} WalkSplit(g: Graph, a: BlockHash, c: BlockHash, m: nat, n: nat) returns (b: BlockHash)
    requires Walk(g, a, c, m + n)
    ensures Walk(g, a, b, m) && Walk(g, b, c, n)
    decreases m
  {
    if m == 0 {
      b := a;
    } else {
      var p :| p in Adj(g, a) && Walk(g, p, c, m + n - 1);
      b := WalkSplit(g, p, c, m - 1, n);
    }
  }

  lemma WalkOne(g: Graph, a: BlockHash, b: BlockHash)
    ensures Walk(g, a, b, 1) <==> b in Adj(g, a)
  {
    if b in Adj(g, a) {
      assert Walk(g, b, b, 0);
    }
  }

  lemma ReachesByEdge(g: Graph, a: BlockHash, b: BlockHash)
    requires b in Adj(g, a)
    ensures Reaches(g, a, b)
  {
    WalkOne(g, a, b);
  }

  lemma ReachesTransitive(g: Graph, a: BlockHash, b: BlockHash, c: BlockHash)
    requires Reaches(g, a, b) && Reaches(g, b, c)
    ensures Reaches(g, a, c)
  {
    var m: nat :| m > 0 && Walk(g, a, b, m);
    var n: nat :| n > 0 && Walk(g, b, c, n);
    WalkConcat(g, a, b, c, m, n);
  }

  /** A block reaches exactly its neighbours and what those reach. */
  lemma ReachesFirstStep(g: Graph, a: BlockHash, c: BlockHash) returns (p: BlockHash)
    requires Reaches(g, a, c)
    ensures p in Adj(g, a) && (p == c || Reaches(g, p, c))
  {
    var n: nat :| n > 0 && Walk(g, a, c, n);
    p :| p in Adj(g, a) && Walk(g, p, c, n - 1);
    if n > 1 {
      assert Walk(g, p, c, n - 1);
    }
  }

  lemma {:induction false} WalkDescends(g: Graph, rank: map<BlockHash, nat>, a: BlockHash, b: BlockHash, n: nat)
    requires Ranked(g, rank) && a in g && Walk(g, a, b, n)
    ensures b in g && rank[b] + n <= rank[a]
    decreases n
  {
    if n > 0 {
      var p :| p in Adj(g, a) && Walk(g, p, b, n - 1);
      WalkDescends(g, rank, p, b, n - 1);
    }
  }

  lemma ReachesDescends(g: Graph, rank: map<BlockHash, nat>, a: BlockHash, b: BlockHash)
    requires Ranked(g, rank) && Reaches(g, a, b)
    ensures a in g && b in g && rank[b] < rank[a]
  {
    var n: nat :| n > 0 && Walk(g, a, b, n);
    WalkDescends(g, rank, a, b, n);
  }

  lemma TransposedEdge(g: Graph, c: Graph, p: BlockHash, h: BlockHash)
    requires Transposed(g, c)
    ensures h in Adj(c, p) <==> p in Adj(g, h)
  {
    assert h in Adj(c, p) <==> multiset(Adj(c, p))[h] > 0;
    assert p in Adj(g, h) <==> multiset(Adj(g, h))[p] > 0;
  }

  lemma {:induction false} WalkTransposed(g: Graph, c: Graph, a: BlockHash, b: BlockHash, n: nat)
    requires Transposed(g, c) && Walk(g, a, b, n)
    ensures Walk(c, b, a, n)
    decreases n
  {
    hide Adj;
    if n > 0 {
      var p :| p in Adj(g, a) && Walk(g, p, b, n - 1);
      WalkTransposed(g, c, p, b, n - 1);
      TransposedEdge(g, c, p, a);
      WalkOne(c, p, a);
      WalkConcat(c, b, p, a, n - 1, 1);
    }
  }

  /** Following the child index downwards is exactly the converse of following stored parents upwards. */
  lemma ReachesConverse(g: Graph, c: Graph, a: BlockHash, b: BlockHash)
    requires Transposed(g, c)
    ensures Reaches(g, a, b) <==> Reaches(c, b, a)
  {
    if Reaches(g, a, b) {
      var n: nat :| n > 0 && Walk(g, a, b, n);
      WalkTransposed(g, c, a, b, n);
    }
    if Reaches(c, b, a) {
      var n: nat :| n > 0 && Walk(c, b, a, n);
      assert Transposed(c, g);
      WalkTransposed(c, g, b, a, n);
    }
  }

  /** Any set holding the neighbours of `a`, and closed under neighbours, holds all that `a` reaches. */
  lemma {:induction false} WalkStaysInClosed(g: Graph, S: set<BlockHash>, a: BlockHash, b: BlockHash, n: nat)
    requires forall x, y :: x in S && y in Adj(g, x) ==> y in S
    requires a in S && Walk(g, a, b, n)
    ensures b in S
    decreases n
  {
    if n > 0 {
      var p :| p in Adj(g, a) && Walk(g, p, b, n - 1);
      WalkStaysInClosed(g, S, p, b, n - 1);
    }
  }

  lemma ReachesStaysInClosed(g: Graph, S: set<BlockHash>, a: BlockHash, b: BlockHash)
    requires forall x, y :: x in S && y in Adj(g, x) ==> y in S
    requires a in S && Reaches(g, a, b)
    ensures b in S
  {
    var n: nat :| n > 0 && Walk(g, a, b, n);
    WalkStaysInClosed(g, S, a, b, n);
  }

  /** All hashes named by some edge. */
  ghost function Targets(g: Graph): set<BlockHash> {
    set h, p | h in g && p in g[h] :: p
  }

  /** The search body shared by the ancestor and descendant queries: a queue and a visited set. */
  method BreadthFirst(g: Graph, start: BlockHash) returns (seen: set<BlockHash>)
    ensures forall x :: x in seen <==> Reaches(g, start, x)
  {
    hide Walk, Reaches;
    seen := {};
    var queue := [start];
    while queue != []
      invariant seen <= Targets(g)
      invariant forall x :: x in seen ==> Reaches(g, start, x)
      invariant forall q :: q in queue ==> q == start || q in seen
      invariant forall x, y :: (x == start || x in seen) && x !in queue && y in Adj(g, x) ==> y in seen
      decreases Targets(g) - seen, |queue|
    {
      var current := queue[0];
      ghost var before := queue;
      queue := queue[1..];
      var next := Adj(g, current);
      ghost var seen0, queue0 := seen, queue;
      for i := 0 to |next|
        invariant seen0 <= seen <= Targets(g)
        invariant seen == seen0 ==> queue == queue0
        invariant forall x :: x in seen ==> Reaches(g, start, x)
        invariant forall q :: q in queue ==> q == start || q in seen
        invariant forall q :: q in queue0 ==> q in queue
        invariant forall y :: y in next[..i] ==> y in seen
        invariant forall x :: x in seen && x !in seen0 ==> x in queue
      {
        var child := next[i];
        if child !in seen {
          ReachesByEdge(g, current, child);
          if current != start {
            ReachesTransitive(g, start, current, child);
          }
          seen := seen + {child};
          queue := queue + [child];
        }
      }
      assert next[..|next|] == next;
      forall x, y | (x == start || x in seen) && x !in queue && y in Adj(g, x)
        ensures y in seen
      {
        if x != current {
          assert x !in before;
        }
      }
    }
    forall x | Reaches(g, start, x)
      ensures x in seen
    {
      var p := ReachesFirstStep(g, start, x);
      if p != x {
        ReachesStaysInClosed(g, seen, p, x);
      }
    }
  }
}
