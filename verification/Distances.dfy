/**
  Breadth-first search visits blocks in order of their hop distance.

  `dist` records at which distance a block was visited and `qd` the distance at
  which each queue entry was found; neither exists at run time.
 */
module Distances {
  import opened Graphs

  ghost predicate Queued(queue: seq<BlockHash>, qd: seq<nat>, p: BlockHash, d: nat)
    requires |qd| == |queue|
  {
    exists i :: 0 <= i < |queue| && queue[i] == p && qd[i] <= d
  }

  /** `p` has been visited, or is waiting to be, at distance `d` or less. */
  ghost predicate Covered(dist: map<BlockHash, nat>, queue: seq<BlockHash>, qd: seq<nat>, p: BlockHash, d: nat)
    requires |qd| == |queue|
  {
    (p in dist && dist[p] <= d) || Queued(queue, qd, p, d)
  }

  ghost predicate Sorted(dist: map<BlockHash, nat>, qd: seq<nat>) {
    && (forall i, j :: 0 <= i <= j < |qd| ==> qd[i] <= qd[j] <= qd[i] + 1)
    && (forall v, i :: v in dist && 0 <= i < |qd| ==> dist[v] <= qd[i])
  }

  ghost predicate Searched(g: Graph, start: BlockHash, dist: map<BlockHash, nat>, queue: seq<BlockHash>, qd: seq<nat>) {
    && |qd| == |queue|
    && Sorted(dist, qd)
    && (forall i :: 0 <= i < |queue| ==> Walk(g, start, queue[i], qd[i]))
    && Covered(dist, queue, qd, start, 0)
    && (forall v, p :: v in dist && p in Adj(g, v) ==> Covered(dist, queue, qd, p, dist[v] + 1))
  }

  function Unvisited(ps: seq<BlockHash>, visited: set<BlockHash>): (r: seq<BlockHash>)
    ensures forall p :: p in r <==> p in ps && p !in visited
  {
    if ps == [] then []
    else
      assert ps == ps[..|ps| - 1] + [ps[|ps| - 1]];
      Unvisited(ps[..|ps| - 1], visited) + (if ps[|ps| - 1] in visited then [] else [ps[|ps| - 1]])
  }

  /** Whatever is covered stays covered when the first queue entry is visited and more are added. */
  lemma CoveredGrows(dist: map<BlockHash, nat>, queue: seq<BlockHash>, qd: seq<nat>,
                     dist': map<BlockHash, nat>, queue': seq<BlockHash>, qd': seq<nat>, p: BlockHash, d: nat)
    requires |qd| == |queue| && |qd'| == |queue'| && queue != []
    requires Covered(dist, queue, qd, p, d)
    requires forall v :: v in dist ==> v in dist' && dist'[v] == dist[v]
    requires queue[0] in dist' && dist'[queue[0]] <= qd[0]
    requires queue[1..] <= queue' && qd[1..] <= qd'
    ensures Covered(dist', queue', qd', p, d)
  {
    if !(p in dist && dist[p] <= d) {
      var i :| 0 <= i < |queue| && queue[i] == p && qd[i] <= d;
      if i > 0 {
        assert queue'[i - 1] == queue[1..][i - 1] == p;
        assert qd'[i - 1] == qd[1..][i - 1] == qd[i];
      }
    }
  }

  lemma SearchStart(g: Graph, start: BlockHash)
    ensures Searched(g, start, map[], [start], [0])
  {
    assert [start][0] == start;
  }

  /** Popping a block that has been visited before. */
  lemma SearchSkip(g: Graph, start: BlockHash, dist: map<BlockHash, nat>, queue: seq<BlockHash>, qd: seq<nat>)
    requires Searched(g, start, dist, queue, qd) && queue != [] && queue[0] in dist
    ensures Searched(g, start, dist, queue[1..], qd[1..])
  {
    hide Covered;
    CoveredGrows(dist, queue, qd, dist, queue[1..], qd[1..], start, 0);
    forall v, p | v in dist && p in Adj(g, v)
      ensures Covered(dist, queue[1..], qd[1..], p, dist[v] + 1)
    {
      CoveredGrows(dist, queue, qd, dist, queue[1..], qd[1..], p, dist[v] + 1);
    }
  }

  lemma NewNeighbourCovered(g: Graph, dist: map<BlockHash, nat>, queue: seq<BlockHash>, qd: seq<nat>, p: BlockHash)
    requires |qd| == |queue| && queue != [] && queue[0] !in dist && Sorted(dist, qd)
    requires p in Adj(g, queue[0])
    ensures var dist' := dist[queue[0] := qd[0]];
            var found := Unvisited(Adj(g, queue[0]), dist'.Keys);
            Covered(dist', queue[1..] + found, qd[1..] + seq(|found|, _ => qd[0] + 1), p, qd[0] + 1)
  {
    var dist' := dist[queue[0] := qd[0]];
    var found := Unvisited(Adj(g, queue[0]), dist'.Keys);
    var queue', qd' := queue[1..] + found, qd[1..] + seq(|found|, _ => qd[0] + 1);
    if p in dist' {
      assert dist'[p] <= qd[0];
    } else {
      assert p in found;
      var i :| 0 <= i < |found| && found[i] == p;
      assert queue'[|queue| - 1 + i] == p && qd'[|queue| - 1 + i] == qd[0] + 1;
    }
  }

  lemma SearchVisitWalks(g: Graph, start: BlockHash, queue: seq<BlockHash>, qd: seq<nat>, found: seq<BlockHash>)
    requires |qd| == |queue| && queue != []
    requires forall i :: 0 <= i < |queue| ==> Walk(g, start, queue[i], qd[i])
    requires forall p :: p in found ==> p in Adj(g, queue[0])
    ensures var queue', qd' := queue[1..] + found, qd[1..] + seq(|found|, _ => qd[0] + 1);
            forall i :: 0 <= i < |queue'| ==> Walk(g, start, queue'[i], qd'[i])
  {
    var queue', qd' := queue[1..] + found, qd[1..] + seq(|found|, _ => qd[0] + 1);
    forall i | 0 <= i < |queue'|
      ensures Walk(g, start, queue'[i], qd'[i])
    {
      if i < |queue| - 1 {
        assert queue'[i] == queue[i + 1] && qd'[i] == qd[i + 1];
      } else {
        assert queue'[i] in found;
        WalkOne(g, queue[0], queue'[i]);
        WalkConcat(g, start, queue[0], queue'[i], qd[0], 1);
      }
    }
  }

  lemma SearchVisitSorted(dist: map<BlockHash, nat>, h: BlockHash, qd: seq<nat>, k: nat)
    requires Sorted(dist, qd) && qd != []
    ensures Sorted(dist[h := qd[0]], qd[1..] + seq(k, _ => qd[0] + 1))
  {
  }

  /** Visiting the first block of the queue and adding its unvisited neighbours one step further out. */
  lemma SearchVisit(g: Graph, start: BlockHash, dist: map<BlockHash, nat>, queue: seq<BlockHash>, qd: seq<nat>)
    requires Searched(g, start, dist, queue, qd) && queue != [] && queue[0] !in dist
    ensures var dist' := dist[queue[0] := qd[0]];
            var found := Unvisited(Adj(g, queue[0]), dist'.Keys);
            Searched(g, start, dist', queue[1..] + found, qd[1..] + seq(|found|, _ => qd[0] + 1))
  {
    hide Covered, Sorted, Walk, Unvisited, Adj;
    var dist' := dist[queue[0] := qd[0]];
    var found := Unvisited(Adj(g, queue[0]), dist'.Keys);
    var queue', qd' := queue[1..] + found, qd[1..] + seq(|found|, _ => qd[0] + 1);
    SearchVisitSorted(dist, queue[0], qd, |found|);
    SearchVisitWalks(g, start, queue, qd, found);
    CoveredGrows(dist, queue, qd, dist', queue', qd', start, 0);
    forall v, p | v in dist' && p in Adj(g, v)
      ensures Covered(dist', queue', qd', p, dist'[v] + 1)
    {
      if v == queue[0] {
        NewNeighbourCovered(g, dist, queue, qd, p);
      } else {
        CoveredGrows(dist, queue, qd, dist', queue', qd', p, dist[v] + 1);
      }
    }
  }

  /** Any walk from a covered block leads to a visited one, or meets the queue on its way. */
  lemma {:induction false} WalkMeetsQueue(g: Graph, start: BlockHash, dist: map<BlockHash, nat>,
                                          queue: seq<BlockHash>, qd: seq<nat>,
                                          a: BlockHash, d: nat, x: BlockHash, n: nat)
    requires Searched(g, start, dist, queue, qd)
    requires Covered(dist, queue, qd, a, d) && Walk(g, a, x, n) && x !in dist
    ensures queue != [] && qd[0] <= d + n
    decreases n
  {
    if a in dist && dist[a] <= d {
      assert n > 0;
      var p :| p in Adj(g, a) && Walk(g, p, x, n - 1);
      WalkMeetsQueue(g, start, dist, queue, qd, p, dist[a] + 1, x, n - 1);
    }
  }

  /** No unvisited block is nearer than the head of the queue; with an empty queue none is reachable. */
  lemma HeadIsNearest(g: Graph, start: BlockHash, dist: map<BlockHash, nat>, queue: seq<BlockHash>, qd: seq<nat>,
                      x: BlockHash, n: nat)
    requires Searched(g, start, dist, queue, qd) && x !in dist && Walk(g, start, x, n)
    ensures queue != [] && qd[0] <= n
  {
    WalkMeetsQueue(g, start, dist, queue, qd, start, 0, x, n);
  }
}
