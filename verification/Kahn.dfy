/**
  Kahn's algorithm as the index runs it: a FIFO queue, a table of in-degrees, and
  child lists scanned in stored order.  The functions give the exact sequence of
  blocks that leaves the queue; the lemmas say what that sequence is.
 */
module Kahn {
  import opened Collections
  import opened Graphs

  type Degrees = map<BlockHash, int>

  /** The in-degree table after decrementing once per occurrence in `cs`. */
  function Settle(deg: Degrees, cs: seq<BlockHash>): (r: Degrees) {
    map x | x in deg :: deg[x] - multiset(cs)[x]
  }

  /** The blocks whose in-degree hits zero while `cs` is scanned, in scan order. */
  function Freed(deg: Degrees, cs: seq<BlockHash>): seq<BlockHash> {
    if cs == [] then []
    else
      var init, x := cs[..|cs| - 1], cs[|cs| - 1];
      Freed(deg, init) + (if x in deg && deg[x] - multiset(init)[x] == 1 then [x] else [])
  }

  ghost function Waiting(deg: Degrees): set<BlockHash> {
    set x | x in deg && deg[x] > 0
  }

  /** What the main loop outputs from queue `q` and in-degrees `deg`. */
  ghost function Drain(q: seq<BlockHash>, deg: Degrees, c: Graph): seq<BlockHash>
    decreases Waiting(deg), |q|
  {
    if q == [] then []
    else
      var cs := Adj(c, q[0]);
      SettleShrinks(deg, cs);
      [q[0]] + Drain(q[1..] + Freed(deg, cs), Settle(deg, cs), c)
  }

  /** The parentless blocks of `hashes`, in that order. */
  function Roots(g: Graph, hashes: seq<BlockHash>): seq<BlockHash> {
    if hashes == [] then []
    else
      var x := hashes[|hashes| - 1];
      Roots(g, hashes[..|hashes| - 1]) + (if x in g && g[x] == [] then [x] else [])
  }

  function InDegrees(g: Graph): Degrees {
    map h | h in g :: |g[h]|
  }

  ghost function Order(g: Graph, c: Graph, hashes: seq<BlockHash>): seq<BlockHash> {
    Drain(Roots(g, hashes), InDegrees(g), c)
  }

  /** Parents come before children. */
  ghost predicate Topological(g: Graph, order: seq<BlockHash>) {
    forall i, p :: 0 <= i < |order| && p in Adj(g, order[i]) ==> p in order[..i]
  }

  lemma ListsHasNoRepeats(xs: seq<BlockHash>, S: set<BlockHash>)
    requires Lists(xs, S)
    ensures NoRepeats(xs)
  {
  }

  // ---- in-degree bookkeeping ------------------------------------------------

  lemma {:induction false} CountSplit(cs: seq<BlockHash>, x: BlockHash)
    requires cs != []
    ensures multiset(cs)[x] == multiset(cs[..|cs| - 1])[x] + (if cs[|cs| - 1] == x then 1 else 0)
  {
    assert cs == cs[..|cs| - 1] + [cs[|cs| - 1]];
  }

  /** A block is freed once, exactly when its positive in-degree is used up by `cs`. */
  lemma {:induction false} FreedExactly(deg: Degrees, cs: seq<BlockHash>)
    ensures forall x :: x in Freed(deg, cs) <==> x in deg && 0 < deg[x] <= multiset(cs)[x]
    ensures NoRepeats(Freed(deg, cs))
  {
    if cs != [] {
      var init, last := cs[..|cs| - 1], cs[|cs| - 1];
      FreedExactly(deg, init);
      forall x ensures x in Freed(deg, cs) <==> x in deg && 0 < deg[x] <= multiset(cs)[x] {
        CountSplit(cs, x);
      }
    }
  }

  lemma SettleShrinks(deg: Degrees, cs: seq<BlockHash>)
    ensures Waiting(Settle(deg, cs)) <= Waiting(deg)
    ensures Freed(deg, cs) != [] ==> Waiting(Settle(deg, cs)) < Waiting(deg)
  {
    FreedExactly(deg, cs);
    if Freed(deg, cs) != [] {
      var x := Freed(deg, cs)[0];
      assert x in Waiting(deg) && x !in Waiting(Settle(deg, cs));
    }
  }

  /** How many entries of a parent list are not yet in `done`. */
  ghost function Missing(ps: seq<BlockHash>, done: set<BlockHash>): nat {
    if ps == [] then 0
    else Missing(ps[..|ps| - 1], done) + (if ps[|ps| - 1] in done then 0 else 1)
  }

  lemma {:induction false} MissingNone(ps: seq<BlockHash>, done: set<BlockHash>)
    ensures Missing(ps, done) == 0 <==> forall p :: p in ps ==> p in done
  {
    if ps != [] {
      MissingNone(ps[..|ps| - 1], done);
      assert ps == ps[..|ps| - 1] + [ps[|ps| - 1]];
    }
  }

  lemma {:induction false} MissingAll(ps: seq<BlockHash>)
    ensures Missing(ps, {}) == |ps|
  {
    if ps != [] {
      MissingAll(ps[..|ps| - 1]);
    }
  }

  lemma {:induction false} MissingStep(ps: seq<BlockHash>, done: set<BlockHash>, x: BlockHash)
    requires x !in done
    ensures Missing(ps, done + {x}) == Missing(ps, done) - multiset(ps)[x]
  {
    if ps != [] {
      MissingStep(ps[..|ps| - 1], done, x);
      CountSplit(ps, x);
    }
  }

  // ---- the loop invariant -----------------------------------------------------

  /** The state of the main loop: `done` has been output, `q` is queued, `deg` counts what is missing. */
  ghost predicate Progress(g: Graph, done: seq<BlockHash>, q: seq<BlockHash>, deg: Degrees) {
    && deg.Keys == g.Keys
    && NoRepeats(done + q)
    && Topological(g, done)
    && (forall h :: h in g ==> deg[h] == Missing(g[h], Elements(done)))
    && (forall h :: h in done + q <==> h in g && deg[h] == 0)
  }

  lemma QueuedParentsAreDone(g: Graph, done: seq<BlockHash>, q: seq<BlockHash>, deg: Degrees, h: BlockHash)
    requires Progress(g, done, q, deg) && h in q
    ensures forall p :: p in Adj(g, h) ==> p in done
  {
    assert h in done + q;
    MissingNone(g[h], Elements(done));
  }

  lemma HeadIsNew(done: seq<BlockHash>, q: seq<BlockHash>)
    requires NoRepeats(done + q) && q != []
    ensures q[0] !in done
    ensures done + q == (done + [q[0]]) + q[1..]
    ensures Elements(done + [q[0]]) == Elements(done) + {q[0]}
  {
    forall i | 0 <= i < |done|
      ensures done[i] != q[0]
    {
      assert done[i] == (done + q)[i] && (done + q)[|done|] == q[0];
    }
  }

  lemma StepDegrees(g: Graph, c: Graph, done: seq<BlockHash>, q: seq<BlockHash>, deg: Degrees)
    requires Progress(g, done, q, deg) && Transposed(g, c) && q != []
    ensures Settle(deg, Adj(c, q[0])).Keys == g.Keys
    ensures forall h :: h in g ==> Settle(deg, Adj(c, q[0]))[h] == Missing(g[h], Elements(done + [q[0]]))
  {
    HeadIsNew(done, q);
    forall h | h in g
      ensures Settle(deg, Adj(c, q[0]))[h] == Missing(g[h], Elements(done + [q[0]]))
    {
      MissingStep(g[h], Elements(done), q[0]);
      assert multiset(Adj(c, q[0]))[h] == multiset(Adj(g, h))[q[0]];
    }
  }

  lemma StepMembers(g: Graph, c: Graph, done: seq<BlockHash>, q: seq<BlockHash>, deg: Degrees)
    requires Progress(g, done, q, deg) && Transposed(g, c) && q != []
    ensures var f := Freed(deg, Adj(c, q[0]));
            && NoRepeats((done + q) + f)
            && forall h :: h in (done + q) + f <==> h in g && Settle(deg, Adj(c, q[0]))[h] == 0
  {
    var cs := Adj(c, q[0]);
    StepDegrees(g, c, done, q, deg);
    FreedExactly(deg, cs);
    FreedIsNew(g, done, q, deg, cs);
    NoRepeatsConcat(done + q, Freed(deg, cs));
    forall h
      ensures h in (done + q) + Freed(deg, cs) <==> h in g && Settle(deg, cs)[h] == 0
    {
      assert h in (done + q) + Freed(deg, cs) <==> h in done + q || h in Freed(deg, cs);
    }
  }

  lemma {:induction false} ProgressStep(g: Graph, c: Graph, done: seq<BlockHash>, q: seq<BlockHash>, deg: Degrees)
    requires Progress(g, done, q, deg) && Transposed(g, c) && q != []
    ensures Progress(g, done + [q[0]], q[1..] + Freed(deg, Adj(c, q[0])), Settle(deg, Adj(c, q[0])))
  {
    hide Freed, Settle, Adj, Missing, Transposed;
    var x, f := q[0], Freed(deg, Adj(c, q[0]));
    HeadIsNew(done, q);
    StepDegrees(g, c, done, q, deg);
    StepMembers(g, c, done, q, deg);
    assert (done + [x]) + (q[1..] + f) == (done + q) + f;
    QueuedParentsAreDone(g, done, q, deg, x);
    TopologicalSnoc(g, done, x);
  }

  lemma FreedIsNew(g: Graph, done: seq<BlockHash>, q: seq<BlockHash>, deg: Degrees, cs: seq<BlockHash>)
    requires Progress(g, done, q, deg)
    ensures forall h :: h in Freed(deg, cs) ==> h !in done + q
  {
    FreedExactly(deg, cs);
  }

  lemma NoRepeatsConcat(a: seq<BlockHash>, b: seq<BlockHash>)
    requires NoRepeats(a) && NoRepeats(b) && forall h :: h in b ==> h !in a
    ensures NoRepeats(a + b)
  {
    var ab := a + b;
    forall i, j | 0 <= i < j < |ab|
      ensures ab[i] != ab[j]
    {
      if i < |a| <= j {
        assert ab[j] == b[j - |a|] && b[j - |a|] in b;
        assert ab[i] in a;
      }
    }
  }

  lemma TopologicalSnoc(g: Graph, order: seq<BlockHash>, x: BlockHash)
    requires Topological(g, order) && forall p :: p in Adj(g, x) ==> p in order
    ensures Topological(g, order + [x])
  {
    var order' := order + [x];
    forall i, p | 0 <= i < |order'| && p in Adj(g, order'[i])
      ensures p in order'[..i]
    {
      if i < |order| {
        assert order'[..i] == order[..i];
      } else {
        assert order'[..i] == order;
      }
    }
  }

  /** From any loop state the run ends in a state of the same kind with an empty queue. */
  lemma {:induction false} DrainProgress(g: Graph, c: Graph, done: seq<BlockHash>, q: seq<BlockHash>, deg: Degrees)
    returns (last: Degrees)
    requires Progress(g, done, q, deg) && Transposed(g, c)
    ensures Progress(g, done + Drain(q, deg, c), [], last)
    decreases Waiting(deg), |q|
  {
    hide Progress, Freed, Settle, Adj, Transposed, Waiting;
    if q == [] {
      assert done + [] == done;
      last := deg;
    } else {
      var cs := Adj(c, q[0]);
      SettleShrinks(deg, cs);
      ProgressStep(g, c, done, q, deg);
      last := DrainProgress(g, c, done + [q[0]], q[1..] + Freed(deg, cs), Settle(deg, cs));
      assert done + Drain(q, deg, c)
          == done + [q[0]] + Drain(q[1..] + Freed(deg, cs), Settle(deg, cs), c);
    }
  }

  lemma {:induction false} RootsExactly(g: Graph, hashes: seq<BlockHash>)
    requires NoRepeats(hashes)
    ensures forall x :: x in Roots(g, hashes) <==> x in hashes && x in g && g[x] == []
    ensures NoRepeats(Roots(g, hashes))
  {
    if hashes != [] {
      var init, x := hashes[..|hashes| - 1], hashes[|hashes| - 1];
      RootsExactly(g, init);
      assert hashes == init + [x];
      assert x !in init;
    }
  }

  lemma StartProgress(g: Graph, hashes: seq<BlockHash>)
    requires Lists(hashes, g.Keys)
    ensures Progress(g, [], Roots(g, hashes), InDegrees(g))
  {
    RootsExactly(g, hashes);
    var q := Roots(g, hashes);
    assert [] + q == q;
    forall h | h in g
      ensures InDegrees(g)[h] == Missing(g[h], Elements([]))
    {
      MissingAll(g[h]);
      assert Elements<BlockHash>([]) == {};
    }
  }

  /** When the queue is empty, a ranked graph has been output completely: a block of least rank cannot be stuck. */
  lemma {:induction false} NothingStuck(g: Graph, rank: map<BlockHash, nat>, done: seq<BlockHash>, deg: Degrees,
                                        h: BlockHash)
    requires Ranked(g, rank) && Progress(g, done, [], deg) && h in g
    ensures h in done
    decreases rank[h]
  {
    assert done + [] == done;
    if deg[h] != 0 {
      MissingNone(g[h], Elements(done));
      var p :| p in g[h] && p !in done;
      NothingStuck(g, rank, done, deg, p);
    }
  }

  /**
    On every acyclic graph Kahn's order lists each block exactly once and puts every
    parent before its child, also when a block names the same parent several times.
   */
  lemma {:induction false} OrderIsTopological(g: Graph, c: Graph, hashes: seq<BlockHash>, rank: map<BlockHash, nat>)
    requires Ranked(g, rank) && Transposed(g, c) && Lists(hashes, g.Keys)
    ensures Lists(Order(g, c, hashes), g.Keys)
    ensures Topological(g, Order(g, c, hashes))
  {
    StartProgress(g, hashes);
    var deg := DrainProgress(g, c, [], Roots(g, hashes), InDegrees(g));
    var order := Order(g, c, hashes);
    assert [] + order == order && order + [] == order;
    forall h | h in g
      ensures h in order
    {
      NothingStuck(g, rank, order, deg, h);
    }
  }

  /** In a topological order a reached block stands strictly earlier. */
  lemma {:induction false} AncestorsComeFirst(g: Graph, order: seq<BlockHash>, i: nat, a: BlockHash, n: nat)
    requires Topological(g, order) && i < |order|
    requires n > 0 && Walk(g, order[i], a, n)
    ensures a in order[..i]
    decreases n
  {
    var p :| p in Adj(g, order[i]) && Walk(g, p, a, n - 1);
    assert p in order[..i];
    var j :| 0 <= j < i && order[..i][j] == p;
    if n > 1 {
      AncestorsComeFirst(g, order, j, a, n - 1);
      assert order[..j] <= order[..i];
    }
  }
}
