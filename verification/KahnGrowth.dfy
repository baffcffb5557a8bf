/**
  How Kahn's order changes when a block without children is added.

  The relative order of the old blocks never changes: the new order is the old one
  with the new block put in at one place, and that place is known beforehand.
 */
module KahnGrowth {
  import opened Collections
  import opened Graphs
  import opened Kahn

  function InsertAt(xs: seq<BlockHash>, i: nat, x: BlockHash): seq<BlockHash>
    requires i <= |xs|
  {
    xs[..i] + [x] + xs[i..]
  }

  function Repeat(x: BlockHash, k: nat): seq<BlockHash> {
    seq(k, _ => x)
  }

  /** `(g', c')` is `(g, c)` with the fresh block `x` over parents `ps`, appended to its parents' child lists. */
  ghost predicate Extends(g: Graph, c: Graph, g': Graph, c': Graph, x: BlockHash, ps: seq<BlockHash>) {
    && x !in g && x !in ps
    && g' == g[x := ps]
    && (forall p :: Adj(c', p) == Adj(c, p) + Repeat(x, multiset(ps)[p]))
    && Adj(c', x) == []
  }

  /** The blocks all of whose parents are in `done`. */
  ghost function Enabled(g: Graph, done: set<BlockHash>): set<BlockHash> {
    set h | h in g && forall p :: p in g[h] ==> p in done
  }

  /** The length of the shortest prefix of `order` that holds all of `ps` (all of it if none does). */
  ghost function Cover(order: seq<BlockHash>, ps: seq<BlockHash>): nat
    ensures Cover(order, ps) <= |order|
  {
    if order != [] && forall p :: p in ps ==> p in order[..|order| - 1]
    then Cover(order[..|order| - 1], ps)
    else |order|
  }

  /** Where a new block over parents `ps` will stand: after every block enabled by the time its last parent is out. */
  ghost function Landing(g: Graph, order: seq<BlockHash>, ps: seq<BlockHash>): nat {
    |Enabled(g, Elements(order[..Cover(order, ps)]))|
  }

  // ---- one relaxation step in both graphs ---------------------------------------

  lemma {:induction false} FreedIgnores(deg: Degrees, cs: seq<BlockHash>, x: BlockHash, m: int)
    requires x !in cs
    ensures Freed(deg[x := m], cs) == Freed(deg, cs)
  {
    if cs != [] {
      FreedIgnores(deg, cs[..|cs| - 1], x, m);
    }
  }

  lemma FreedSnoc(deg: Degrees, cs: seq<BlockHash>, x: BlockHash)
    ensures Freed(deg, cs + [x]) == Freed(deg, cs) + (if x in deg && deg[x] - multiset(cs)[x] == 1 then [x] else [])
  {
    assert (cs + [x])[..|cs|] == cs;
  }

  lemma {:induction false} FreedRepeat(deg: Degrees, cs: seq<BlockHash>, x: BlockHash, m: int, k: nat)
    requires x !in cs
    ensures Freed(deg[x := m], cs + Repeat(x, k)) == Freed(deg, cs) + (if 0 < m <= k then [x] else [])
  {
    hide Freed;
    if k == 0 {
      assert cs + Repeat(x, 0) == cs;
      FreedIgnores(deg, cs, x, m);
    } else {
      assert cs + Repeat(x, k) == (cs + Repeat(x, k - 1)) + [x];
      FreedSnoc(deg[x := m], cs + Repeat(x, k - 1), x);
      FreedRepeat(deg, cs, x, m, k - 1);
      CountRepeat(cs, x, k - 1);
    }
  }

  lemma {:induction false} CountRepeat(cs: seq<BlockHash>, x: BlockHash, k: nat)
    requires x !in cs
    ensures multiset(cs + Repeat(x, k))[x] == k
    ensures forall y :: y != x ==> multiset(cs + Repeat(x, k))[y] == multiset(cs)[y]
  {
    if k == 0 {
      assert cs + Repeat(x, 0) == cs;
    } else {
      assert cs + Repeat(x, k) == (cs + Repeat(x, k - 1)) + [x];
      CountRepeat(cs, x, k - 1);
    }
  }

  lemma SettleRepeat(deg: Degrees, cs: seq<BlockHash>, x: BlockHash, m: int, k: nat)
    requires x !in cs
    ensures Settle(deg[x := m], cs + Repeat(x, k)) == Settle(deg, cs)[x := m - k]
  {
    CountRepeat(cs, x, k);
  }

  lemma FreshHasNoOldEdges(g: Graph, c: Graph, x: BlockHash, p: BlockHash)
    requires Transposed(g, c) && x !in g
    ensures x !in Adj(c, p)
  {
    TransposedEdge(g, c, p, x);
  }

  lemma DrainPop(y: BlockHash, rest: seq<BlockHash>, deg: Degrees, c: Graph)
    ensures Drain([y] + rest, deg, c)
         == [y] + Drain(rest + Freed(deg, Adj(c, y)), Settle(deg, Adj(c, y)), c)
  {
    assert ([y] + rest)[1..] == rest;
  }

  /** The queue after popping `y` in the extended run: the old one, and `x` behind it if this was its last link. */
  lemma PopStep(c: Graph, c': Graph, x: BlockHash, y: BlockHash, k: nat,
                rest: seq<BlockHash>, deg: Degrees, m: int)
    requires Adj(c', y) == Adj(c, y) + Repeat(x, k) && x !in Adj(c, y)
    ensures Drain([y] + rest, deg[x := m], c')
         == [y] + Drain(rest + (Freed(deg, Adj(c, y)) + (if 0 < m <= k then [x] else [])),
                        Settle(deg, Adj(c, y))[x := m - k], c')
  {
    hide Drain, Freed, Settle, Repeat, Adj;
    FreedRepeat(deg, Adj(c, y), x, m, k);
    SettleRepeat(deg, Adj(c, y), x, m, k);
    DrainPop(y, rest, deg[x := m], c');
  }

  lemma PopInExtended(g: Graph, c: Graph, g': Graph, c': Graph, x: BlockHash, ps: seq<BlockHash>,
                      y: BlockHash, rest: seq<BlockHash>, deg: Degrees, m: int)
    requires Transposed(g, c) && Extends(g, c, g', c', x, ps)
    ensures Drain([y] + rest, deg[x := m], c')
         == [y] + Drain(rest + (Freed(deg, Adj(c, y)) + (if 0 < m <= multiset(ps)[y] then [x] else [])),
                        Settle(deg, Adj(c, y))[x := m - multiset(ps)[y]], c')
  {
    hide Drain, Freed, Settle, Repeat, Adj;
    FreshHasNoOldEdges(g, c, x, y);
    assert Adj(c', y) == Adj(c, y) + Repeat(x, multiset(ps)[y]);
    PopStep(c, c', x, y, multiset(ps)[y], rest, deg, m);
  }

  // ---- three phases of the run ----------------------------------------------------

  /** Once `x` has left the queue the two runs agree. */
  lemma {:induction false} RunAfter(g: Graph, c: Graph, g': Graph, c': Graph, x: BlockHash, ps: seq<BlockHash>,
                                    q: seq<BlockHash>, deg: Degrees, m: int)
    requires Transposed(g, c) && Extends(g, c, g', c', x, ps) && m <= 0
    ensures Drain(q, deg[x := m], c') == Drain(q, deg, c)
    decreases Waiting(deg), |q|
  {
    hide Freed, Settle, Adj, Extends;
    if q != [] {
      var y, rest, cs, k := q[0], q[1..], Adj(c, q[0]), multiset(ps)[q[0]];
      assert q == [y] + rest;
      SettleShrinks(deg, cs);
      PopInExtended(g, c, g', c', x, ps, y, rest, deg, m);
      DrainPop(y, rest, deg, c);
      assert Freed(deg, cs) + [] == Freed(deg, cs);
      RunAfter(g, c, g', c', x, ps, rest + Freed(deg, cs), Settle(deg, cs), m - k);
    }
  }

  lemma {:induction false} DrainCoversQueue(q: seq<BlockHash>, deg: Degrees, c: Graph)
    ensures |q| <= |Drain(q, deg, c)|
    decreases Waiting(deg), |q|
  {
    if q != [] {
      SettleShrinks(deg, Adj(c, q[0]));
      DrainCoversQueue(q[1..] + Freed(deg, Adj(c, q[0])), Settle(deg, Adj(c, q[0])), c);
    }
  }

  lemma InsertAfterHead(y: BlockHash, xs: seq<BlockHash>, i: nat, x: BlockHash)
    requires i <= |xs|
    ensures [y] + InsertAt(xs, i, x) == InsertAt([y] + xs, i + 1, x)
  {
    assert ([y] + xs)[..i + 1] == [y] + xs[..i];
  }

  /** While `x` is queued at place `i`, it comes out at place `i` and delays what stands behind it by one. */
  lemma {:induction false} RunQueued(g: Graph, c: Graph, g': Graph, c': Graph, x: BlockHash, ps: seq<BlockHash>,
                                     q: seq<BlockHash>, i: nat, deg: Degrees, m: int)
    requires Transposed(g, c) && Extends(g, c, g', c', x, ps) && m <= 0 && i <= |q|
    ensures i <= |Drain(q, deg, c)|
    ensures Drain(InsertAt(q, i, x), deg[x := m], c') == InsertAt(Drain(q, deg, c), i, x)
    decreases i
  {
    hide Drain, Freed, Settle, InsertAt, Transposed;
    DrainCoversQueue(q, deg, c);
    if i == 0 {
      PopLeaf(x, q, deg[x := m], c');
      InsertAtHead(q, x);
      RunAfter(g, c, g', c', x, ps, q, deg, m);
      InsertAtHead(Drain(q, deg, c), x);
    } else {
      var y, cs, k := q[0], Adj(c, q[0]), multiset(ps)[q[0]];
      var rest := q[1..] + Freed(deg, cs);
      InsertAfterHead(y, q[1..], i - 1, x);
      assert q == [y] + q[1..];
      PopInExtended(g, c, g', c', x, ps, y, InsertAt(q[1..], i - 1, x), deg, m);
      InsertAppends(q[1..], i - 1, x, Freed(deg, cs));
      DrainPop(y, q[1..], deg, c);
      RunQueued(g, c, g', c', x, ps, rest, i - 1, Settle(deg, cs), m - k);
      InsertAfterHead(y, Drain(rest, Settle(deg, cs), c), i - 1, x);
    }
  }

  lemma InsertAtHead(xs: seq<BlockHash>, x: BlockHash)
    ensures InsertAt(xs, 0, x) == [x] + xs
  {
  }

  lemma InsertAppends(xs: seq<BlockHash>, i: nat, x: BlockHash, ys: seq<BlockHash>)
    requires i <= |xs|
    ensures InsertAt(xs, i, x) + (ys + []) == InsertAt(xs + ys, i, x)
  {
  }

  lemma PopLeaf(x: BlockHash, rest: seq<BlockHash>, deg: Degrees, c: Graph)
    requires Adj(c, x) == []
    ensures Drain([x] + rest, deg, c) == [x] + Drain(rest, deg, c)
  {
    assert ([x] + rest)[1..] + Freed(deg, []) == rest;
    assert Settle(deg, []) == deg;
  }

  /** A queue of blocks without children comes out as it stands. */
  lemma {:induction false} DrainLeaves(q: seq<BlockHash>, deg: Degrees, c: Graph)
    requires forall y :: y in q ==> Adj(c, y) == []
    ensures Drain(q, deg, c) == q
    decreases |q|
  {
    if q != [] {
      assert q == [q[0]] + q[1..];
      PopLeaf(q[0], q[1..], deg, c);
      DrainLeaves(q[1..], deg, c);
    }
  }

  /** What the runs look like from a state in which `x` still waits for `m` parent links. */
  ghost predicate Lands(g: Graph, c: Graph, c': Graph, x: BlockHash, ps: seq<BlockHash>,
                        done: seq<BlockHash>, q: seq<BlockHash>, deg: Degrees, m: int, i: nat, cut: nat)
  {
    var run := Drain(q, deg, c);
    && i <= |run|
    && Drain(q, deg[x := m], c') == InsertAt(run, i, x)
    && LastNeeded(done + run, ps, cut)
    && |done| + i == |Enabled(g, Elements((done + run)[..cut]))|
  }

  lemma ProgressNoRepeats(g: Graph, done: seq<BlockHash>, q: seq<BlockHash>, deg: Degrees)
    requires Progress(g, done, q, deg)
    ensures NoRepeats(done + q)
  {
  }

  /** The step in which the last parent of `x` comes out and `x` joins the end of the queue. */
  lemma {:induction false} RunFrees(g: Graph, c: Graph, g': Graph, c': Graph, x: BlockHash, ps: seq<BlockHash>,
                                    done: seq<BlockHash>, q: seq<BlockHash>, deg: Degrees, m: int)
    requires Transposed(g, c) && Extends(g, c, g', c', x, ps)
    requires Progress(g, done, q, deg) && q != []
    requires m == Missing(ps, Elements(done)) && 0 < m <= multiset(ps)[q[0]]
    ensures Lands(g, c, c', x, ps, done, q, deg, m,
                  1 + |q[1..] + Freed(deg, Adj(c, q[0]))|, |done| + 1)
  {
    hide Drain, Freed, Settle, Adj, Missing, Progress, Extends, Enabled, Transposed;
    var y, cs, k := q[0], Adj(c, q[0]), multiset(ps)[q[0]];
    var rest, deg1 := q[1..] + Freed(deg, cs), Settle(deg, cs);
    DrainPop(y, q[1..], deg, c);
    ProgressNoRepeats(g, done, q, deg);
    HeadIsNew(done, q);
    MissingStep(ps, Elements(done), y);
    MissingNone(ps, Elements(done + [y]));
    ProgressStep(g, c, done, q, deg);
    EnabledCount(g, done + [y], rest, deg1);
    assert q == [y] + q[1..];
    PopInExtended(g, c, g', c', x, ps, y, q[1..], deg, m);
    assert q[1..] + (Freed(deg, cs) + [x]) == InsertAt(rest, |rest|, x);
    RunQueued(g, c, g', c', x, ps, rest, |rest|, deg1, m - k);
    InsertAfterHead(y, Drain(rest, deg1, c), |rest|, x);
    assert (done + Drain(q, deg, c))[..|done| + 1] == done + [y];
  }

  /** `x` waits for `m` more parent links; the run frees it when its last parent comes out. */
  lemma {:induction false} RunWaiting(g: Graph, c: Graph, g': Graph, c': Graph, rank: map<BlockHash, nat>,
                                      x: BlockHash, ps: seq<BlockHash>,
                                      done: seq<BlockHash>, q: seq<BlockHash>, deg: Degrees, m: int)
    returns (i: nat, cut: nat)
    requires Ranked(g, rank) && Transposed(g, c) && Extends(g, c, g', c', x, ps)
    requires forall p :: p in ps ==> p in g
    requires Progress(g, done, q, deg)
    requires m == Missing(ps, Elements(done)) && m > 0
    ensures Lands(g, c, c', x, ps, done, q, deg, m, i, cut)
    decreases Waiting(deg), |q|
  {
    hide Lands, Drain, Freed, Settle, Waiting, Missing, Extends, Transposed, Ranked, Progress;
    MissingNone(ps, Elements(done));
    ProgressNoRepeats(g, done, q, deg);
    if q == [] {
      var p :| p in ps && p !in done;
      NothingStuck(g, rank, done, deg, p);
      assert false;
    } else if m <= multiset(ps)[q[0]] {
      RunFrees(g, c, g', c', x, ps, done, q, deg, m);
      i, cut := 1 + |q[1..] + Freed(deg, Adj(c, q[0]))|, |done| + 1;
    } else {
      var y, cs, k := q[0], Adj(c, q[0]), multiset(ps)[q[0]];
      var rest, deg1 := q[1..] + Freed(deg, cs), Settle(deg, cs);
      SettleShrinks(deg, cs);
      HeadIsNew(done, q);
      MissingStep(ps, Elements(done), y);
      ProgressStep(g, c, done, q, deg);
      i, cut := RunWaiting(g, c, g', c', rank, x, ps, done + [y], rest, deg1, m - k);
      RunSkips(g, c, g', c', x, ps, done, q, deg, m, i, cut);
      i := i + 1;
    }
  }

  lemma RunSkips(g: Graph, c: Graph, g': Graph, c': Graph, x: BlockHash, ps: seq<BlockHash>,
                 done: seq<BlockHash>, q: seq<BlockHash>, deg: Degrees, m: int, i: nat, cut: nat)
    requires Transposed(g, c) && Extends(g, c, g', c', x, ps)
    requires q != [] && m > multiset(ps)[q[0]]
    requires Lands(g, c, c', x, ps, done + [q[0]], q[1..] + Freed(deg, Adj(c, q[0])), Settle(deg, Adj(c, q[0])),
                   m - multiset(ps)[q[0]], i, cut)
    ensures Lands(g, c, c', x, ps, done, q, deg, m, i + 1, cut)
  {
    hide Drain, Freed, Settle, Adj, Extends, Transposed, LastNeeded, Enabled, Elements;
    var y, cs := q[0], Adj(c, q[0]);
    var rest, deg1 := q[1..] + Freed(deg, cs), Settle(deg, cs);
    assert q == [y] + q[1..];
    DrainPop(y, q[1..], deg, c);
    PopInExtended(g, c, g', c', x, ps, y, q[1..], deg, m);
    assert q[1..] + (Freed(deg, cs) + []) == rest;
    InsertAfterHead(y, Drain(rest, deg1, c), i, x);
    assert done + Drain(q, deg, c) == (done + [y]) + Drain(rest, deg1, c);
  }

  /** `order[..cut]` holds all of `ps` and ends in one of them. */
  ghost predicate LastNeeded(order: seq<BlockHash>, ps: seq<BlockHash>, cut: nat) {
    && 0 < cut <= |order|
    && order[cut - 1] in ps
    && forall p :: p in ps ==> p in order[..cut]
  }

  lemma EnabledCount(g: Graph, done: seq<BlockHash>, q: seq<BlockHash>, deg: Degrees)
    requires Progress(g, done, q, deg)
    ensures |done| + |q| == |Enabled(g, Elements(done))|
  {
    var all := done + q;
    forall h
      ensures h in all <==> h in Enabled(g, Elements(done))
    {
      if h in g {
        MissingNone(g[h], Elements(done));
      }
    }
    ElementsCount(all);
    assert Elements(all) == Enabled(g, Elements(done));
  }

  lemma {:induction false} CoverIsLastNeeded(order: seq<BlockHash>, ps: seq<BlockHash>, cut: nat)
    requires NoRepeats(order) && LastNeeded(order, ps, cut)
    ensures Cover(order, ps) == cut
    decreases |order|
  {
    var init := order[..|order| - 1];
    if cut == |order| {
      assert order[cut - 1] !in init;
    } else {
      assert init[..cut] == order[..cut];
      assert forall p :: p in ps ==> p in init;
      CoverIsLastNeeded(init, ps, cut);
    }
  }

  lemma {:induction false} MissingSome(g: Graph, x: BlockHash, ps: seq<BlockHash>)
    requires ps != []
    ensures Missing(ps, Elements([])) == |ps| > 0
  {
    MissingAll(ps);
    assert Elements<BlockHash>([]) == {};
  }

  /**
    Adding a childless block to any acyclic graph leaves the relative order of all
    other blocks as it was and puts the new block at `Landing`.
   */
  lemma {:induction false} OrderGrowsByOne(g: Graph, c: Graph, g': Graph, c': Graph, rank: map<BlockHash, nat>,
                                           x: BlockHash, ps: seq<BlockHash>,
                                           hashes: seq<BlockHash>, hashes': seq<BlockHash>)
    requires Ranked(g, rank) && Transposed(g, c) && Extends(g, c, g', c', x, ps)
    requires ps != [] && forall p :: p in ps ==> p in g
    requires Lists(hashes, g.Keys) && Roots(g', hashes') == Roots(g, hashes)
    ensures Landing(g, Order(g, c, hashes), ps) <= |Order(g, c, hashes)|
    ensures Order(g', c', hashes')
         == InsertAt(Order(g, c, hashes), Landing(g, Order(g, c, hashes), ps), x)
  {
    hide *;
    var q, deg, order := Roots(g, hashes), InDegrees(g), Order(g, c, hashes);
    StartProgress(g, hashes);
    MissingSome(g, x, ps);
    var i, cut := RunWaiting(g, c, g', c', rank, x, ps, [], q, deg, |ps|);
    OrderIsTopological(g, c, hashes, rank);
    ListsHasNoRepeats(order, g.Keys);
    LandsFromStart(g, c, g', c', x, ps, hashes, hashes', i, cut);
  }

  lemma LandsFromStart(g: Graph, c: Graph, g': Graph, c': Graph, x: BlockHash, ps: seq<BlockHash>,
                       hashes: seq<BlockHash>, hashes': seq<BlockHash>, i: nat, cut: nat)
    requires Extends(g, c, g', c', x, ps) && Roots(g', hashes') == Roots(g, hashes)
    requires NoRepeats(Order(g, c, hashes))
    requires Lands(g, c, c', x, ps, [], Roots(g, hashes), InDegrees(g), |ps|, i, cut)
    ensures i <= |Order(g, c, hashes)| && i == Landing(g, Order(g, c, hashes), ps)
    ensures Order(g', c', hashes') == InsertAt(Order(g, c, hashes), i, x)
  {
    hide Drain, Roots, Enabled, Elements, Cover, InsertAt, Adj, NoRepeats;
    var order := Order(g, c, hashes);
    InDegreesGrow(g, c, g', c', x, ps);
    assert [] + order == order;
    CoverIsLastNeeded(order, ps, cut);
  }

  lemma InDegreesGrow(g: Graph, c: Graph, g': Graph, c': Graph, x: BlockHash, ps: seq<BlockHash>)
    requires Extends(g, c, g', c', x, ps)
    ensures InDegrees(g') == InDegrees(g)[x := |ps|]
  {
  }

  lemma LastIsNotEarlier(order: seq<BlockHash>, i: nat)
    requires NoRepeats(order) && i < |order|
    ensures order[|order| - 1] !in order[..i]
  {
  }

  /** The last block of a topological order has no children. */
  lemma LastHasNoChild(g: Graph, order: seq<BlockHash>, h: BlockHash)
    requires Topological(g, order) && Lists(order, g.Keys) && order != [] && h in g
    ensures order[|order| - 1] !in g[h]
  {
    var i :| 0 <= i < |order| && order[i] == h;
    if order[|order| - 1] in g[h] {
      LastIsNotEarlier(order, i);
      assert false;
    }
  }

  /** A block that takes every tip as a parent is appended at the very end. */
  lemma {:induction false} LandingOnAllTips(g: Graph, order: seq<BlockHash>, ps: seq<BlockHash>)
    requires Lists(order, g.Keys) && Topological(g, order)
    requires ps != [] && forall p :: p in ps ==> p in g
    requires forall t :: t in g && (forall h :: h in g ==> t !in g[h]) ==> t in ps
    ensures Landing(g, order, ps) == |order|
  {
    assert ps[0] in order;
    var last := order[|order| - 1];
    forall h | h in g ensures last !in g[h] { LastHasNoChild(g, order, h); }
    assert last in order && last in g;
    assert order[..|order|] == order;
    CoverIsLastNeeded(order, ps, |order|);
    forall h | h in g
      ensures h in Enabled(g, Elements(order))
    {
      var i :| 0 <= i < |order| && order[i] == h;
      forall p | p in g[h]
        ensures p in order
      {
        assert p in order[..i];
      }
    }
    assert Enabled(g, Elements(order)) == g.Keys == Elements(order);
    ElementsCount(order);
  }
}
