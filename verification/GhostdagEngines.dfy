/**
  The GHOSTDAG engine (src/consensus/ghostdag.rs): cached blue scores over an attached
  DAG, the ordering loop and its validator.
 */
module GhostdagEngines {
  import opened Collections
  import opened Graphs
  import opened Blocks
  import opened Dags
  import opened Pasts
  import opened Kahn
  import opened GhostOrders
  import opened RoundOrders
  import opened BlockDags
  import opened Heights
  import opened DagIndexes
  import opened DagOrders
  import opened Snapshots
  import Traversal = DagTraversals

  /**
    The counting loop: the block and its ancestors, each if its anticone has at most `k`
    members.  All of them do, so the count is the size of the past plus one, for every `k`.
   */
  method CountBlue(k: nat, store: Store, hash: BlockHash) returns (count: nat)
    requires Layered(store)
    ensures count == BlueScore(store, hash)
  {
    var rest := Traversal.GetAncestors(store, hash);
    count := 0;
    var own := Traversal.GetAnticone(store, hash, hash);
    AnticoneOfAncestor(store, hash, hash);
    if |own| <= k {
      count := count + 1;
    }
    while rest != {}
      invariant rest <= Past(store, hash)
      invariant count + |rest| == |Past(store, hash)| + 1
      decreases rest
    {
      var a :| a in rest;
      var anticone := Traversal.GetAnticone(store, a, hash);
      AnticoneOfAncestor(store, a, hash);
      rest := rest - {a};
      if |anticone| <= k {
        count := count + 1;
      }
    }
  }

  /** Puts `x` in its place in an ascending list. */
  method InsertSorted(xs: seq<BlockHash>, score: Scores, x: BlockHash) returns (ys: seq<BlockHash>)
    requires Ascending(score, xs) && x !in xs
    ensures Ascending(score, ys) && Elements(ys) == Elements(xs) + {x}
  {
    var i := |xs|;
    while i > 0 && Before(score, x, xs[i - 1])
      invariant 0 <= i <= |xs|
      invariant forall j :: i <= j < |xs| ==> Before(score, x, xs[j])
    {
      i := i - 1;
    }
    ys := xs[..i] + [x] + xs[i..];
    InsertedAscends(xs, score, x, i);
    assert xs == xs[..i] + xs[i..];
    assert forall y :: y in ys <==> y in xs || y == x;
  }

  lemma InsertedAscends(xs: seq<BlockHash>, score: Scores, x: BlockHash, i: nat)
    requires Ascending(score, xs) && x !in xs && i <= |xs|
    requires forall j :: i <= j < |xs| ==> Before(score, x, xs[j])
    requires i > 0 ==> !Before(score, x, xs[i - 1])
    ensures Ascending(score, xs[..i] + [x] + xs[i..])
  {
    var ys := xs[..i] + [x] + xs[i..];
    forall a, b | 0 <= a < b < |ys|
      ensures Before(score, ys[a], ys[b])
    {
      var a', b' := if a < i then a else a - 1, if b < i then b else b - 1;
      if b == i {
        assert ys[a] == xs[a] && ys[b] == x;
        assert xs[i - 1] in xs;
        assert a == i - 1 || Before(score, xs[a], xs[i - 1]);
      } else if a == i {
        assert ys[a] == x && ys[b] == xs[b'];
      } else {
        assert ys[a] == xs[a'] && ys[b] == xs[b'];
      }
    }
  }

  method SortByScore(xs: seq<BlockHash>, score: Scores) returns (ys: seq<BlockHash>)
    requires NoRepeats(xs)
    ensures Ascending(score, ys) && Elements(ys) == Elements(xs)
  {
    ys := [];
    for i := 0 to |xs|
      invariant Ascending(score, ys) && Elements(ys) == Elements(xs[..i])
    {
      assert xs[..i + 1] == xs[..i] + [xs[i]];
      assert xs[i] !in xs[..i];
      assert xs[i] !in Elements(ys);
      ys := InsertSorted(ys, score, xs[i]);
    }
    assert xs[..|xs|] == xs;
  }

  /** The blocks of `all` that are ready, in the order of `all`, which lists the part `s` of the store. */
  method CollectReady(store: Store, ghost s: Store, all: seq<BlockHash>, processed: set<BlockHash>)
    returns (next: seq<BlockHash>)
    requires Grows(s, store) && Lists(all, s.Keys)
    ensures NoRepeats(next) && Elements(next) == Ready(s, processed)
  {
    next := [];
    for i := 0 to |all|
      invariant NoRepeats(next)
      invariant forall h :: h in next <==> h in all[..i] && h in Ready(s, processed)
    {
      assert all[i] in all;
      assert all[..i + 1] == all[..i] + [all[i]];
      assert all[i] !in all[..i];
      if all[i] !in processed && forall p :: p in store[all[i]].header.parentHashes ==> p in processed {
        NoRepeatsConcat(next, [all[i]]);
        next := next + [all[i]];
      }
    }
    assert all[..|all|] == all;
  }

  /** Parentless blocks all have score one, so sorting them by hash is sorting them by score. */
  lemma GenesisOrder(s: Store, xs: seq<BlockHash>)
    requires Layered(s) && Ascending(map[], xs) && Elements(xs) == Ready(s, {})
    ensures Ascending(ScoreMap(s), xs)
  {
    forall i, j | 0 <= i < j < |xs|
      ensures Before(ScoreMap(s), xs[i], xs[j])
    {
      assert xs[i] in Ready(s, {}) && xs[j] in Ready(s, {}) by {
        assert xs[i] in xs && xs[j] in xs;
        assert xs[i] in Elements(xs) && xs[j] in Elements(xs);
      }
      ParentlessScore(s, xs[i]);
      ParentlessScore(s, xs[j]);
    }
  }

  lemma ParentlessScore(s: Store, h: BlockHash)
    requires Layered(s) && h in Ready(s, {})
    ensures BlueScore(s, h) == 1
  {
    SomeMember(s[h].header.parentHashes);
    ScoreOneExactly(s, h);
  }

  /** The index of the first occurrence. */
  method Position(ordering: seq<BlockHash>, h: BlockHash) returns (r: Option<nat>)
    ensures r.Some? ==> r.value < |ordering| && ordering[r.value] == h && h !in ordering[..r.value]
    ensures r.None? ==> h !in ordering
  {
    for i := 0 to |ordering|
      invariant h !in ordering[..i]
    {
      if ordering[i] == h {
        return Some(i);
      }
      assert ordering[..i + 1] == ordering[..i] + [ordering[i]];
    }
    assert ordering[..|ordering|] == ordering;
    r := None;
  }

  /** Genesis blocks first, by hash. */
  method PlaceGenesis(store: Store, ghost s: Store, all: seq<BlockHash>) returns (ordering: seq<BlockHash>)
    requires Layered(s) && Grows(s, store) && Lists(all, s.Keys) && all != []
    ensures Elements(ordering) == Ready(s, {})
    ensures ordering + Rounds(s, Elements(ordering)) == GhostOrder(s)
  {
    hide Lists, Ready, Rounds, Ascending, Grows;
    var genesis := CollectReady(store, s, all, {});
    ordering := SortByScore(genesis, map[]);
    GenesisOrder(s, ordering);
    assert all[0] in s by { FirstIsStored(s, all); }
    SomethingIsReady(s, {}, all[0]);
    RoundIsNext(s, {}, ordering);
    assert {} + Ready(s, {}) == Elements(ordering);
  }

  lemma FirstIsStored(s: Store, all: seq<BlockHash>)
    requires Lists(all, s.Keys) && all != []
    ensures all[0] in s
  {
    assert all[0] in all;
  }

  lemma NothingToOrder(s: Store, all: seq<BlockHash>)
    requires Lists(all, s.Keys) && all == []
    ensures GhostOrder(s) == []
  {
    assert forall h :: h !in s;
  }

  /** The rounds after genesis; each finds a ready block, so the loop never gives up early. */
  method PlaceRounds(store: Store, ghost s: Store, all: seq<BlockHash>, score: Scores)
    returns (ordering: seq<BlockHash>)
    requires Layered(s) && Grows(s, store) && Lists(all, s.Keys) && score == ScoreMap(s)
    ensures ordering == GhostOrder(s)
  {
    hide *;
    ordering := [];
    if all == [] {
      NothingToOrder(s, all);
      return;
    }
    ordering := PlaceGenesis(store, s, all);
    ReadyIsStored(s, {});
    var processed := Elements(ordering);
    while |processed| < |all|
      invariant processed <= s.Keys && processed == Elements(ordering)
      invariant ordering + Rounds(s, processed) == GhostOrder(s)
      decreases s.Keys - processed
    {
      SomeUnprocessed(s, all, processed);
      var next := CollectReady(store, s, all, processed);
      var sorted := SortByScore(next, score);
      RoundIsNext(s, processed, sorted);
      ReadyShrinks(s, processed);
      ReadyIsStored(s, processed);
      assert ordering + (sorted + Rounds(s, processed + Ready(s, processed)))
          == (ordering + sorted) + Rounds(s, processed + Ready(s, processed));
      ElementsConcat(ordering, sorted);
      ordering := ordering + sorted;
      processed := Elements(ordering);
    }
    NoneLeft(s, all, processed);
    assert ordering + [] == ordering;
  }

  lemma ElementsConcat(a: seq<BlockHash>, b: seq<BlockHash>)
    ensures Elements(a + b) == Elements(a) + Elements(b)
  {
  }

  class GhostdagEngine {
    const k: nat
    /** The DAG whose store the attached copy shares. */
    var live: BlockDag?
    /** The copy's own index. */
    var index: DagIndex
    var cache: ScoreCache
    /** The DAG as it was when it was attached. */
    ghost var attached: Dag

    /**
      The index is that of the attached DAG, the live store may have grown since, and every cached score
      was right at some moment in between.
     */
    ghost predicate Valid()
      reads this, index, live, if live == null then {} else {live.index}
    {
      if live == null then cache == map[]
      else
        && live.Valid() && index != live.index
        && Dags.Valid(live.rules, attached) && Grows(attached.store, live.store)
        && index.parentToChildren == attached.children && index.tips == attached.tips
        && ScoredBetween(attached.store, live.store, cache)
    }

    constructor (k: nat)
      ensures Valid() && live == null && this.k == k
    {
      this.k := k;
      live := null;
      index := new DagIndex();
      cache := map[];
    }

    method AttachDag(dag: BlockDag)
      requires dag.Valid()
      modifies this
      ensures Valid() && live == dag && cache == map[] && attached == dag.View()
    {
      live := dag;
      index := new DagIndex();
      index.parentToChildren, index.tips := dag.index.parentToChildren, dag.index.tips;
      cache := map[];
      attached := dag.View();
    }

    /**
      None stands for "DAG not attached".  The score is right - the size of the past plus one - unless it was
      cached before the block arrived; `Snapshots.CacheKeptExactly` says when that happens.
     */
    method CalculateBlueScore(hash: BlockHash) returns (r: Option<nat>)
      requires Valid()
      modifies this`cache
      ensures Valid() && (r.None? <==> live == null)
      ensures live != null ==> cache == old(cache)[hash := r.value]
      ensures live != null && hash in old(cache) ==> r == Some(old(cache)[hash])
      ensures live != null && (hash !in old(cache) || hash in attached.store || hash !in live.store) ==>
                r == Some(BlueScore(live.store, hash))
      ensures live != null && CacheHolds(live.store, old(cache)) ==>
                CacheHolds(live.store, cache) && r == Some(BlueScore(live.store, hash))
    {
      hide Dags.Valid, BlueScore, Grows, ScoredAt;
      if live == null {
        return None;
      }
      assert Layered(live.store) by { StoreIsLayered(live.rules, live.View()); }
      if hash in cache {
        OldScore(attached.store, live.store, hash, cache[hash]);
        assert cache == cache[hash := cache[hash]];
        return Some(cache[hash]);
      }
      var count := CountBlue(k, live.store, hash);
      ScoredNow(attached.store, live.store, hash);
      cache := cache[hash := count];
      r := Some(count);
    }

    /** The same value, without touching the cache. */
    method CalculateBlueScoreImmutable(hash: BlockHash) returns (score: nat)
      requires Valid() && live != null
      ensures score == if hash in cache then cache[hash] else BlueScore(live.store, hash)
      ensures hash !in cache || hash in attached.store ==> score == BlueScore(live.store, hash)
      ensures hash !in live.store || live.store[hash].header.parentHashes == [] ==> score == BlueScore(live.store, hash)
    {
      hide Dags.Valid, BlueScore, Grows, ScoredAt;
      assert Layered(live.store) by { StoreIsLayered(live.rules, live.View()); }
      if hash in cache {
        OldScore(attached.store, live.store, hash, cache[hash]);
        return cache[hash];
      }
      score := CountBlue(k, live.store, hash);
    }

    /** The scores of the blocks in the copy's order; these are right whatever was cached. */
    method ScoreAll(all: seq<BlockHash>) returns (score: Scores)
      requires Valid() && live != null && Lists(all, Visible(attached, live.store).Keys)
      ensures score == ScoreMap(Visible(attached, live.store))
    {
      hide Dags.Valid, BlueScore, Grows, ScoredAt, ScoredBetween, Layered;
      ghost var s := Visible(attached, live.store);
      VisibleGrows(live.rules, attached, live.store);
      assert Layered(live.store) by { StoreIsLayered(live.rules, live.View()); }
      score := map[];
      for i := 0 to |all|
        invariant forall h :: h in score <==> h in all[..i]
        invariant forall h :: h in score ==> h in s && score[h] == BlueScore(s, h)
      {
        assert all[..i + 1] == all[..i] + [all[i]];
        assert all[i] in all;
        var count := CalculateBlueScoreImmutable(all[i]);
        PastStable(s, live.store, all[i]);
        score := score[all[i] := count];
      }
      assert all[..|all|] == all;
    }

    /**
      The round loop.  The result is a function of the blocks that the copy's index knows; each round
      finds a ready block, so the loop never gives up early.
     */
    method GenerateOrdering(hashes: seq<BlockHash>) returns (r: Option<seq<BlockHash>>)
      requires Valid() && (live != null ==> Lists(hashes, live.store.Keys))
      ensures r == if live == null then None else Some(GhostOrder(Visible(attached, live.store)))
      ensures live != null && attached.store == live.store ==>
                && r == Some(GhostOrder(live.store))
                && Lists(r.value, live.store.Keys) && Topological(ParentGraph(live.store), r.value)
                && (forall x :: x in r.value ==> x in live.store) && InOrder(live.store, r.value)
    {
      hide Dags.Valid, Topological, ScoreMap, GhostOrder, Lists, Grows, ScoredBetween, Visible, Kahn.Order;
      hide Layered, InOrder;
      if live == null {
        return None;
      }
      ghost var s := Visible(attached, live.store);
      ValidHasValidStore(live.rules, live.View());
      OldIndexOrder(live.rules, attached, live.store, hashes);
      VisibleGrows(live.rules, attached, live.store);
      var all := index.GetTopologicalOrder(live.store, hashes);
      var score := ScoreAll(all);
      var ordering := PlaceRounds(live.store, s, all, score);
      if attached.store == live.store {
        VisibleWhenCurrent(live.rules, attached);
        GhostOrderIsTopological(live.store);
        GhostOrderExactly(live.rules, live.store, ordering);
      }
      r := Some(ordering);
    }

    /** Accepts exactly the complete, repeat-free orders with parents before children. */
    method ValidateOrdering(ordering: seq<BlockHash>) returns (r: Option<bool>)
      requires Valid()
      ensures r.None? <==> live == null
      ensures r.Some? ==>
                (r.value <==> Lists(ordering, live.store.Keys) && Topological(ParentGraph(live.store), ordering))
    {
      if live == null {
        return None;
      }
      var ok := CheckOrdering(live.store, ordering);
      r := Some(ok);
    }
  }

  /** The engine stays valid while blocks are inserted into the DAG it was attached to. */
  twostate lemma EngineSurvivesGrowth(e: GhostdagEngine)
    requires old(e.Valid()) && e.live != null && unchanged(e) && unchanged(e.index)
    requires e.live.Valid() && e.index != e.live.index && Grows(old(e.live.store), e.live.store)
    ensures e.Valid()
  {
    hide Dags.Valid, ScoredAt;
    ScoredBetweenGrows(e.attached.store, old(e.live.store), e.live.store, e.cache);
  }

  lemma VisibleWhenCurrent(rules: Rules, d: Dag)
    requires Dags.Valid(rules, d)
    ensures Visible(d, d.store) == d.store && Layered(d.store)
  {
  }

  /**
    What the engine generates, its own validator accepts exactly when the copy's index still knows every
    stored block: nothing has been inserted since the DAG was attached - or it was attached empty and
    has only genesis now.
   */
  lemma {:induction false} GeneratedIsAcceptedExactly(rules: Rules, d: Dag, s: Store)
    requires Dags.Valid(rules, d) && Dags.ValidStore(rules, s) && Grows(d.store, s)
    ensures var ordering := GhostOrder(Visible(d, s));
            Lists(ordering, s.Keys) && Topological(ParentGraph(s), ordering) <==>
              s == d.store || (d.store == map[] && |s| == 1)
  {
    hide Dags.Valid, Topological, GhostOrder;
    var v := Visible(d, s);
    VisibleGrows(rules, d, s);
    GhostOrderIsTopological(v);
    ListsSame(GhostOrder(v), v.Keys, s.Keys);
    VisibleIsAllExactly(rules, d, s);
  }

  lemma ListsSame(xs: seq<BlockHash>, S: set<BlockHash>, T: set<BlockHash>)
    requires Lists(xs, S)
    ensures Lists(xs, T) <==> S == T
  {
  }

  lemma VisibleIsAllExactly(rules: Rules, d: Dag, s: Store)
    requires Dags.Valid(rules, d) && Dags.ValidStore(rules, s) && Grows(d.store, s)
    ensures Visible(d, s).Keys == s.Keys <==> s == d.store || (d.store == map[] && |s| == 1)
    ensures Visible(d, s).Keys == s.Keys ==> Visible(d, s) == s
  {
    hide Dags.Valid, Dags.ValidStore;
    if d.store != map[] {
      assert d.store.Keys == s.Keys ==> d.store == s;
    } else if s != map[] {
      OneParentlessExactly(rules, s);
    }
  }

  /** Only a DAG of one block has no block with parents. */
  lemma OneParentlessExactly(rules: Rules, s: Store)
    requires Dags.ValidStore(rules, s) && s != map[]
    ensures (forall h :: h in s ==> s[h].header.parentHashes == []) <==> |s| == 1
  {
    var h :| h in s;
    var root := HeightIsWalked(rules, s, h);
    assert s.Keys == {root} + (s.Keys - {root});
    if forall h :: h in s ==> s[h].header.parentHashes == [] {
      forall x | x in s ensures x == root { GenesisIsUnique(rules, s, x, root); }
      assert s.Keys == {root};
    }
    if |s| == 1 {
      assert s.Keys - {root} == {};
    }
  }

  method CheckOrdering(store: Store, ordering: seq<BlockHash>) returns (r: bool)
    ensures r <==> Lists(ordering, store.Keys) && Topological(ParentGraph(store), ordering)
  {
    hide Lists, Topological, ParentsBefore;
    var seen := {};
    for i := 0 to |ordering|
      invariant seen == Elements(ordering[..i]) && seen <= store.Keys && NoRepeats(ordering[..i])
      invariant forall j :: 0 <= j < i ==> ParentsBefore(store, ordering, j)
    {
      assert ordering[..i + 1] == ordering[..i] + [ordering[i]];
      if ordering[i] !in store || ordering[i] in seen {
        RejectElement(store, ordering, i);
        return false;
      }
      NoRepeatsConcat(ordering[..i], [ordering[i]]);
      seen := seen + {ordering[i]};
      var ok := CheckParents(store, ordering, i);
      if !ok {
        RejectParents(store, ordering, i);
        return false;
      }
    }
    assert ordering[..|ordering|] == ordering;
    AcceptanceIsExact(store, ordering);
    r := |seen| == |store|;
  }

  ghost predicate ParentsBefore(s: Store, ordering: seq<BlockHash>, i: nat)
    requires i < |ordering|
  {
    forall p :: p in Adj(ParentGraph(s), ordering[i]) ==> p in ordering[..i]
  }

  /** All parents of the block at place `i` stand before it. */
  method CheckParents(store: Store, ordering: seq<BlockHash>, i: nat) returns (ok: bool)
    requires i < |ordering|
    ensures ok <==> ParentsBefore(store, ordering, i)
  {
    var ps := if ordering[i] in store then store[ordering[i]].header.parentHashes else [];
    assert ps == Adj(ParentGraph(store), ordering[i]);
    for j := 0 to |ps|
      invariant forall p :: p in ps[..j] ==> p in ordering[..i]
    {
      assert ps[..j + 1] == ps[..j] + [ps[j]];
      var pos := Position(ordering, ps[j]);
      if pos.None? {
        assert ps[j] in ps && ps[j] !in ordering[..i];
        return false;
      }
      if pos.value >= i {
        assert ordering[..i] <= ordering[..pos.value];
        assert ps[j] in ps && ps[j] !in ordering[..i];
        return false;
      }
      assert ordering[..i][pos.value] == ps[j];
    }
    assert ps[..|ps|] == ps;
    ok := true;
  }

  lemma RoundIsNext(s: Store, done: set<BlockHash>, sorted: seq<BlockHash>)
    requires Ascending(ScoreMap(s), sorted) && Elements(sorted) == Ready(s, done) && Ready(s, done) != {}
    ensures Rounds(s, done) == sorted + Rounds(s, done + Ready(s, done))
  {
    AscendingIsArranged(ScoreMap(s), sorted);
  }

  lemma ReadyIsStored(s: Store, done: set<BlockHash>)
    ensures Ready(s, done) <= s.Keys
  {
  }

  lemma SomeUnprocessed(s: Store, all: seq<BlockHash>, processed: set<BlockHash>)
    requires Layered(s) && Lists(all, s.Keys) && processed <= s.Keys && |processed| < |all|
    ensures Ready(s, processed) != {}
  {
    ElementsCount(all);
    assert Elements(all) == s.Keys;
    assert processed != s.Keys;
    var h :| h in s && h !in processed;
    SomethingIsReady(s, processed, h);
  }

  lemma NoneLeft(s: Store, all: seq<BlockHash>, processed: set<BlockHash>)
    requires Lists(all, s.Keys) && processed <= s.Keys && |processed| >= |all|
    ensures Rounds(s, processed) == []
  {
    ElementsCount(all);
    assert Elements(all) == s.Keys;
    assert s.Keys == processed + (s.Keys - processed);
    assert processed == s.Keys;
  }

  lemma RejectElement(s: Store, ordering: seq<BlockHash>, i: nat)
    requires i < |ordering| && (ordering[i] !in s || ordering[i] in ordering[..i])
    ensures !Lists(ordering, s.Keys)
  {
    assert ordering[i] in ordering;
  }

  lemma RejectParents(s: Store, ordering: seq<BlockHash>, i: nat)
    requires i < |ordering| && !ParentsBefore(s, ordering, i)
    ensures !Topological(ParentGraph(s), ordering)
  {
  }

  lemma AcceptanceIsExact(s: Store, ordering: seq<BlockHash>)
    requires NoRepeats(ordering) && Elements(ordering) <= s.Keys
    requires forall j :: 0 <= j < |ordering| ==> ParentsBefore(s, ordering, j)
    ensures Topological(ParentGraph(s), ordering)
    ensures |Elements(ordering)| == |s| <==> Lists(ordering, s.Keys)
  {
    forall i, p | 0 <= i < |ordering| && p in Adj(ParentGraph(s), ordering[i])
      ensures p in ordering[..i]
    {
      assert ParentsBefore(s, ordering, i);
    }
    if |Elements(ordering)| == |s| {
      assert s.Keys == Elements(ordering) + (s.Keys - Elements(ordering));
      assert Elements(ordering) == s.Keys;
      assert forall x :: x in ordering <==> x in Elements(ordering);
    }
    if Lists(ordering, s.Keys) {
      assert Elements(ordering) == s.Keys;
    }
  }
}
