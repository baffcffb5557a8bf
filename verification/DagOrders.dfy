/**
  The order of blocks that the DAG exports (Kahn's order over the incremental index),
  and how one insertion changes it.
 */
module DagOrders {
  import opened Collections
  import opened Graphs
  import opened Blocks
  import opened Dags
  import opened Heights
  import opened Pasts
  import opened Kahn
  import opened KahnGrowth

  ghost function Listing(S: set<BlockHash>): (r: seq<BlockHash>)
    ensures Lists(r, S)
  {
    if S == {} then []
    else
      var x :| x in S;
      Listing(S - {x}) + [x]
  }

  lemma ListingLists(S: set<BlockHash>)
    ensures Lists(Listing(S), S)
  {
  }

  /** The exported order; `OrderIgnoresEnumeration` says that the listing does not matter. */
  ghost function DagOrder(d: Dag): seq<BlockHash> {
    Order(ParentGraph(d.store), d.children, Listing(d.store.Keys))
  }

  lemma ValidIsRanked(rules: Rules, d: Dag)
    requires Valid(rules, d)
    ensures Ranked(ParentGraph(d.store), TopoRank(d.store)) && Transposed(ParentGraph(d.store), d.children)
  {
    StoreIsRanked(d.store);
  }

  lemma ValidHasValidStore(rules: Rules, d: Dag)
    requires Valid(rules, d)
    ensures ValidStore(rules, d.store)
  {
  }

  /** The starting queue holds genesis alone. */
  lemma RootsAreGenesis(rules: Rules, s: Store, hashes: seq<BlockHash>)
    requires ValidStore(rules, s) && Lists(hashes, s.Keys)
    ensures s == map[] ==> Roots(ParentGraph(s), hashes) == []
    ensures forall h: BlockHash :: IsGenesis(s, h) ==> Roots(ParentGraph(s), hashes) == [h]
    ensures s != map[] ==> exists h: BlockHash :: IsGenesis(s, h)
  {
    hide ValidStore, Roots;
    var q := Roots(ParentGraph(s), hashes);
    RootsExactly(ParentGraph(s), hashes);
    forall h: BlockHash | IsGenesis(s, h)
      ensures q == [h]
    {
      assert h in q;
      if |q| > 1 {
        assert q[0] in q && q[1] in q;
        GenesisIsUnique(rules, s, q[0], q[1]);
      }
    }
    if q != [] {
      assert q[0] in q;
    }
    if s != map[] {
      var h :| h in s;
      var root := HeightIsWalked(rules, s, h);
    }
  }

  lemma SameRoots(rules: Rules, s: Store, s': Store, hashes: seq<BlockHash>, hashes': seq<BlockHash>)
    requires ValidStore(rules, s) && ValidStore(rules, s') && Lists(hashes, s.Keys) && Lists(hashes', s'.Keys)
    requires s != map[] && Grows(s, s')
    ensures Roots(ParentGraph(s), hashes) == Roots(ParentGraph(s'), hashes')
  {
    hide ValidStore, Roots;
    RootsAreGenesis(rules, s, hashes);
    RootsAreGenesis(rules, s', hashes');
    var h :| IsGenesis(s, h);
    assert IsGenesis(s', h);
  }

  /** The order does not depend on how the store enumerates its keys. */
  lemma OrderIgnoresEnumeration(rules: Rules, d: Dag, hashes: seq<BlockHash>)
    requires Valid(rules, d) && Lists(hashes, d.store.Keys)
    ensures Order(ParentGraph(d.store), d.children, hashes) == DagOrder(d)
  {
    hide ValidStore, Roots, Drain;
    if d.store == map[] {
      RootsAreGenesis(rules, d.store, hashes);
      RootsAreGenesis(rules, d.store, Listing(d.store.Keys));
    } else {
      SameRoots(rules, d.store, d.store, hashes, Listing(d.store.Keys));
    }
  }

  /** In every valid DAG the order lists each stored block once, parents before children. */
  lemma DagOrderIsTopological(rules: Rules, d: Dag)
    requires Valid(rules, d)
    ensures Lists(DagOrder(d), d.store.Keys)
    ensures Topological(ParentGraph(d.store), DagOrder(d))
    ensures |DagOrder(d)| == |d.store|
  {
    hide Order, Topological, Listing, Valid, Transposed, Ranked;
    ValidIsRanked(rules, d);
    OrderIsTopological(ParentGraph(d.store), d.children, Listing(d.store.Keys), TopoRank(d.store));
    ElementsCount(DagOrder(d));
    assert Elements(DagOrder(d)) == d.store.Keys;
  }

  lemma {:induction false} AddChildAppends(c: Graph, ps: seq<BlockHash>, x: BlockHash, p: BlockHash)
    ensures Adj(AddChild(c, ps, x), p) == Adj(c, p) + Repeat(x, multiset(ps)[p])
  {
    if ps == [] {
      assert Repeat(x, 0) == [];
    } else {
      var init, last := ps[..|ps| - 1], ps[|ps| - 1];
      AddChildAppends(c, init, x, p);
      CountSplit(ps, p);
      if p == last {
        var k: nat := multiset(ps[..|ps| - 1])[p];
        assert Repeat(x, k) + [x] == Repeat(x, k + 1);
      }
    }
  }

  lemma RepeatNone(x: BlockHash)
    ensures Repeat(x, 0) == []
  {
  }

  lemma EdgeStaysInside(g: Graph, rank: map<BlockHash, nat>, h: BlockHash, x: BlockHash)
    requires Ranked(g, rank) && x in Adj(g, h)
    ensures x in g
  {
  }

  lemma FreshHasNoChildren(rules: Rules, d: Dag, x: BlockHash)
    requires Valid(rules, d) && x !in d.store
    ensures Adj(d.children, x) == []
  {
    hide Valid, Transposed, Ranked, Adj;
    var g, c := ParentGraph(d.store), d.children;
    ValidIsRanked(rules, d);
    if Adj(c, x) != [] {
      var h := Adj(c, x)[0];
      TransposedEdge(g, c, x, h);
      EdgeStaysInside(g, TopoRank(d.store), h, x);
    }
  }

  lemma InsertExtends(rules: Rules, d: Dag, b: Block)
    requires Valid(rules, d) && b.hash !in d.store && forall p :: p in b.header.parentHashes ==> p in d.store
    ensures var d' := IndexInsert(d, b);
            Extends(ParentGraph(d.store), d.children, ParentGraph(d'.store), d'.children, b.hash, b.header.parentHashes)
  {
    hide AddChild, ValidStore, Indexed, Adj, Repeat;
    var c, x, ps := d.children, b.hash, b.header.parentHashes;
    var c' := AddChild(c, ps, x);
    forall p ensures Adj(c', p) == Adj(c, p) + Repeat(x, multiset(ps)[p]) { AddChildAppends(c, ps, x, p); }
    FreshHasNoChildren(rules, d, x);
    assert Adj(c', x) == [] by {
      assert multiset(ps)[x] == 0;
      RepeatNone(x);
    }
    assert ParentGraph(IndexInsert(d, b).store) == ParentGraph(d.store)[x := ps];
  }

  /** The place that an accepted block will take in the order. */
  ghost function Place(d: Dag, b: Block): nat {
    Landing(ParentGraph(d.store), DagOrder(d), b.header.parentHashes)
  }

  /**
    Inserting into a non-empty DAG leaves the relative order of the old blocks as it was;
    the new block goes to `Place`, which the old DAG and the parent list determine.
   */
  lemma {:induction false} InsertGrowsOrder(rules: Rules, now: nat, d: Dag, b: Block)
    requires CollisionFree(rules) && Valid(rules, d) && d.store != map[] && Insert(rules, now, d, b).Ok?
    ensures Place(d, b) <= |DagOrder(d)|
    ensures DagOrder(Insert(rules, now, d, b).dag)
         == InsertAt(DagOrder(d), Place(d, b), Annotate(rules, d.store, b).hash)
  {
    hide *;
    var d', b' := Insert(rules, now, d, b).dag, Annotate(rules, d.store, b);
    var g, g' := ParentGraph(d.store), ParentGraph(d'.store);
    InsertStores(rules, now, d, b);
    InsertKeepsValid(rules, now, d, b);
    InsertExtends(rules, d, b');
    ValidHasValidStore(rules, d);
    ValidHasValidStore(rules, d');
    SameRoots(rules, d.store, d'.store, Listing(d.store.Keys), Listing(d'.store.Keys));
    ParentGraphKeys(d.store);
    ValidIsRanked(rules, d);
    OrderGrowsByOne(g, d.children, g', d'.children, TopoRank(d.store), b'.hash, b'.header.parentHashes,
                    Listing(d.store.Keys), Listing(d'.store.Keys));
    OrderUnfolds(d);
    OrderUnfolds(d');
    PlaceUnfolds(d, b);
  }

  lemma OrderUnfolds(d: Dag)
    ensures DagOrder(d) == Order(ParentGraph(d.store), d.children, Listing(d.store.Keys))
  {
  }

  lemma PlaceUnfolds(d: Dag, b: Block)
    ensures Place(d, b) == Landing(ParentGraph(d.store), DagOrder(d), b.header.parentHashes)
  {
  }

  /** An accepted block is annotated, stored and indexed on stored parents; nothing else changes. */
  lemma InsertStores(rules: Rules, now: nat, d: Dag, b: Block)
    requires CollisionFree(rules) && Valid(rules, d) && d.store != map[] && Insert(rules, now, d, b).Ok?
    ensures var d', b' := Insert(rules, now, d, b).dag, Annotate(rules, d.store, b);
            && d' == IndexInsert(d, b') && Grows(d.store, d'.store)
            && b'.hash !in d.store && b'.header.parentHashes == b.header.parentHashes
    ensures b.header.parentHashes != [] && forall p :: p in b.header.parentHashes ==> p in d.store
  {
    hide Valid, Annotate, ValidateBasic, AddChild;
    AdmittedParents(rules, now, d.store, b);
    AnnotateKeepsParents(rules, d.store, b);
    InsertKeepsValid(rules, now, d, b);
  }

  lemma ParentGraphKeys(s: Store)
    ensures ParentGraph(s).Keys == s.Keys
  {
  }

  lemma ChildlessIsTip(rules: Rules, d: Dag, t: BlockHash)
    requires Valid(rules, d) && t in d.store
    requires forall h :: h in d.store ==> t !in ParentGraph(d.store)[h]
    ensures t in d.tips
  {
    hide ValidStore, Transposed;
    assert Childless(d.store, t) by {
      assert forall h :: h in d.store ==> ParentGraph(d.store)[h] == d.store[h].header.parentHashes;
    }
  }

  /** A block built on all current tips is appended at the end. */
  lemma {:induction false} InsertOnAllTipsAppends(rules: Rules, now: nat, d: Dag, b: Block)
    requires CollisionFree(rules) && Valid(rules, d) && d.store != map[] && Insert(rules, now, d, b).Ok?
    requires forall t :: t in d.tips ==> t in b.header.parentHashes
    ensures Place(d, b) == |DagOrder(d)|
    ensures DagOrder(Insert(rules, now, d, b).dag) == DagOrder(d) + [Annotate(rules, d.store, b).hash]
  {
    hide Valid, Annotate, Admit, DagOrder, Landing, AddChild, Topological;
    var g := ParentGraph(d.store);
    AdmittedParents(rules, now, d.store, b);
    DagOrderIsTopological(rules, d);
    forall t | t in g && (forall h :: h in g ==> t !in g[h])
      ensures t in b.header.parentHashes
    {
      ChildlessIsTip(rules, d, t);
    }
    LandingOnAllTips(g, DagOrder(d), b.header.parentHashes);
    InsertGrowsOrder(rules, now, d, b);
  }
}
