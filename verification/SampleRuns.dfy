/**
  Runs that exist whatever the hash function and the reward schedule: plain blocks without
  transactions or proof of work, each on all tips of its moment.
 */
module SampleRuns {
  import opened Collections
  import opened Graphs
  import opened Blocks
  import opened Dags
  import opened DagOrders

  /** An empty block over `ps` without proof of work, dated 0. */
  function PlainBlock(rules: Rules, d: Dag, ps: seq<BlockHash>, nonce: nat): Block {
    var header := Header(ps, 0, nonce, 0, 0, 0, 1, 0, None, 0, |d.store|);
    var b := Block(0, header, [], 0, rules.reward(0), 0);
    b.(hash := CalculateHash(rules, b))
  }

  lemma PlainBlockPasses(rules: Rules, d: Dag, ps: seq<BlockHash>, nonce: nat)
    ensures ValidateBasic(rules, 0, PlainBlock(rules, d, ps, nonce)).Pass?
  {
  }

  lemma PlainBlockIsNew(rules: Rules, d: Dag, ps: seq<BlockHash>, nonce: nat)
    requires CollisionFree(rules) && Valid(rules, d)
    ensures PlainBlock(rules, d, ps, nonce).hash !in d.store
  {
    var b := PlainBlock(rules, d, ps, nonce);
    if b.hash in d.store {
      TopoIndexSeparates(rules, b, d.store[b.hash]);
    }
  }

  /** Such a block is accepted on stored parents, or as the first block. */
  lemma PlainBlockIsAccepted(rules: Rules, d: Dag, ps: seq<BlockHash>, nonce: nat)
    requires CollisionFree(rules) && Valid(rules, d) && forall p :: p in ps ==> p in d.store
    requires ps == [] ==> d.store == map[]
    ensures Insert(rules, 0, d, PlainBlock(rules, d, ps, nonce)).Ok?
  {
    hide Valid, ValidateBasic;
    PlainBlockPasses(rules, d, ps, nonce);
    PlainBlockIsNew(rules, d, ps, nonce);
  }

  /** A log of `n` plain blocks, each on all tips of its moment. */
  ghost function TipsLog(rules: Rules, n: nat): seq<Submission> {
    if n == 0 then []
    else
      var log := TipsLog(rules, n - 1);
      var d := Run(rules, log);
      log + [Submission(PlainBlock(rules, d, Listing(d.tips), 0), 0)]
  }

  ghost function TipsDag(rules: Rules, n: nat): Dag {
    Run(rules, TipsLog(rules, n))
  }

  lemma TipsDagStep(rules: Rules, n: nat)
    requires n > 0
    ensures var d := TipsDag(rules, n - 1);
            TipsDag(rules, n) == Submit(rules, d, Submission(PlainBlock(rules, d, Listing(d.tips), 0), 0))
  {
    hide Submit, PlainBlock, Listing;
    var log := TipsLog(rules, n - 1);
    assert TipsLog(rules, n)[..|log|] == log;
  }

  /** A DAG of `n` blocks with one tip, and above the tip, unless it is genesis, another block. */
  ghost predicate SingleTip(d: Dag, n: nat, tip: BlockHash) {
    && |d.store| == n && d.tips == {tip} && tip in d.store
    && (n > 1 ==> d.store[tip].header.parentHashes != [])
  }

  /** `d'` is `d` with one more block `x`, on the parents `ps`. */
  ghost predicate OneMore(d: Dag, d': Dag, x: BlockHash, ps: seq<BlockHash>) {
    && |d'.store| == |d.store| + 1 && x !in d.store && d'.store.Keys == d.store.Keys + {x}
    && (forall h :: h in d.store ==> d'.store[h] == d.store[h])
    && d'.store[x].header.parentHashes == ps
    && d'.tips == d.tips + {x} - (set p | p in ps)
  }

  /** A plain block on stored parents is accepted and becomes the one new block. */
  lemma PlainStep(rules: Rules, d: Dag, ps: seq<BlockHash>, nonce: nat) returns (x: BlockHash)
    requires CollisionFree(rules) && Valid(rules, d) && forall p :: p in ps ==> p in d.store
    requires ps == [] ==> d.store == map[]
    ensures var d' := Submit(rules, d, Submission(PlainBlock(rules, d, ps, nonce), 0));
            Valid(rules, d') && OneMore(d, d', x, ps)
    ensures x == Annotate(rules, d.store, PlainBlock(rules, d, ps, nonce)).hash
    ensures Submit(rules, d, Submission(PlainBlock(rules, d, ps, nonce), 0)).store[x].header.topoIndex == |d.store|
  {
    hide Valid, ValidateBasic, Admit, Annotate, AddChild, PlainBlock;
    var b := PlainBlock(rules, d, ps, nonce);
    PlainBlockIsAccepted(rules, d, ps, nonce);
    PlainParents(rules, d, ps, nonce);
    InsertKeepsValid(rules, 0, d, b);
    AnnotateKeepsParents(rules, d.store, b);
    x := Annotate(rules, d.store, b).hash;
  }

  lemma OnlyTip(tips: set<BlockHash>, ps: seq<BlockHash>, x: BlockHash)
    requires Lists(ps, tips) && x !in ps
    ensures tips + {x} - (set p | p in ps) == {x}
  {
  }

  lemma TipsAreStored(rules: Rules, d: Dag)
    requires Valid(rules, d)
    ensures forall t :: t in d.tips ==> t in d.store
  {
  }

  /** One step of the run: a new block `x` on `ps`, the list of all tips. */
  lemma TipsDagGrows(rules: Rules, n: nat) returns (x: BlockHash, ps: seq<BlockHash>, tip: BlockHash)
    requires CollisionFree(rules) && n > 0
    ensures var d, d' := TipsDag(rules, n - 1), TipsDag(rules, n);
            && Valid(rules, d') && SingleTip(d', n, x) && OneMore(d, d', x, ps)
            && (n == 1 ==> ps == [])
            && (n > 1 ==> ps != [] && SingleTip(d, n - 1, tip) && forall p :: p in ps <==> p == tip)
    decreases n, 0
  {
    hide Valid, Submit, PlainBlock, Listing, TipsDag;
    var d := TipsDag(rules, n - 1);
    if n > 1 {
      tip := TipsDagHasSingleTip(rules, n - 1);
    } else {
      tip := 0;
      NoBlocksYet(rules);
    }
    TipsAreStored(rules, d);
    ps := Listing(d.tips);
    assert Lists(ps, d.tips) by { ListingLists(d.tips); }
    SomeMember(ps);
    x := PlainStep(rules, d, ps, 0);
    OnlyTip(d.tips, ps, x);
    TipsDagStep(rules, n);
  }

  lemma {:induction false} TipsDagHasSingleTip(rules: Rules, n: nat) returns (tip: BlockHash)
    requires CollisionFree(rules) && n > 0
    ensures Valid(rules, TipsDag(rules, n)) && SingleTip(TipsDag(rules, n), n, tip)
    decreases n, 1
  {
    hide Valid, TipsDag;
    var ps, previous;
    tip, ps, previous := TipsDagGrows(rules, n);
  }

  lemma NoBlocksYet(rules: Rules)
    ensures TipsDag(rules, 0) == EMPTY_DAG && Valid(rules, EMPTY_DAG)
  {
    EmptyIsValid(rules);
  }

  // ---- many blocks on genesis ---------------------------------------------------------------------

  /** Genesis, and `n` plain blocks on it, the first of them with a nonce of choice. */
  ghost function StarLog(rules: Rules, nonce: nat, n: nat): seq<Submission> {
    if n == 0 then TipsLog(rules, 1)
    else
      var log := StarLog(rules, nonce, n - 1);
      log + [Submission(Leaf(rules, Run(rules, log), nonce, n), 0)]
  }

  /** The `n`-th block on genesis. */
  ghost function Leaf(rules: Rules, d: Dag, nonce: nat, n: nat): Block {
    PlainBlock(rules, d, Listing(TipsDag(rules, 1).tips), if n == 1 then nonce else 0)
  }

  /** The hash under which a plain block on genesis `g` is stored; it depends on nothing else. */
  ghost function LeafHash(rules: Rules, g: BlockHash, nonce: nat, topoIndex: nat): BlockHash {
    rules.sha(Preimage([g], 0, nonce, 0, 0, 0, 1, 2, 1, topoIndex, g, 0))
  }

  /** Every block but `g` has genesis `g` as its only parent. */
  ghost predicate Star(s: Store, g: BlockHash) {
    && g in s && s[g].header.parentHashes == []
    && forall h :: h in s && h != g ==> s[h].header.parentHashes == [g]
  }

  /** The blocks of a star are the leaves of the run with this nonce. */
  ghost predicate Leaves(rules: Rules, s: Store, g: BlockHash, nonce: nat) {
    forall h :: h in s && h != g ==> IsLeaf(rules, g, nonce, h, s[h].header.topoIndex)
  }

  ghost predicate IsLeaf(rules: Rules, g: BlockHash, nonce: nat, h: BlockHash, i: nat) {
    h == LeafHash(rules, g, if i == 1 then nonce else 0, i)
  }

  lemma StarStep(rules: Rules, nonce: nat, n: nat)
    requires n > 0
    ensures var d := Run(rules, StarLog(rules, nonce, n - 1));
            Run(rules, StarLog(rules, nonce, n)) == Submit(rules, d, Submission(Leaf(rules, d, nonce, n), 0))
  {
    hide Submit, Leaf, TipsDag;
    var log := StarLog(rules, nonce, n - 1);
    assert StarLog(rules, nonce, n)[..|log|] == log;
  }

  lemma ListingOfOne(g: BlockHash)
    ensures Listing({g}) == [g]
  {
    hide Listing;
    ListingLists({g});
    var r := Listing({g});
    assert Elements(r) == {g};
    ElementsCount(r);
    assert r[0] in r;
  }

  /** What `insert_block` writes into a plain block on genesis. */
  lemma LeafIsStoredUnder(rules: Rules, d: Dag, g: BlockHash, nonce: nat)
    requires Valid(rules, d) && Star(d.store, g)
    ensures Annotate(rules, d.store, PlainBlock(rules, d, [g], nonce)).hash == LeafHash(rules, g, nonce, |d.store|)
  {
    hide Valid, BestParent, MaxBlueScore, Star;
    GenesisMeasures(rules, d, g);
    BestOfOne(d.store, g);
    assert [g] + [] == [g];
  }

  lemma GenesisMeasures(rules: Rules, d: Dag, g: BlockHash)
    requires Valid(rules, d) && Star(d.store, g)
    ensures g in d.store && d.store[g].height == 0 && d.store[g].header.blueScore == 1
  {
    hide Indexed, Keyed, Layered, Numbered, Rooted, BestParent;
    assert AnnotatedBlock(d.store, d.store[g]);
  }

  lemma BestOfOne(s: Store, g: BlockHash)
    requires g in s
    ensures BestParent(s, [g]) == (Some(g), s[g].height) && MaxBlueScore(s, [g]) == s[g].header.blueScore
  {
    assert [g][..0] == [];
    assert BestParent(s, []) == (None, 0) && MaxBlueScore(s, []) == 0;
  }

  lemma {:induction false} StarIsStar(rules: Rules, nonce: nat, n: nat) returns (g: BlockHash)
    requires CollisionFree(rules)
    ensures var d := Run(rules, StarLog(rules, nonce, n));
            && Valid(rules, d) && |d.store| == n + 1 && TipsDag(rules, 1).tips == {g}
            && Star(d.store, g) && Leaves(rules, d.store, g, nonce)
  {
    hide *;
    if n == 0 {
      g := StarStarts(rules, nonce);
    } else {
      g := StarIsStar(rules, nonce, n - 1);
      var d := Run(rules, StarLog(rules, nonce, n - 1));
      StarHasCentre(d.store, g);
      LeafIsPlain(rules, d, nonce, n, g);
      var v := if n == 1 then nonce else 0;
      var x := PlainStep(rules, d, [g], v);
      LeafIsStoredUnder(rules, d, g, v);
      StarStep(rules, nonce, n);
      StarGrows(rules, d, Run(rules, StarLog(rules, nonce, n)), g, nonce, x);
    }
  }

  lemma LeafIsPlain(rules: Rules, d: Dag, nonce: nat, n: nat, g: BlockHash)
    requires TipsDag(rules, 1).tips == {g}
    ensures Leaf(rules, d, nonce, n) == PlainBlock(rules, d, [g], if n == 1 then nonce else 0)
  {
    hide TipsDag, PlainBlock, Listing;
    ListingOfOne(g);
  }

  lemma StarStarts(rules: Rules, nonce: nat) returns (g: BlockHash)
    requires CollisionFree(rules)
    ensures var d := Run(rules, StarLog(rules, nonce, 0));
            && Valid(rules, d) && |d.store| == 1 && TipsDag(rules, 1).tips == {g}
            && Star(d.store, g) && Leaves(rules, d.store, g, nonce)
  {
    hide Valid, Submit, PlainBlock, Listing, Run, IsLeaf;
    var ps, tip;
    g, ps, tip := TipsDagGrows(rules, 1);
    NoBlocksYet(rules);
  }

  lemma StarHasCentre(s: Store, g: BlockHash)
    requires Star(s, g)
    ensures g in s
  {
  }

  lemma StarGrows(rules: Rules, d: Dag, d': Dag, g: BlockHash, nonce: nat, x: BlockHash)
    requires Star(d.store, g) && Leaves(rules, d.store, g, nonce) && OneMore(d, d', x, [g])
    requires x == LeafHash(rules, g, if |d.store| == 1 then nonce else 0, |d.store|)
    requires d'.store[x].header.topoIndex == |d.store|
    ensures Star(d'.store, g) && Leaves(rules, d'.store, g, nonce) && |d'.store| == |d.store| + 1
  {
    hide LeafHash;
  }

  // ---- a leaf with a large hash ---------------------------------------------------------------------

  /** A bound on the hashes of the leaves 2, ..., n. */
  lemma {:induction false} LeavesAreBounded(rules: Rules, g: BlockHash, n: nat) returns (most: nat)
    ensures forall i: nat :: 1 < i <= n ==> LeafHash(rules, g, 0, i) <= most
  {
    most := 0;
    if n > 0 {
      most := LeavesAreBounded(rules, g, n - 1);
      if LeafHash(rules, g, 0, n) > most {
        most := LeafHash(rules, g, 0, n);
      }
    }
  }

  /** The hashes of the first leaf under the nonces below `m`. */
  lemma {:induction false} FirstLeafHashes(rules: Rules, g: BlockHash, m: nat) returns (S: set<nat>)
    requires CollisionFree(rules)
    ensures |S| == m && forall x :: x in S ==> exists v: nat :: v < m && x == LeafHash(rules, g, v, 1)
  {
    S := {};
    if m > 0 {
      var T := FirstLeafHashes(rules, g, m - 1);
      var x := LeafHash(rules, g, m - 1, 1);
      assert x !in T;
      S := T + {x};
    }
  }

  /** No two nonces collide, so some nonce gives the first leaf a hash beyond any bound. */
  lemma LargeNonce(rules: Rules, g: BlockHash, most: nat) returns (nonce: nat)
    requires CollisionFree(rules)
    ensures LeafHash(rules, g, nonce, 1) > most
  {
    hide CollisionFree, LeafHash;
    if v: nat :| LeafHash(rules, g, v, 1) > most {
      nonce := v;
    } else {
      nonce := 0;
      var S := FirstLeafHashes(rules, g, most + 2);
      SetBelow(S, most + 1);
      assert false;
    }
  }

  lemma PlainParents(rules: Rules, d: Dag, ps: seq<BlockHash>, nonce: nat)
    ensures PlainBlock(rules, d, ps, nonce).header.parentHashes == ps
  {
  }
}
