/**
  The block DAG as a state machine (src/dag/blockdag.rs): the store, the tip set and
  the child lists, and what inserting a block does to them.
 */
module Dags {
  import opened Collections
  import opened Graphs
  import opened Blocks

  type Store = map<BlockHash, Block>

  datatype Dag = Dag(store: Store, tips: set<BlockHash>, children: Graph)

  const EMPTY_DAG := Dag(map[], {}, map[])

  datatype Inserted = Ok(dag: Dag) | Err(error: InsertError)

  function ParentGraph(s: Store): Graph {
    map h | h in s :: s[h].header.parentHashes
  }

  function TopoRank(s: Store): map<BlockHash, nat> {
    map h | h in s :: s[h].header.topoIndex
  }

  function FirstMissing(s: Store, ps: seq<BlockHash>): (r: Option<BlockHash>)
    ensures r.None? <==> forall p :: p in ps ==> p in s
  {
    if ps == [] then None
    else if ps[0] !in s then Some(ps[0])
    else
      assert ps == [ps[0]] + ps[1..];
      FirstMissing(s, ps[1..])
  }

  /** The last parent of greatest height, and that height. */
  function BestParent(s: Store, ps: seq<BlockHash>): (Option<BlockHash>, nat) {
    if ps == [] then (None, 0)
    else
      var (best, height) := BestParent(s, ps[..|ps| - 1]);
      var p := ps[|ps| - 1];
      if p in s && s[p].height >= height then (Some(p), s[p].height) else (best, height)
  }

  function MaxBlueScore(s: Store, ps: seq<BlockHash>): nat {
    if ps == [] then 0
    else
      var rest := MaxBlueScore(s, ps[..|ps| - 1]);
      var p := ps[|ps| - 1];
      if p in s && s[p].header.blueScore > rest then s[p].header.blueScore else rest
  }

  function SelectedParent(s: Store, ps: seq<BlockHash>): Option<BlockHash> {
    BestParent(s, ps).0
  }

  function ChainHeight(s: Store, ps: seq<BlockHash>): nat {
    if ps == [] then 0 else BestParent(s, ps).1 + 1
  }

  function Annotate(rules: Rules, s: Store, b: Block): Block {
    var ps := b.header.parentHashes;
    SetConsensusMetadata(rules, b, SelectedParent(s, ps), MaxBlueScore(s, ps) + 1, ChainHeight(s, ps), |s|)
  }

  /** Appends `h` to the child list of each entry of `ps` in turn. */
  function AddChild(c: Graph, ps: seq<BlockHash>, h: BlockHash): Graph {
    if ps == [] then c
    else
      var c' := AddChild(c, ps[..|ps| - 1], h);
      c'[ps[|ps| - 1] := Adj(c', ps[|ps| - 1]) + [h]]
  }

  function IndexInsert(d: Dag, b: Block): Dag {
    var ps := b.header.parentHashes;
    Dag(d.store[b.hash := b],
        d.tips + {b.hash} - (set p | p in ps),
        AddChild(d.children, ps, b.hash))
  }

  /** All checks of an insertion, in the order in which they are made. */
  function Admit(rules: Rules, now: nat, s: Store, b: Block): Checked {
    var basic := ValidateBasic(rules, now, b);
    var ps := b.header.parentHashes;
    if basic.Fail? then basic
    else if b.hash in s then Fail(AlreadyExists)
    else if ps == [] then
      (if |s| > 0 then Fail(SecondGenesis) else Pass)
    else
      var missing := FirstMissing(s, ps);
      if missing.Some? then Fail(MissingParent(missing.value)) else Pass
  }

  function Insert(rules: Rules, now: nat, d: Dag, b: Block): Inserted {
    match Admit(rules, now, d.store, b)
    case Fail(e) => Err(e)
    case Pass => Ok(IndexInsert(d, Annotate(rules, d.store, b)))
  }

  // ---- the invariant ----------------------------------------------------------

  /** Every block is stored under its own, recomputed hash. */
  ghost predicate Keyed(rules: Rules, s: Store) {
    forall h :: h in s ==> s[h].hash == h && CalculateHash(rules, s[h]) == h
  }

  /** Parents are stored and have a strictly smaller `topoIndex`. */
  ghost predicate Layered(s: Store) {
    forall h, p :: h in s && p in s[h].header.parentHashes ==>
      p in s && s[p].header.topoIndex < s[h].header.topoIndex
  }

  /** `topoIndex` numbers the blocks without gaps or repeats. */
  ghost predicate Numbered(s: Store) {
    && (forall h :: h in s ==> s[h].header.topoIndex < |s|)
    && (forall h, k :: h in s && k in s && s[h].header.topoIndex == s[k].header.topoIndex ==> h == k)
  }

  /** The first block, and no other, is without parents. */
  ghost predicate Rooted(s: Store) {
    forall h :: h in s ==> (s[h].header.parentHashes == [] <==> s[h].header.topoIndex == 0)
  }

  ghost predicate AnnotatedBlock(s: Store, b: Block) {
    var ps := b.header.parentHashes;
    && b.header.selectedParent == SelectedParent(s, ps)
    && b.header.chainHeight == ChainHeight(s, ps)
    && b.height == b.header.chainHeight
    && b.header.blueScore == b.header.chainHeight + 1
  }

  /** The stored metadata are those the parents determine. */
  ghost predicate Annotated(s: Store) {
    forall h :: h in s ==> AnnotatedBlock(s, s[h])
  }

  ghost predicate ValidStore(rules: Rules, s: Store) {
    && Keyed(rules, s)
    && Layered(s)
    && Numbered(s)
    && Rooted(s)
    && Annotated(s)
  }

  /** No stored block names `t` as a parent. */
  ghost predicate Childless(s: Store, t: BlockHash) {
    forall h :: h in s ==> t !in s[h].header.parentHashes
  }

  /** Tips are exactly the childless blocks and the child lists are the parent lists turned round. */
  ghost predicate Indexed(s: Store, tips: set<BlockHash>, c: Graph) {
    && (forall t :: t in tips <==> t in s && Childless(s, t))
    && Transposed(ParentGraph(s), c)
  }

  ghost predicate Valid(rules: Rules, d: Dag) {
    && ValidStore(rules, d.store)
    && Indexed(d.store, d.tips, d.children)
  }

  lemma StoreIsRanked(s: Store)
    requires Layered(s)
    ensures Ranked(ParentGraph(s), TopoRank(s))
  {
  }

  // ---- annotation depends on the parents only --------------------------------------

  lemma BestParentOfNone(s: Store)
    ensures BestParent(s, []) == (None, 0)
  {
  }

  lemma {:induction false} BestParentStable(s: Store, s': Store, ps: seq<BlockHash>)
    requires forall p :: p in ps ==> p in s && p in s' && s'[p] == s[p]
    ensures BestParent(s', ps) == BestParent(s, ps)
    ensures MaxBlueScore(s', ps) == MaxBlueScore(s, ps)
  {
    if ps != [] {
      BestParentStable(s, s', ps[..|ps| - 1]);
    }
  }

  /** The selected parent stands at place `i`: no parent is higher, and no later one is as high. */
  lemma {:induction false} BestParentIsHighest(s: Store, ps: seq<BlockHash>) returns (i: nat)
    requires ps != [] && forall p :: p in ps ==> p in s
    ensures i < |ps| && BestParent(s, ps) == (Some(ps[i]), s[ps[i]].height)
    ensures forall j :: 0 <= j < i ==> s[ps[j]].height <= s[ps[i]].height
    ensures forall j :: i < j < |ps| ==> s[ps[j]].height < s[ps[i]].height
  {
    var n := |ps| - 1;
    i := n;
    if n > 0 {
      var k := BestParentIsHighest(s, ps[..n]);
      if s[ps[n]].height < s[ps[k]].height {
        i := k;
      }
    }
  }

  lemma {:induction false} MaxBlueScoreIsHeight(s: Store, ps: seq<BlockHash>)
    requires Annotated(s) && ps != [] && forall p :: p in ps ==> p in s
    ensures MaxBlueScore(s, ps) == BestParent(s, ps).1 + 1
  {
    var init, p := ps[..|ps| - 1], ps[|ps| - 1];
    assert ps == init + [p];
    assert AnnotatedBlock(s, s[p]);
    if init != [] {
      MaxBlueScoreIsHeight(s, init);
    }
  }

  // ---- the child lists ----------------------------------------------------------------

  lemma AddChildLast(c: Graph, ps: seq<BlockHash>, h: BlockHash, p: BlockHash)
    requires ps != []
    ensures Adj(AddChild(c, ps, h), p) ==
              Adj(AddChild(c, ps[..|ps| - 1], h), p) + (if p == ps[|ps| - 1] then [h] else [])
  {
  }

  lemma {:induction false} AddChildCounts(c: Graph, ps: seq<BlockHash>, h: BlockHash, p: BlockHash, x: BlockHash)
    ensures multiset(Adj(AddChild(c, ps, h), p))[x]
         == multiset(Adj(c, p))[x] + (if x == h then multiset(ps)[p] else 0)
  {
    if ps != [] {
      hide AddChild, Adj;
      var init, last := ps[..|ps| - 1], ps[|ps| - 1];
      AddChildCounts(c, init, h, p, x);
      AddChildLast(c, ps, h, p);
      assert ps == init + [last];
    }
  }

  lemma AddChildTransposes(s: Store, c: Graph, b: Block)
    requires Transposed(ParentGraph(s), c) && b.hash !in s
    ensures Transposed(ParentGraph(s[b.hash := b]), AddChild(c, b.header.parentHashes, b.hash))
  {
    var g, g' := ParentGraph(s), ParentGraph(s[b.hash := b]);
    var ps, c' := b.header.parentHashes, AddChild(c, b.header.parentHashes, b.hash);
    forall p, x
      ensures multiset(Adj(c', p))[x] == multiset(Adj(g', x))[p]
    {
      AddChildCounts(c, ps, b.hash, p, x);
      assert multiset(Adj(c, p))[x] == multiset(Adj(g, x))[p];
    }
  }

  /** The child lists that pushing the blocks of `hashes`, in that order, builds up. */
  ghost function Rebuilt(g: Graph, hashes: seq<BlockHash>): Graph {
    if hashes == [] then map[]
    else
      var x := hashes[|hashes| - 1];
      AddChild(Rebuilt(g, hashes[..|hashes| - 1]), Adj(g, x), x)
  }

  lemma RebuiltLast(g: Graph, hashes: seq<BlockHash>, x: BlockHash)
    ensures Rebuilt(g, hashes + [x]) == AddChild(Rebuilt(g, hashes), Adj(g, x), x)
  {
    hide AddChild;
    assert (hashes + [x])[..|hashes|] == hashes;
  }

  lemma {:induction false} RebuiltCounts(g: Graph, hashes: seq<BlockHash>, p: BlockHash, x: BlockHash)
    requires NoRepeats(hashes)
    ensures multiset(Adj(Rebuilt(g, hashes), p))[x] == if x in hashes then multiset(Adj(g, x))[p] else 0
  {
    if hashes != [] {
      hide Rebuilt, AddChild, Adj;
      var init, last := hashes[..|hashes| - 1], hashes[|hashes| - 1];
      assert hashes == init + [last] && last !in init;
      RebuiltCounts(g, init, p, x);
      RebuiltLast(g, init, last);
      AddChildCounts(Rebuilt(g, init), Adj(g, last), last, p, x);
    }
  }

  /** Whatever the order of the listing, the rebuilt lists are the parent lists turned round. */
  lemma RebuiltTransposes(g: Graph, hashes: seq<BlockHash>)
    requires Lists(hashes, g.Keys)
    ensures Transposed(g, Rebuilt(g, hashes))
  {
    hide Rebuilt;
    forall p, x ensures multiset(Adj(Rebuilt(g, hashes), p))[x] == multiset(Adj(g, x))[p] {
      RebuiltCounts(g, hashes, p, x);
    }
  }

  // ---- every insertion keeps the invariant --------------------------------------------

  lemma AnnotatedIsFresh(rules: Rules, s: Store, b: Block)
    requires CollisionFree(rules) && ValidStore(rules, s)
    ensures Annotate(rules, s, b).hash !in s
  {
    var b' := Annotate(rules, s, b);
    if b'.hash in s {
      TopoIndexSeparates(rules, b', s[b'.hash]);
    }
  }

  lemma AnnotateFits(rules: Rules, s: Store, b: Block)
    requires Annotated(s) && forall p :: p in b.header.parentHashes ==> p in s
    ensures AnnotatedBlock(s, Annotate(rules, s, b))
  {
    if b.header.parentHashes != [] {
      MaxBlueScoreIsHeight(s, b.header.parentHashes);
    }
  }

  lemma AnnotatedGrows(s: Store, b: Block)
    requires Annotated(s) && Layered(s) && b.hash !in s && AnnotatedBlock(s, b)
    requires forall p :: p in b.header.parentHashes ==> p in s
    ensures Annotated(s[b.hash := b])
  {
    hide BestParent, MaxBlueScore;
    var s' := s[b.hash := b];
    forall h | h in s'
      ensures AnnotatedBlock(s', s'[h])
    {
      BestParentStable(s, s', s'[h].header.parentHashes);
      if h in s {
        assert AnnotatedBlock(s, s[h]);
      }
    }
  }

  /**
    A block is admitted exactly when it passes the basic checks, is new, has all its parents
    stored, and is without parents precisely on an empty store.
   */
  lemma AdmitExactly(rules: Rules, now: nat, s: Store, b: Block)
    ensures Admit(rules, now, s, b).Pass? <==>
              && ValidateBasic(rules, now, b).Pass?
              && b.hash !in s
              && (forall p :: p in b.header.parentHashes ==> p in s)
              && (b.header.parentHashes == [] <==> s == map[])
  {
    hide ValidateBasic;
    if b.header.parentHashes != [] {
      assert b.header.parentHashes[0] in b.header.parentHashes;
    }
  }

  /** `p` is the first of the parents that is not stored. */
  ghost predicate FirstAbsent(s: Store, ps: seq<BlockHash>, p: BlockHash) {
    exists i :: 0 <= i < |ps| && ps[i] == p && p !in s && forall j :: 0 <= j < i ==> ps[j] in s
  }

  lemma {:induction false} FirstMissingExactly(s: Store, ps: seq<BlockHash>, p: BlockHash)
    ensures FirstMissing(s, ps) == Some(p) <==> FirstAbsent(s, ps, p)
  {
    if ps != [] && ps[0] in s {
      FirstMissingExactly(s, ps[1..], p);
      if i :| 0 <= i < |ps| && ps[i] == p && p !in s && forall j :: 0 <= j < i ==> ps[j] in s {
        assert i > 0 && ps[1..][i - 1] == p;
        assert forall j :: 0 <= j < i - 1 ==> ps[1..][j] in s;
      }
      if i :| 0 <= i < |ps| - 1 && ps[1..][i] == p && p !in s && forall j :: 0 <= j < i ==> ps[1..][j] in s {
        assert ps[i + 1] == p;
        assert forall j :: 0 <= j < i + 1 ==> ps[j] in s by {
          forall j | 0 <= j < i + 1 ensures ps[j] in s {
            if j > 0 {
              assert ps[1..][j - 1] in s;
            }
          }
        }
      }
    }
  }

  /** Why a block is refused: the first failing check decides, and the first missing parent is named. */
  lemma RefusalExactly(rules: Rules, now: nat, s: Store, b: Block)
    ensures var r, basic, ps := Admit(rules, now, s, b), ValidateBasic(rules, now, b), b.header.parentHashes;
            && (basic.Fail? ==> r == basic)
            && (basic.Pass? ==>
                  && (r == Fail(AlreadyExists) <==> b.hash in s)
                  && (r == Fail(SecondGenesis) <==> b.hash !in s && ps == [] && s != map[])
                  && (forall p: BlockHash :: r == Fail(MissingParent(p)) <==> b.hash !in s && FirstAbsent(s, ps, p)))
  {
    hide FirstAbsent, FirstMissing;
    BasicErrors(rules, now, b);
    var ps := b.header.parentHashes;
    forall p: BlockHash ensures FirstMissing(s, ps) == Some(p) <==> FirstAbsent(s, ps, p) {
      FirstMissingExactly(s, ps, p);
    }
    if ps == [] {
      forall p: BlockHash ensures !FirstAbsent(s, [], p) { NothingAbsent(s, p); }
    }
  }

  lemma NothingAbsent(s: Store, p: BlockHash)
    ensures !FirstAbsent(s, [], p)
  {
  }

  /** The basic checks never report a reference error. */
  lemma BasicErrors(rules: Rules, now: nat, b: Block)
    ensures var r := ValidateBasic(rules, now, b);
            r.Fail? ==> !r.error.AlreadyExists? && !r.error.SecondGenesis? && !r.error.MissingParent?
  {
  }

  lemma AdmittedParents(rules: Rules, now: nat, s: Store, b: Block)
    requires Admit(rules, now, s, b).Pass?
    ensures forall p :: p in b.header.parentHashes ==> p in s
    ensures b.header.parentHashes == [] <==> |s| == 0
  {
  }

  lemma NumberedGrows(s: Store, b: Block)
    requires Numbered(s) && b.hash !in s && b.header.topoIndex == |s|
    ensures Numbered(s[b.hash := b])
  {
    assert |s[b.hash := b]| == |s| + 1;
  }

  lemma LayeredGrows(s: Store, b: Block)
    requires Layered(s) && Numbered(s) && b.hash !in s && b.header.topoIndex == |s|
    requires forall p :: p in b.header.parentHashes ==> p in s
    ensures Layered(s[b.hash := b])
  {
  }

  lemma InsertKeepsStore(rules: Rules, now: nat, s: Store, b: Block)
    requires CollisionFree(rules) && ValidStore(rules, s) && Admit(rules, now, s, b).Pass?
    ensures var b' := Annotate(rules, s, b);
            && b'.hash !in s
            && ValidStore(rules, s[b'.hash := b'])
  {
    hide BestParent, MaxBlueScore, ValidateBasic, CollisionFree, AnnotatedBlock, Admit;
    var b' := Annotate(rules, s, b);
    AdmittedParents(rules, now, s, b);
    AnnotatedIsFresh(rules, s, b);
    AnnotateFits(rules, s, b);
    AnnotateIsKeyed(rules, s, b);
    AnnotatedGrows(s, b');
    NumberedGrows(s, b');
    LayeredGrows(s, b');
    hide Annotate, Annotated, Numbered, Layered;
  }

  lemma AnnotateIsKeyed(rules: Rules, s: Store, b: Block)
    ensures CalculateHash(rules, Annotate(rules, s, b)) == Annotate(rules, s, b).hash
  {
  }

  lemma ChildlessGrows(s: Store, b: Block, t: BlockHash)
    requires b.hash !in s
    ensures Childless(s[b.hash := b], t) <==> Childless(s, t) && t !in b.header.parentHashes
  {
    var s' := s[b.hash := b];
    if Childless(s', t) {
      assert b.hash in s' && s'[b.hash] == b;
      forall h | h in s
        ensures t !in s[h].header.parentHashes
      {
        assert h in s' && s'[h] == s[h];
      }
    }
  }

  lemma TipsGrow(s: Store, tips: set<BlockHash>, b: Block, t: BlockHash)
    requires Layered(s) && b.hash !in s
    requires t in tips <==> t in s && Childless(s, t)
    requires forall p :: p in b.header.parentHashes ==> p in s
    ensures t in tips + {b.hash} - (set p | p in b.header.parentHashes)
       <==> t in s[b.hash := b] && Childless(s[b.hash := b], t)
  {
    ChildlessGrows(s, b, t);
    assert Childless(s, b.hash);
    hide Childless;
  }

  lemma InsertKeepsIndex(d: Dag, b: Block)
    requires Indexed(d.store, d.tips, d.children) && Layered(d.store) && b.hash !in d.store
    requires forall p :: p in b.header.parentHashes ==> p in d.store
    ensures var d' := IndexInsert(d, b); Indexed(d'.store, d'.tips, d'.children)
  {
    hide AddChild, Transposed, Childless, Layered;
    var d' := IndexInsert(d, b);
    forall t
      ensures t in d'.tips <==> t in d'.store && Childless(d'.store, t)
    {
      TipsGrow(d.store, d.tips, b, t);
    }
    AddChildTransposes(d.store, d.children, b);
  }

  /** The whole invariant is kept by every accepted insertion. */
  lemma InsertKeepsValid(rules: Rules, now: nat, d: Dag, b: Block)
    requires CollisionFree(rules) && Valid(rules, d) && Insert(rules, now, d, b).Ok?
    ensures Valid(rules, Insert(rules, now, d, b).dag)
    ensures Insert(rules, now, d, b).dag.store.Keys == d.store.Keys + {Annotate(rules, d.store, b).hash}
    ensures Annotate(rules, d.store, b).hash !in d.store
  {
    hide Annotate, AddChild, ValidStore, Indexed;
    var b' := Annotate(rules, d.store, b);
    InsertKeepsStore(rules, now, d.store, b);
    AnnotateKeepsParents(rules, d.store, b);
    AdmittedParents(rules, now, d.store, b);
    ValidIsLayered(rules, d.store);
    InsertKeepsIndex(d, b');
  }

  lemma AnnotateKeepsParents(rules: Rules, s: Store, b: Block)
    ensures Annotate(rules, s, b).header.parentHashes == b.header.parentHashes
    ensures Annotate(rules, s, b).header.topoIndex == |s|
  {
  }

  /**
    What an accepted block does to the store: every old block stays, and one new block appears, under a hash
    computed from its stored content.  It carries all that was submitted and is numbered next.
   */
  lemma InsertStoresSubmission(rules: Rules, now: nat, d: Dag, b: Block) returns (x: BlockHash)
    requires CollisionFree(rules) && Valid(rules, d) && Insert(rules, now, d, b).Ok?
    ensures var s := Insert(rules, now, d, b).dag.store;
            && (forall h :: h in d.store ==> h in s && s[h] == d.store[h])
            && x !in d.store && s.Keys == d.store.Keys + {x}
            && x == s[x].hash == CalculateHash(rules, s[x])
            && CarriesSubmission(b, s[x]) && s[x].header.topoIndex == |d.store|
  {
    hide Valid, ValidStore, Admit, AddChild, BestParent, MaxBlueScore, CalculateHash;
    x := Annotate(rules, d.store, b).hash;
    InsertKeepsValid(rules, now, d, b);
    ValidIsKeyed(rules, Insert(rules, now, d, b).dag, x);
  }

  lemma ValidIsKeyed(rules: Rules, d: Dag, h: BlockHash)
    requires Valid(rules, d) && h in d.store
    ensures d.store[h].hash == h == CalculateHash(rules, d.store[h])
  {
  }

  lemma ValidIsLayered(rules: Rules, s: Store)
    requires ValidStore(rules, s)
    ensures Layered(s)
  {
  }

  // ---- runs --------------------------------------------------------------------------------

  datatype Submission = Submission(block: Block, now: nat)

  /** One submission; a rejected block changes nothing. */
  function Submit(rules: Rules, d: Dag, x: Submission): Dag {
    match Insert(rules, x.now, d, x.block)
    case Ok(d') => d'
    case Err(_) => d
  }

  /** The DAG after a sequence of submissions to `d`. */
  function RunFrom(rules: Rules, d: Dag, log: seq<Submission>): Dag {
    if log == [] then d
    else Submit(rules, RunFrom(rules, d, log[..|log| - 1]), log[|log| - 1])
  }

  function Run(rules: Rules, log: seq<Submission>): Dag {
    RunFrom(rules, EMPTY_DAG, log)
  }

  lemma {:induction false} RunFromKeepsValid(rules: Rules, d: Dag, log: seq<Submission>)
    requires CollisionFree(rules) && Valid(rules, d)
    ensures Valid(rules, RunFrom(rules, d, log))
  {
    hide Valid;
    if log != [] {
      var last := log[|log| - 1];
      RunFromKeepsValid(rules, d, log[..|log| - 1]);
      var d' := RunFrom(rules, d, log[..|log| - 1]);
      if Insert(rules, last.now, d', last.block).Ok? {
        InsertKeepsValid(rules, last.now, d', last.block);
      }
    }
  }

  lemma EmptyIsValid(rules: Rules)
    ensures Valid(rules, EMPTY_DAG)
  {
    var g := ParentGraph(EMPTY_DAG.store);
    assert forall p, h :: Adj(g, h) == [] && Adj(EMPTY_DAG.children, p) == [];
  }

  /** Whatever is submitted, in whatever order, the invariant holds afterwards. */
  lemma {:induction false} RunIsValid(rules: Rules, log: seq<Submission>)
    requires CollisionFree(rules)
    ensures Valid(rules, Run(rules, log))
  {
    EmptyIsValid(rules);
    RunFromKeepsValid(rules, EMPTY_DAG, log);
  }
}
