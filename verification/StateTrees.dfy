/**
  The account tree (src/state/state_tree.rs): a map of accounts and, rebuilt after every
  write, a binary tree of hashes over its entries, in whatever order the map lists them.
 */
module StateTrees {
  import opened Collections
  import opened Transactions

  type Hash = nat

  const EMPTY_ROOT: Hash := 0

  /** What is hashed.  The three kinds have different lengths (16, 52 and 64 bytes). */
  datatype Preimage =
    | OfAccount(balance: u64, nonce: u64)
    | OfLeaf(key: Address, accountHash: Hash)
    | OfPair(left: Hash, right: Hash)

  type Sha = Preimage -> Hash

  ghost predicate CollisionFree(sha: Sha) {
    forall p, q :: sha(p) == sha(q) ==> p == q
  }

  /** A hash without collisions. */
  function NumberedHash(p: Preimage): Hash {
    ListCode(Fields(p))
  }

  lemma CollisionFreeHashExists()
    ensures CollisionFree(NumberedHash)
  {
    hide ListCode;
    forall p, q | NumberedHash(p) == NumberedHash(q) ensures p == q { NumberedApart(p, q); }
  }

  lemma NumberedApart(p: Preimage, q: Preimage)
    requires NumberedHash(p) == NumberedHash(q)
    ensures p == q
  {
    hide ListCode;
    var x, y := Fields(p), Fields(q);
    ListCodeInjective(x, y);
    assert x[0] == y[0] && x[1] == y[1] && x[2] == y[2];
  }

  function Fields(p: Preimage): seq<nat> {
    match p
    case OfAccount(balance, nonce) => [0, balance, nonce]
    case OfLeaf(key, accountHash) => [1, key, accountHash]
    case OfPair(left, right) => [2, left, right]
  }

  datatype MerkleNode =
    | Leaf(hash: Hash, key: Address, value: Account)
    | Internal(hash: Hash, left: MerkleNode, right: MerkleNode)

  function NewLeaf(sha: Sha, key: Address, value: Account): MerkleNode {
    Leaf(sha(OfLeaf(key, sha(OfAccount(value.balance, value.nonce)))), key, value)
  }

  function NewInternal(sha: Sha, left: MerkleNode, right: MerkleNode): MerkleNode {
    Internal(sha(OfPair(left.hash, right.hash)), left, right)
  }

  /** Every node carries the hash of its content. */
  ghost predicate WellHashed(sha: Sha, n: MerkleNode) {
    match n
    case Leaf(_, k, v) => n == NewLeaf(sha, k, v)
    case Internal(_, l, r) => n == NewInternal(sha, l, r) && WellHashed(sha, l) && WellHashed(sha, r)
  }

  type Entry = (Address, Account)

  /** The entries at the leaves, left to right. */
  function LeavesOf(n: MerkleNode): seq<Entry> {
    match n
    case Leaf(_, k, v) => [(k, v)]
    case Internal(_, l, r) => LeavesOf(l) + LeavesOf(r)
  }

  function LeavesOfAll(nodes: seq<MerkleNode>): seq<Entry> {
    if nodes == [] then [] else LeavesOfAll(nodes[..|nodes| - 1]) + LeavesOf(nodes[|nodes| - 1])
  }

  /** `entries` lists the map's entries, each once. */
  ghost predicate ListsEntries(entries: seq<Entry>, m: Accounts) {
    && (forall e :: e in entries <==> e.0 in m && m[e.0] == e.1)
    && (forall i, j :: 0 <= i < j < |entries| ==> entries[i].0 != entries[j].0)
  }

  /** Equal root hashes belong to equal trees. */
  lemma {:induction false} HashBindsTree(sha: Sha, a: MerkleNode, b: MerkleNode)
    requires CollisionFree(sha) && WellHashed(sha, a) && WellHashed(sha, b) && a.hash == b.hash
    ensures a == b
    decreases a
  {
    match (a, b)
    case (Internal(_, l, r), Internal(_, l', r')) =>
      assert OfPair(l.hash, r.hash) == OfPair(l'.hash, r'.hash);
      HashBindsTree(sha, l, l');
      HashBindsTree(sha, r, r');
    case (Leaf(_, k, v), Leaf(_, k', v')) =>
      var x, y := sha(OfAccount(v.balance, v.nonce)), sha(OfAccount(v'.balance, v'.nonce));
      assert OfLeaf(k, x) == OfLeaf(k', y);
      assert OfAccount(v.balance, v.nonce) == OfAccount(v'.balance, v'.nonce);
    case (Leaf(_, k, v), Internal(_, l, r)) =>
    case (Internal(_, l, r), Leaf(_, k, v)) =>
  }

  lemma EntriesDetermineMap(entries: seq<Entry>, m: Accounts, m': Accounts)
    requires ListsEntries(entries, m) && ListsEntries(entries, m')
    ensures m == m'
  {
    forall a
      ensures a in m <==> a in m'
      ensures a in m && a in m' ==> m[a] == m'[a]
    {
      if a in m {
        assert (a, m[a]) in entries;
      }
      if a in m' {
        assert (a, m'[a]) in entries;
      }
    }
  }

  // ---- one level of pairing --------------------------------------------------------------------

  /** Neighbours are joined; an odd last node moves up unchanged. */
  function PairUp(sha: Sha, nodes: seq<MerkleNode>): seq<MerkleNode>
    decreases |nodes|
  {
    if |nodes| < 2 then nodes
    else [NewInternal(sha, nodes[0], nodes[1])] + PairUp(sha, nodes[2..])
  }

  lemma {:induction false} LeavesOfCons(n: MerkleNode, nodes: seq<MerkleNode>)
    ensures LeavesOfAll([n] + nodes) == LeavesOf(n) + LeavesOfAll(nodes)
    decreases |nodes|
  {
    hide LeavesOf;
    var all := [n] + nodes;
    if nodes == [] {
      assert all[..0] == [] && all[0] == n;
      assert LeavesOfAll(all) == [] + LeavesOf(n);
    } else {
      var init, last := nodes[..|nodes| - 1], nodes[|nodes| - 1];
      LeavesOfCons(n, init);
      assert all[..|all| - 1] == [n] + init && all[|all| - 1] == last;
    }
  }

  lemma LeavesOfOne(nodes: seq<MerkleNode>)
    requires |nodes| == 1
    ensures LeavesOfAll(nodes) == LeavesOf(nodes[0])
  {
    hide LeavesOf;
    assert nodes[..0] == [];
    assert LeavesOfAll(nodes) == [] + LeavesOf(nodes[0]);
  }

  lemma LeavesOfPair(sha: Sha, a: MerkleNode, b: MerkleNode, rest: seq<MerkleNode>)
    ensures LeavesOfAll([a] + ([b] + rest)) == LeavesOf(NewInternal(sha, a, b)) + LeavesOfAll(rest)
  {
    hide LeavesOfAll;
    LeavesOfCons(b, rest);
    LeavesOfCons(a, [b] + rest);
  }

  ghost predicate AllWellHashed(sha: Sha, nodes: seq<MerkleNode>) {
    forall i :: 0 <= i < |nodes| ==> WellHashed(sha, nodes[i])
  }

  lemma PairUpStep(sha: Sha, nodes: seq<MerkleNode>)
    requires |nodes| >= 2
    ensures PairUp(sha, nodes) == [NewInternal(sha, nodes[0], nodes[1])] + PairUp(sha, nodes[2..])
  {
  }

  lemma PairUpFew(sha: Sha, nodes: seq<MerkleNode>)
    requires |nodes| < 2
    ensures PairUp(sha, nodes) == nodes
  {
  }

  lemma PairIsWellHashed(sha: Sha, nodes: seq<MerkleNode>)
    requires |nodes| >= 2 && AllWellHashed(sha, nodes)
    ensures WellHashed(sha, NewInternal(sha, nodes[0], nodes[1])) && AllWellHashed(sha, nodes[2..])
  {
  }

  lemma {:induction false} PairUpKeeps(sha: Sha, nodes: seq<MerkleNode>)
    requires AllWellHashed(sha, nodes)
    ensures AllWellHashed(sha, PairUp(sha, nodes))
    ensures LeavesOfAll(PairUp(sha, nodes)) == LeavesOfAll(nodes)
    ensures |PairUp(sha, nodes)| == (|nodes| + 1) / 2
    decreases |nodes|
  {
    hide LeavesOf, LeavesOfAll, PairUp, NewInternal, WellHashed;
    if |nodes| >= 2 {
      var rest, pair := nodes[2..], NewInternal(sha, nodes[0], nodes[1]);
      PairIsWellHashed(sha, nodes);
      PairUpKeeps(sha, rest);
      PairUpStep(sha, nodes);
      LeavesOfCons(pair, PairUp(sha, rest));
      LeavesOfPair(sha, nodes[0], nodes[1], rest);
      assert nodes == [nodes[0]] + ([nodes[1]] + rest);
    } else {
      PairUpFew(sha, nodes);
    }
  }

  /** The chunk loop. */
  method PairLevel(sha: Sha, nodes: seq<MerkleNode>) returns (r: seq<MerkleNode>)
    ensures r == PairUp(sha, nodes)
  {
    hide PairUp, NewInternal;
    r := [];
    var i := 0;
    assert nodes[0..] == nodes;
    while i + 1 < |nodes|
      invariant 0 <= i <= |nodes|
      invariant r + PairUp(sha, nodes[i..]) == PairUp(sha, nodes)
    {
      PairUpStep(sha, nodes[i..]);
      assert nodes[i..][2..] == nodes[i + 2..];
      r := r + [NewInternal(sha, nodes[i], nodes[i + 1])];
      i := i + 2;
    }
    PairUpFew(sha, nodes[i..]);
    r := r + nodes[i..];
  }

  class SparseMerkleTree {
    const sha: Sha
    var root: Option<MerkleNode>
    var leaves: Accounts

    /** After every update the leaves of the tree are exactly the entries of the map. */
    ghost predicate Valid()
      reads this
    {
      && (root.None? <==> leaves == map[])
      && (root.Some? ==> WellHashed(sha, root.value) && ListsEntries(LeavesOf(root.value), leaves))
    }

    constructor (sha: Sha)
      ensures Valid() && leaves == map[] && this.sha == sha
    {
      this.sha := sha;
      root, leaves := None, map[];
    }

    method UpdateAccount(address: Address, account: Account)
      modifies this
      ensures Valid() && leaves == old(leaves)[address := account]
    {
      leaves := leaves[address := account];
      RebuildTree();
    }

    /** One leaf per map entry, in an order of the map's choosing. */
    method CollectLeaves() returns (nodes: seq<MerkleNode>)
      ensures AllWellHashed(sha, nodes)
      ensures ListsEntries(LeavesOfAll(nodes), leaves)
      ensures |nodes| == 0 <==> leaves == map[]
    {
      nodes := [];
      var rest := leaves.Keys;
      while rest != {}
        invariant rest <= leaves.Keys
        invariant AllWellHashed(sha, nodes)
        invariant ListsEntries(LeavesOfAll(nodes), map a | a in leaves && a !in rest :: leaves[a])
        invariant nodes == [] <==> rest == leaves.Keys
        decreases rest
      {
        var a :| a in rest;
        ghost var before := map x | x in leaves && x !in rest :: leaves[x];
        ghost var entries := LeavesOfAll(nodes);
        rest := rest - {a};
        nodes := nodes + [NewLeaf(sha, a, leaves[a])];
        assert nodes[..|nodes| - 1] + [nodes[|nodes| - 1]] == nodes;
        assert LeavesOfAll(nodes) == entries + [(a, leaves[a])];
        EntriesGrow(entries, before, a, leaves[a]);
        assert before[a := leaves[a]] == map x | x in leaves && x !in rest :: leaves[x];
      }
      assert leaves == map a | a in leaves :: leaves[a];
    }

    method RebuildTree()
      modifies this`root
      ensures Valid()
    {
      hide PairUp, LeavesOf, LeavesOfAll, WellHashed, ListsEntries;
      var nodes := CollectLeaves();
      if nodes == [] {
        root := None;
        return;
      }
      while |nodes| > 1
        invariant nodes != [] && AllWellHashed(sha, nodes)
        invariant ListsEntries(LeavesOfAll(nodes), leaves)
        decreases |nodes|
      {
        PairUpKeeps(sha, nodes);
        nodes := PairLevel(sha, nodes);
      }
      LeavesOfOne(nodes);
      root := Some(nodes[0]);
    }

    /** In a valid tree the root commits to the account map. */
    method CalculateRoot() returns (h: Hash)
      ensures h == RootHash(root)
      ensures Valid() && CollisionFree(sha) ==> Commits(sha, h, leaves)
    {
      h := if root.Some? then root.value.hash else EMPTY_ROOT;
      if Valid() && CollisionFree(sha) {
        RootCommits(sha, root, leaves);
      }
    }
  }

  /**
    Whatever well-hashed tree has the root `h`, its leaves are exactly the entries of `m`; without accounts
    it is the zero hash.
   */
  ghost predicate Commits(sha: Sha, h: Hash, m: Accounts) {
    if m == map[] then h == EMPTY_ROOT
    else forall n: MerkleNode :: WellHashed(sha, n) && n.hash == h ==> ListsEntries(LeavesOf(n), m)
  }

  lemma RootCommits(sha: Sha, root: Option<MerkleNode>, m: Accounts)
    requires CollisionFree(sha) && (root.None? <==> m == map[])
    requires root.Some? ==> WellHashed(sha, root.value) && ListsEntries(LeavesOf(root.value), m)
    ensures Commits(sha, RootHash(root), m)
  {
    hide WellHashed, ListsEntries, CollisionFree;
    if root.Some? {
      forall n: MerkleNode | WellHashed(sha, n) && n.hash == root.value.hash
        ensures n == root.value
      {
        HashBindsTree(sha, n, root.value);
      }
    }
  }

  function RootHash(root: Option<MerkleNode>): Hash {
    if root.Some? then root.value.hash else EMPTY_ROOT
  }

  lemma EntriesGrow(entries: seq<Entry>, m: Accounts, a: Address, acc: Account)
    requires ListsEntries(entries, m) && a !in m
    ensures ListsEntries(entries + [(a, acc)], m[a := acc])
  {
    forall i | 0 <= i < |entries|
      ensures entries[i].0 != a
    {
      assert entries[i] in entries;
    }
  }

  /** Under a collision-free hash, two non-empty trees with equal roots hold equal account maps. */
  lemma {:induction false} RootBindsAccounts(s: SparseMerkleTree, t: SparseMerkleTree)
    requires s.Valid() && t.Valid() && s.sha == t.sha && CollisionFree(s.sha)
    requires s.leaves != map[] && t.leaves != map[]
    requires RootHash(s.root) == RootHash(t.root)
    ensures s.leaves == t.leaves
  {
    HashBindsTree(s.sha, s.root.value, t.root.value);
    EntriesDetermineMap(LeavesOf(s.root.value), s.leaves, t.leaves);
  }
}
