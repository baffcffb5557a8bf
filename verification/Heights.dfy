/**
  What the stored metadata mean: chain height is the length of the longest path to
  genesis, and every block descends from the one block without parents.
 */
module Heights {
  import opened Collections
  import opened Graphs
  import opened Blocks
  import opened Dags

  ghost predicate IsGenesis(s: Store, h: BlockHash) {
    h in s && s[h].header.parentHashes == []
  }

  lemma ParentIsLower(rules: Rules, s: Store, h: BlockHash, p: BlockHash)
    requires ValidStore(rules, s) && h in s && p in s[h].header.parentHashes
    ensures p in s && s[p].header.chainHeight < s[h].header.chainHeight
  {
    hide BestParent;
    assert AnnotatedBlock(s, s[h]) && AnnotatedBlock(s, s[p]);
    var ps := s[h].header.parentHashes;
    var i := BestParentIsHighest(s, ps);
    var j :| 0 <= j < |ps| && ps[j] == p;
    assert AnnotatedBlock(s, s[ps[i]]);
  }

  lemma SelectedParentIsNext(rules: Rules, s: Store, h: BlockHash)
    requires ValidStore(rules, s) && h in s
    ensures var sp := s[h].header.selectedParent;
            if s[h].header.parentHashes == [] then sp.None? && s[h].header.chainHeight == 0
            else sp.Some? && sp.value in s[h].header.parentHashes && sp.value in s
                 && s[sp.value].header.chainHeight + 1 == s[h].header.chainHeight
                 && s[sp.value].header.topoIndex < s[h].header.topoIndex
  {
    hide BestParent, Keyed, Numbered, Rooted;
    assert AnnotatedBlock(s, s[h]);
    BestParentOfNone(s);
    if s[h].header.parentHashes != [] {
      var i := BestParentIsHighest(s, s[h].header.parentHashes);
      assert AnnotatedBlock(s, s[s[h].header.selectedParent.value]);
    }
  }

  /** A walk of `n` parent links drops the height by at least `n`. */
  lemma {:induction false} WalkLowersHeight(rules: Rules, s: Store, h: BlockHash, a: BlockHash, n: nat)
    requires ValidStore(rules, s) && h in s && Walk(ParentGraph(s), h, a, n)
    ensures a in s && s[a].header.chainHeight + n <= s[h].header.chainHeight
    decreases n
  {
    hide ValidStore;
    if n > 0 {
      var p :| p in Adj(ParentGraph(s), h) && Walk(ParentGraph(s), p, a, n - 1);
      ParentIsLower(rules, s, h, p);
      WalkLowersHeight(rules, s, p, a, n - 1);
    }
  }

  /** Following selected parents reaches genesis after exactly `chainHeight` links. */
  lemma {:induction false} HeightIsWalked(rules: Rules, s: Store, h: BlockHash) returns (root: BlockHash)
    requires ValidStore(rules, s) && h in s
    ensures IsGenesis(s, root) && Walk(ParentGraph(s), h, root, s[h].header.chainHeight)
    decreases s[h].header.topoIndex
  {
    hide ValidStore;
    SelectedParentIsNext(rules, s, h);
    if s[h].header.parentHashes == [] {
      root := h;
    } else {
      var p := s[h].header.selectedParent.value;
      root := HeightIsWalked(rules, s, p);
      assert p in Adj(ParentGraph(s), h);
    }
  }

  lemma GenesisIsUnique(rules: Rules, s: Store, a: BlockHash, b: BlockHash)
    requires ValidStore(rules, s) && IsGenesis(s, a) && IsGenesis(s, b)
    ensures a == b
  {
  }

  /**
    The stored height of a block is the length of the longest walk up from it; a walk
    of that length ends in genesis, and the stored blue score is one more.
   */
  lemma {:induction false} HeightIsLongestPath(rules: Rules, s: Store, h: BlockHash)
    requires ValidStore(rules, s) && h in s
    ensures exists root :: IsGenesis(s, root) && Walk(ParentGraph(s), h, root, s[h].header.chainHeight)
    ensures forall a, n: nat :: Walk(ParentGraph(s), h, a, n) ==> n <= s[h].header.chainHeight
    ensures s[h].height == s[h].header.chainHeight && s[h].header.blueScore == s[h].header.chainHeight + 1
  {
    var root := HeightIsWalked(rules, s, h);
    forall a, n: nat | Walk(ParentGraph(s), h, a, n)
      ensures n <= s[h].header.chainHeight
    {
      WalkLowersHeight(rules, s, h, a, n);
    }
    assert AnnotatedBlock(s, s[h]);
  }

  /** Any two stored blocks have a common ancestor-or-self: genesis. */
  lemma {:induction false} CommonAncestor(rules: Rules, s: Store, a: BlockHash, b: BlockHash) returns (root: BlockHash)
    requires ValidStore(rules, s) && a in s && b in s
    ensures Walk(ParentGraph(s), a, root, s[a].header.chainHeight)
    ensures Walk(ParentGraph(s), b, root, s[b].header.chainHeight)
  {
    hide ValidStore;
    root := HeightIsWalked(rules, s, a);
    var root' := HeightIsWalked(rules, s, b);
    GenesisIsUnique(rules, s, root, root');
  }

  /** The blocks from `h` up its selected parents to genesis. */
  ghost function SelectedChain(rules: Rules, s: Store, h: BlockHash): (r: seq<BlockHash>)
    requires ValidStore(rules, s) && h in s
    ensures |r| == s[h].header.chainHeight + 1
    ensures forall x :: x in r ==> x in s
    decreases s[h].header.topoIndex
  {
    SelectedParentIsNext(rules, s, h);
    if s[h].header.selectedParent.None? then [h]
    else [h] + SelectedChain(rules, s, s[h].header.selectedParent.value)
  }

  /** `ts` holds the timestamps of the first `k` blocks of `chain`, oldest (last) first. */
  ghost predicate OldestFirst(s: Store, chain: seq<BlockHash>, k: nat, ts: seq<nat>) {
    && k <= |chain| && |ts| == k
    && forall i :: 0 <= i < k ==> chain[k - 1 - i] in s && ts[i] == s[chain[k - 1 - i]].header.timestamp
  }

  function Reversed(xs: seq<nat>): seq<nat> {
    seq(|xs|, i requires 0 <= i < |xs| => xs[|xs| - 1 - i])
  }

  lemma ReversedIsOldestFirst(s: Store, chain: seq<BlockHash>, xs: seq<nat>)
    requires |xs| <= |chain|
    requires forall i :: 0 <= i < |xs| ==> chain[i] in s && xs[i] == s[chain[i]].header.timestamp
    ensures OldestFirst(s, chain, |xs|, Reversed(xs))
  {
  }
}
