/**
  When the batches run conflicting transactions in their original order, as the comment in
  src/execution/parallel_executor.rs:154-155 intends: an exact condition on the conflicts alone.
 */
module OriginalOrder {
  import opened Transactions
  import opened Scheduling
  import opened Schedulers

  /** No later transaction conflicts with position `i`. */
  ghost predicate Sink(h: Hashing, txs: seq<Transaction>, i: nat) {
    forall j: nat :: i < j ==> !Adjacent(h, txs, i, j)
  }

  /** The length of the longest chain of conflicts that runs forward through the block and ends at `j`. */
  ghost function Chain(h: Hashing, txs: seq<Transaction>, j: nat): nat
    decreases j, 1, 0
  {
    1 + LongestBefore(h, txs, j, j)
  }

  /** The longest of the chains that end at a conflict of `j` among the first `m` positions. */
  ghost function LongestBefore(h: Hashing, txs: seq<Transaction>, j: nat, m: nat): nat
    requires m <= j
    decreases j, 0, m
  {
    if m == 0 then 0
    else
      var n := LongestBefore(h, txs, j, m - 1);
      if Adjacent(h, txs, j, m - 1) && Chain(h, txs, m - 1) > n then Chain(h, txs, m - 1) else n
  }

  /** It bounds those chains, and one of them attains it. */
  lemma {:induction false} LongestBeforeIsLongest(h: Hashing, txs: seq<Transaction>, j: nat, m: nat)
    requires m <= j
    ensures forall k: nat :: k < m && Adjacent(h, txs, j, k) ==> Chain(h, txs, k) <= LongestBefore(h, txs, j, m)
    ensures LongestBefore(h, txs, j, m) > 0 ==> Attained(h, txs, j, m, LongestBefore(h, txs, j, m))
    decreases m
  {
    hide Adjacent, Chain;
    if m > 0 {
      LongestBeforeIsLongest(h, txs, j, m - 1);
      var n := LongestBefore(h, txs, j, m - 1);
      if Attained(h, txs, j, m - 1, n) {
        var k: nat :| k < m - 1 && Adjacent(h, txs, j, k) && Chain(h, txs, k) == n;
      }
    }
  }

  ghost predicate Attained(h: Hashing, txs: seq<Transaction>, j: nat, m: nat, n: nat) {
    exists k: nat :: k < m && Adjacent(h, txs, j, k) && Chain(h, txs, k) == n
  }

  /** A chain is longer than every chain it can be continued from, by one than the longest of them. */
  lemma ChainIsLongest(h: Hashing, txs: seq<Transaction>, j: nat)
    ensures forall k: nat :: k < j && Adjacent(h, txs, j, k) ==> Chain(h, txs, k) < Chain(h, txs, j)
    ensures Chain(h, txs, j) > 1 ==> Preceded(h, txs, j, Chain(h, txs, j) - 1)
    ensures Chain(h, txs, j) > 0
  {
    hide Adjacent;
    LongestBeforeIsLongest(h, txs, j, j);
    if LongestBefore(h, txs, j, j) > 0 {
      var k: nat :| k < j && Adjacent(h, txs, j, k) && Chain(h, txs, k) == LongestBefore(h, txs, j, j);
    }
  }

  /** Every shorter chain length occurs directly before `j`. */
  ghost predicate FullAt(h: Hashing, txs: seq<Transaction>, j: nat) {
    forall c: nat :: 0 < c < Chain(h, txs, j) ==> Preceded(h, txs, j, c)
  }

  ghost predicate Preceded(h: Hashing, txs: seq<Transaction>, j: nat, c: nat) {
    exists k: nat :: k < j && Adjacent(h, txs, j, k) && Chain(h, txs, k) == c
  }

  /** A chain of length `c` ends before the first position without later conflicts. */
  ghost predicate OpensEarly(h: Hashing, txs: seq<Transaction>, c: nat) {
    exists m: nat :: m < |txs| && Chain(h, txs, m) == c && forall k: nat :: k <= m ==> !Sink(h, txs, k)
  }

  /**
    The condition, on conflicts only: before every transaction with later conflicts all shorter chain
    lengths occur, and the chain length of everything that conflicts with a last transaction occurs
    before the first transaction without later conflicts.
   */
  ghost predicate Orderly(h: Hashing, txs: seq<Transaction>) {
    && (forall j: nat :: j < |txs| && !Sink(h, txs, j) ==> FullAt(h, txs, j))
    && (forall i: nat, j: nat :: i < j < |txs| && Adjacent(h, txs, i, j) && Sink(h, txs, j) ==>
          OpensEarly(h, txs, Chain(h, txs, i)))
  }

  // ---- colours ----------------------------------------------------------------------------------

  lemma EarlierIsNoSink(h: Hashing, txs: seq<Transaction>, k: nat, j: nat)
    requires k < j && (Adjacent(h, txs, j, k) || Adjacent(h, txs, k, j))
    ensures !Sink(h, txs, k) && Adjacent(h, txs, k, j) && Adjacent(h, txs, j, k)
  {
    ConflictIsSymmetric(h, txs[k], txs[j]);
    assert Adjacent(h, txs, k, j);
  }

  ghost predicate Taken(h: Hashing, txs: seq<Transaction>, colors: seq<nat>, j: nat, c: nat)
    requires |colors| == |txs|
  {
    exists k: nat :: k < j && Adjacent(h, txs, j, k) && colors[k] == c
  }

  /** A transaction with later conflicts gets the least positive colour not taken by an earlier conflict. */
  lemma ColorOfNonSink(h: Hashing, txs: seq<Transaction>, colors: seq<nat>, j: nat)
    requires Greedy(h, txs, colors) && j < |txs| && !Sink(h, txs, j)
    ensures colors[j] > 0
    ensures forall k: nat :: k < j && Adjacent(h, txs, j, k) ==> colors[k] != colors[j]
    ensures forall c: nat :: 0 < c < colors[j] ==> Taken(h, txs, colors, j, c)
  {
    hide Conflict;
    ColorZeroExactly(h, txs, colors, j);
    forall k: nat | k < j && Adjacent(h, txs, j, k) ensures colors[k] != colors[j] {
      GreedyIsProper(h, txs, colors, j, k);
    }
    forall c: nat | 0 < c < colors[j]
      ensures Taken(h, txs, colors, j, c)
    {
      assert GreedyAt(h, txs, colors, j) && Forbidden(h, txs, colors, j, c);
      var k: nat :| Adjacent(h, txs, j, k) && Shown(colors, j, k) == c;
    }
  }

  /** Positive colours come into use in increasing order. */
  lemma {:induction false} ColorsOpenInOrder(h: Hashing, txs: seq<Transaction>, colors: seq<nat>, c: nat, d: nat)
    requires Greedy(h, txs, colors) && 0 < c < d && d in colors
    ensures c in colors && FirstUse(colors, c) < FirstUse(colors, d)
    decreases d
  {
    hide Conflict, Greedy, Adjacent;
    GreedyLength(h, txs, colors);
    var j := FirstUse(colors, d);
    ColorZeroExactly(h, txs, colors, j);
    ColorOfNonSink(h, txs, colors, j);
    assert Taken(h, txs, colors, j, d - 1);
    var k: nat :| k < j && Adjacent(h, txs, j, k) && colors[k] == d - 1;
    assert d - 1 in colors && FirstUse(colors, d - 1) <= k;
    if c < d - 1 {
      ColorsOpenInOrder(h, txs, colors, c, d - 1);
    }
  }

  /** Where chain lengths are full, colours are chain lengths. */
  lemma {:induction false} ColorIsChain(h: Hashing, txs: seq<Transaction>, colors: seq<nat>, j: nat)
    requires Greedy(h, txs, colors) && j < |txs| && !Sink(h, txs, j)
    requires forall i: nat :: i <= j && !Sink(h, txs, i) ==> FullAt(h, txs, i)
    ensures colors[j] == Chain(h, txs, j)
  {
    hide Conflict, Greedy, Adjacent, Sink, Chain;
    GreedyLength(h, txs, colors);
    ColorOfNonSink(h, txs, colors, j);
    ChainIsLongest(h, txs, j);
    forall k: nat | k < j && Adjacent(h, txs, j, k)
      ensures colors[k] == Chain(h, txs, k)
    {
      EarlierIsNoSink(h, txs, k, j);
      ColorIsChain(h, txs, colors, k);
    }
    assert FullAt(h, txs, j);
    assert colors[j] < Chain(h, txs, j) ==> Preceded(h, txs, j, colors[j]);
    assert Chain(h, txs, j) < colors[j] ==> Taken(h, txs, colors, j, Chain(h, txs, j));
  }

  /** Where the original order is kept, colours are chain lengths and chain lengths are full. */
  lemma {:induction false} OrderMakesFull(h: Hashing, txs: seq<Transaction>, colors: seq<nat>, j: nat)
    requires Greedy(h, txs, colors) && j < |txs| && !Sink(h, txs, j)
    requires KeepsOriginalOrder(h, txs, colors)
    ensures colors[j] == Chain(h, txs, j) && FullAt(h, txs, j)
  {
    hide Conflict, Greedy, Adjacent, Sink, FirstUse, Chain;
    GreedyLength(h, txs, colors);
    ColorOfNonSink(h, txs, colors, j);
    ChainIsLongest(h, txs, j);
    forall k: nat | k < j && Adjacent(h, txs, j, k)
      ensures colors[k] == Chain(h, txs, k) < colors[j]
    {
      EarlierIsNoSink(h, txs, k, j);
      OrderMakesFull(h, txs, colors, k);
      assert RunsBefore(colors, k, j);
      if colors[j] < colors[k] {
        ColorsOpenInOrder(h, txs, colors, colors[j], colors[k]);
      }
    }
    forall c: nat | 0 < c < colors[j] ensures Preceded(h, txs, j, c) {
      assert Taken(h, txs, colors, j, c);
      var k: nat :| k < j && Adjacent(h, txs, j, k) && colors[k] == c;
    }
    if colors[j] > 1 {
      assert Preceded(h, txs, j, colors[j] - 1);
    }
  }

  // ---- the exact condition ----------------------------------------------------------------------

  lemma OrderOpensEarly(h: Hashing, txs: seq<Transaction>, colors: seq<nat>, i: nat, j: nat)
    requires Greedy(h, txs, colors) && KeepsOriginalOrder(h, txs, colors)
    requires i < j < |txs| && Adjacent(h, txs, i, j) && Sink(h, txs, j)
    ensures OpensEarly(h, txs, Chain(h, txs, i))
  {
    hide Conflict, Greedy, Adjacent, Chain;
    GreedyLength(h, txs, colors);
    EarlierIsNoSink(h, txs, i, j);
    OrderMakesFull(h, txs, colors, i);
    ColorZeroExactly(h, txs, colors, j);
    assert RunsBefore(colors, i, j);
    var m := FirstUse(colors, colors[i]);
    forall k: nat | k <= m ensures !Sink(h, txs, k) {
      ColorZeroExactly(h, txs, colors, k);
    }
    OrderMakesFull(h, txs, colors, m);
  }

  lemma OrderlyRunsBefore(h: Hashing, txs: seq<Transaction>, colors: seq<nat>, i: nat, j: nat)
    requires Greedy(h, txs, colors) && Orderly(h, txs)
    requires i < j < |txs| && Adjacent(h, txs, i, j)
    ensures |colors| == |txs| && RunsBefore(colors, i, j)
  {
    hide Conflict, Greedy, Adjacent, Sink, FullAt;
    GreedyLength(h, txs, colors);
    EarlierIsNoSink(h, txs, i, j);
    ColorIsChain(h, txs, colors, i);
    if Sink(h, txs, j) {
      var m: nat :| m < |txs| && Chain(h, txs, m) == Chain(h, txs, i) && forall k: nat :: k <= m ==> !Sink(h, txs, k);
      ColorIsChain(h, txs, colors, m);
      ZeroIsSink(h, txs, colors, FirstUse(colors, colors[j]), j);
    } else {
      ColorIsChain(h, txs, colors, j);
      ChainIsLongest(h, txs, j);
      ColorsOpenInOrder(h, txs, colors, colors[i], colors[j]);
    }
  }

  lemma ZeroIsSink(h: Hashing, txs: seq<Transaction>, colors: seq<nat>, f: nat, j: nat)
    requires Greedy(h, txs, colors) && f < |txs| && j < |txs| && colors[f] == colors[j] && Sink(h, txs, j)
    ensures Sink(h, txs, f)
  {
    ColorZeroExactly(h, txs, colors, f);
    ColorZeroExactly(h, txs, colors, j);
  }

  /** Conflicting transactions run in their original order exactly when the block is orderly. */
  lemma OriginalOrderKeptExactly(h: Hashing, txs: seq<Transaction>, colors: seq<nat>)
    requires Greedy(h, txs, colors)
    ensures KeepsOriginalOrder(h, txs, colors) <==> Orderly(h, txs)
  {
    hide Conflict, Greedy, Adjacent, Sink, FullAt, Chain, OpensEarly, RunsBefore;
    GreedyLength(h, txs, colors);
    if KeepsOriginalOrder(h, txs, colors) {
      forall j: nat | j < |txs| && !Sink(h, txs, j) ensures FullAt(h, txs, j) {
        OrderMakesFull(h, txs, colors, j);
      }
      forall i: nat, j: nat | i < j < |txs| && Adjacent(h, txs, i, j) && Sink(h, txs, j)
        ensures OpensEarly(h, txs, Chain(h, txs, i))
      {
        OrderOpensEarly(h, txs, colors, i, j);
      }
    }
    if Orderly(h, txs) {
      forall i: nat, j: nat | i < j < |txs| && Adjacent(h, txs, i, j) ensures RunsBefore(colors, i, j) {
        OrderlyRunsBefore(h, txs, colors, i, j);
      }
    }
  }
}
