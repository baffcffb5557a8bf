/**
  Runs of the whole ledger: state-manager operations and blocks executed in parallel, in any mixture.
 */
module LedgerRuns {
  import opened Transactions
  import opened Ledgers
  import opened Scheduling
  import opened Schedulers
  import opened Execution
  import opened Serialisability
  import opened ParallelExecutors
  import opened ParallelSupply

  /** A block comes with the colours and merge orders that the executor gives it. */
  datatype Event =
    | Manage(op: Op)
    | ParallelBlock(txs: seq<Transaction>, colors: seq<nat>, orders: seq<seq<Transaction>>)

  /** The emission account is no party to the event, and a block is run as the executor runs it. */
  ghost predicate Admissible(m: Machine, e: Event) {
    match e
    case Manage(op) => Ordinary(op)
    case ParallelBlock(txs, colors, orders) =>
      && AllSpareEmission(m, txs) && DistinctHashes(m.hashing, txs) && Greedy(m.hashing, txs, colors)
      && |orders| == |Batches(txs, colors)|
      && forall b :: 0 <= b < |orders| ==> ByHash(m, Batches(txs, colors)[b], orders[b])
  }

  ghost function Happen(m: Machine, w: World, e: Event): World {
    match e
    case Manage(op) => w.(accounts := Perform(w.accounts, op))
    case ParallelBlock(_, _, orders) => Parallel(m, w, orders).world
  }

  ghost function HappenAll(m: Machine, w: World, es: seq<Event>): World {
    if es == [] then w else Happen(m, HappenAll(m, w, es[..|es| - 1]), es[|es| - 1])
  }

  lemma ParallelKeepsCaps(m: Machine, w: World, txs: seq<Transaction>, colors: seq<nat>, orders: seq<seq<Transaction>>)
    requires Isolated(m) && Admissible(m, ParallelBlock(txs, colors, orders)) && Capped(w.accounts)
    ensures Capped(Parallel(m, w, orders).world.accounts)
  {
    hide Isolated, AllSpareEmission, DistinctHashes, Greedy, Batches, ByHash, Flatten, Parallel, Serial;
    hide Supply, Emitted, OwnReceipts, FeesOf, LostIn;
    GreedyLength(m.hashing, txs, colors);
    var serial := Flatten(Batches(txs, colors));
    ParallelBlockBurns(m, w, txs, colors, orders);
    RearrangesItself(Batches(txs, colors));
    ScheduledBlockIsSerial(m, w, txs, colors, orders, Batches(txs, colors));
    BatchesPartition(txs, colors);
    SpareEmissionPermutes(m, txs, serial);
    SerialKeepsEmission(m, w, serial);
  }

  /**
    From a fresh, once initialised state, every mixed run stays below both caps, whatever storage and
    contracts hold.
   */
  lemma {:induction false} CapsHoldOnEveryMixedRun(m: Machine, storage: Storage, registry: Registry, es: seq<Event>)
    requires Isolated(m) && forall i :: 0 <= i < |es| ==> Admissible(m, es[i])
    ensures Capped(HappenAll(m, World(InitializeTokenomics(NEW_STATE), storage, registry), es).accounts)
  {
    hide Isolated, Perform, Ordinary, Parallel, Supply, InitializeTokenomics, Capped;
    if es == [] {
      CapsHoldOnEveryRun([]);
      NothingPerformed(InitializeTokenomics(NEW_STATE));
    } else {
      var n := |es| - 1;
      var w := HappenAll(m, World(InitializeTokenomics(NEW_STATE), storage, registry), es[..n]);
      CapsHoldOnEveryMixedRun(m, storage, registry, es[..n]);
      match es[n]
      case Manage(op) => PerformKeepsCaps(w.accounts, op);
      case ParallelBlock(txs, colors, orders) => ParallelKeepsCaps(m, w, txs, colors, orders);
    }
  }

  lemma NothingPerformed(m: Accounts)
    ensures PerformAll(m, []) == m
  {
  }
}
