# Cytah-Speed: a verified model of its DAG, its parallel executor and its ledger

Cytah-Speed is a blockchain whose blocks form a DAG.  This project models, in Dafny, the three parts
that decide what the chain contains and what it is worth, and proves what they guarantee.

**The block DAG and consensus.**  `Dags` is the state machine of `BlockDAG::insert_block`: checks,
annotation, re-hashing, storing, and the incremental index.  Its invariant holds after every run of
submissions (`Dags.RunIsValid`).  On top of it:

- *Order.*  Kahn's order is a permutation of the store with parents first, and how it grows is known
  exactly: an accepted block enters at one computable place and moves nothing else
  (`DagOrders.InsertGrowsOrder`).
- *Finality.*  Final blocks are closed under ancestors in every state.  Finality is *not* permanent in
  general: for every k a late block on genesis can take it back (`FinalityReversals.FinalityCanBeTakenBack`),
  and so can a rebuild of the index (`Rebuilds.RebuildCanTakeFinalityBack`).  `Finality.FinalityKeptExactly`
  and `Rebuilds.RebuildByHashKeepsOrderExactly` say exactly when they do not, and `Finality.FinalityIsPermanent`
  covers all runs whose blocks are built on all tips, as the block producer builds them.
- *Replay.*  Re-submitting the stored blocks reproduces the DAG exactly when they still pass the basic
  checks (`Replay.ReplayRoundTrip`).
- *GHOSTDAG.*  Scores, caches, blue sets, the ordering and its validator.  The engine works on a clone of
  the DAG, which shares the store and copies the index: `Snapshots` says what such a copy sees once the DAG
  has grown, and when a cached score is stale.

**The parallel executor.**  When a transaction succeeds and what it leaves behind is stated exactly
(`Outcomes`).  Access sets are true footprints, batches are independent, and a block runs as
if one transaction at a time (`ParallelExecutors.ExecuteBlockTransactionsParallel`).  The code does
*not* keep conflicting transactions in original order, although a comment at
src/execution/parallel_executor.rs:154-155 says so; `OriginalOrder.OriginalOrderKeptExactly` gives the
exact condition, and `Reordering` proves conflict equivalence, so that under this condition a block
equals its sequential run in original order.

**The ledger.**  Supply conservation and caps over every run, with exact 64-bit arithmetic; what the
Merkle root commits to; what a block burns; proof of work and the reward clamp.

Code that works in place is modelled in place: `DagIndex`, `BlockDag`, `BlueSet`, `GhostdagEngine`,
`FinalityEngine`, `Overlay`, `Ledger`, `SparseMerkleTree` and `StateManager` are classes, loops are
loops, and each method is tied to a specification function whose properties are the lemmas.

Parameters of the model:

- `Rules.sha`, `StateTrees.Sha`: SHA-256 over the record of what is hashed, collision-free where a
  theorem says so.  `PreimageLayout.LaidOutHashIsCollisionFree` justifies hashing the record instead of the bytes.
- `Rules.reward`, `wanted`: the floating-point reward schedule.  `now`: the wall clock.  `signed`: a
  signature that is well formed and recovers to the sender.
- `Machine.vm`: the WASM runtime.  `Isolated` - a contract touches only its own storage - is a stated
  hypothesis of serialisability; the host functions pass raw, unprefixed keys and do not enforce it.
- `hashes`: any enumeration of the store's keys.  The code's store enumerates by ascending hash
  (src/storage/block_store.rs:224-259); where the enumeration matters - after a rebuild - that one is treated
  by name (`Rebuilds.ByHash`).  Iteration over hash maps and sets is a choice of an arbitrary element, so
  results hold for every iteration order.

Where the code and its comments differ, the model follows the code:

- Insertion stores a block under the re-computed hash, not the submitted one.
- Receipts come in batch order, then hash order, not in original order.
- `initialize_tokenomics` is documented as safe to call repeatedly; once the genesis wallet is spent it
  mints again (`Ledgers.InitializeTwiceExactly`, `Ledgers.InitializeTwiceBreaksCap`).
- The traversal's "anticone" is the past of one block minus the past of another, not the GHOSTDAG
  paper's.
- A self-transfer loses its amount on the parallel path only (`SingleSender.PathsAgreeExactly`).

Premises such as "a valid, non-empty DAG" are met by real runs: `SampleRuns.TipsDagHasSingleTip`
builds one of every size, for every collision-free hash, and `PreimageLayout.CollisionFreeRulesExist` and
`StateTrees.CollisionFreeHashExists` show such hashes.

## Model

| member | source | states |
|---|---|---|
| Graphs.ReachesConverse | src/dag/dag_index.rs:57-100 | Searching the child lists is the exact converse of searching stored parents: `a` is an ancestor of `b` exactly when `b` is a descendant of `a`. |
| Graphs.BreadthFirst | src/dag/dag_index.rs:79-100 | The queue-and-visited loop returns exactly the blocks reached by one link or more, on any graph, cyclic or not. |
| Kahn.FreedExactly | src/dag/dag_index.rs:205-215 | While a child list is scanned, a block is queued once, and exactly when its positive in-degree is used up by the occurrences in the list (repeated parents included). |
| Kahn.OrderIsTopological | src/dag/dag_index.rs:192-219 | On every acyclic graph whose child lists count links with the same multiplicity as the parent lists, Kahn's loop outputs every block once, parents before children. |
| Kahn.AncestorsComeFirst | src/dag/dag_index.rs:192-219 | In any topological order, everything a block reaches stands strictly before it. |
| KahnGrowth.OrderGrowsByOne | src/dag/dag_index.rs:113-129 | Adding a childless block leaves the relative order of all old blocks unchanged: the new order is the old one with the new block put in at one place, given by a formula over the old order. |
| KahnGrowth.LandingOnAllTips | src/block/block_producer.rs:95-101 | If the new block has every childless block among its parents, that place is the end. |
| PreimageLayout.LayoutInjective | src/core/block.rs:81-114 | The hashed byte string determines the sequence of 32-byte words (parents then transactions) and every field behind them. |
| PreimageLayout.FieldsFromEnd | src/core/block.rs:81-114 | The words come first and every other part lies at a fixed distance from the end: 28 bytes of work fields, state root, 28 bytes of consensus fields, selected parent, producer. |
| PreimageLayout.NumbersFromEnd | src/core/block.rs:81-114 | Timestamp, nonce, difficulty, base fee, in this order and with these widths. |
| PreimageLayout.ConsensusFromEnd | src/core/block.rs:95-111 | Version, blue score, chain height, `topo_index`, in this order and with these widths. |
| PreimageLayout.LittleEndianDigit | src/core/block.rs:81-114 | Byte i of a number is its digit of weight 256^i. |
| PreimageLayout.BigEndianDigit | src/core/block.rs:81-114 | Hashes and addresses have their most significant byte first. |
| PreimageLayout.LaidOutHashIsCollisionFree | src/core/block.rs:81-114 | If no two byte strings collide, hashing the laid-out bytes - extended injectively to records that do not fit the layout - is a collision-free rule in the sense every theorem about the DAG asks for. |
| PreimageLayout.CollisionFreeRulesExist | src/core/block.rs:81-114 | A collision-free rule exists: a numbering of byte strings, proved injective, over the layout. |
| Blocks.BasicChecksExactly | src/core/block.rs:117-156 | The basic checks pass if and only if the hash is the block's own, the work suffices (none for difficulty 0), the reward is the expected one, no transaction is repeated and the timestamp is at most an hour ahead. |
| Blocks.HashBindsBlock | src/core/block.rs:81-114 | Two blocks have the same hash if and only if they agree in everything hashed: parents followed by transactions, producer, all work fields and all consensus fields, a missing selected parent counting as the zero hash. |
| Dags.AdmitExactly | src/dag/blockdag.rs:77-105 | A block is admitted if and only if it passes the basic checks, is not stored yet, and has either no parents in an empty DAG or stored parents only. |
| Dags.RefusalExactly | src/dag/blockdag.rs:77-105 | Which error a refused block gets: the basic check that fails, else already stored, else a second genesis, else the first missing parent, by name. |
| Dags.InsertStoresSubmission | src/dag/blockdag.rs:127-139 | Every old block stays as it was; one block is new, under the hash of its stored content, numbered next, with the submitted transactions, producer, reward, parents, timestamp, nonce, difficulty, base fee, state root and version. |
| Dags.BestParentIsHighest | src/dag/blockdag.rs:107-125 | The selected parent is a parent of greatest height and the last such one; the height it yields is that maximum. |
| Dags.InsertKeepsValid | src/dag/blockdag.rs:77-139 | Every accepted insertion stores one block under a hash not used before and keeps the whole invariant: blocks under their own hashes, parents stored with smaller `topo_index`, gap-free numbering, one parentless block, metadata determined by the parents, tips exactly the childless blocks, child lists the exact transpose of the parent lists. |
| Dags.RunIsValid | src/dag/blockdag.rs:77-139 | That invariant holds after every sequence of submissions, accepted or rejected, from an empty DAG. |
| BlockDags.BlockDag.constructor | src/dag/blockdag.rs:18-23 | A new engine is the empty DAG and satisfies the invariant. |
| BlockDags.BlockDag.SelectBestParent | src/dag/blockdag.rs:107-125 | The loop returns the parent and height that `Dags.BestParentIsHighest` characterises. |
| BlockDags.BlockDag.ComputeBlueScore | src/dag/blockdag.rs:142-151 | One more than the greatest stored blue score among the parents. |
| BlockDags.BlockDag.InsertBlock | src/dag/blockdag.rs:77-139 | Store and index afterwards are those of the state machine; old blocks stay, and the one new block carries everything submitted; a rejected block returns its error and changes nothing; the invariant is kept. |
| BlockDags.BlockDag.RebuildIndex | src/dag/blockdag.rs:374-376 | Rebuilding agrees with the incremental index: equal tip sets and, as multisets, equal child lists, siblings in the order of the enumeration; the store is untouched. |
| BlockDags.BlockDag.GetTopologicalOrder | src/dag/blockdag.rs:389-391 | In every reachable DAG the exported order is a permutation of the stored hashes with parents before children. |
| BlockDags.BlockDag.FindLca | src/dag/dag_index.rs:132-158 | For any two stored blocks the answer is never None. |
| BlockDags.BlockDag.GetBlockDepth | src/dag/dag_index.rs:222-250 | Level-by-level depth equals the stored chain height (0 for an unknown hash). |
| BlockDags.BlockDag.GetBlockHeight | src/dag/blockdag.rs:394-413 | The stored chain height, None for an unknown hash. |
| BlockDags.BlockDag.GetTimestampsFromStart | src/dag/blockdag.rs:223-240 | Exactly min(max, height + 1) timestamps of the selected chain, oldest first; none for an unknown start. |
| BlockDags.BlockDag.GetBlueSet | src/dag/blockdag.rs:422-433 | Defined exactly for stored blocks; the block and all its ancestors. |
| Replay.StoredBlocksAreTheStore | src/dag/blockdag.rs:127-139 | The blocks a run stores, in storing order, are the store listed by `topo_index`. |
| Replay.ByTopoIndexIsUnique | src/dag/blockdag.rs:128-128 | There is only one such listing. |
| Replay.ReplayRoundTrip | src/dag/blockdag.rs:77-139 | Submitting the stored blocks by increasing `topo_index` to an empty DAG reproduces store, metadata, tips and child lists if and only if every stored block passes the basic checks at replay time. |
| DagIndexes.DagIndex.BuildFromStore | src/dag/dag_index.rs:22-46 | From any enumeration of the store: tips are exactly the childless blocks and child lists are the transposed parent lists. |
| DagIndexes.DagIndex.UpdateTipsAfterInsert | src/dag/dag_index.rs:113-129 | The incremental step on tips and child lists (one entry per listed parent, repeats included); `Dags.InsertKeepsValid` proves it exact. |
| DagIndexes.DagIndex.GetAllAncestors | src/dag/dag_index.rs:79-100 | Exactly the proper ancestors. |
| DagIndexes.DagIndex.GetAllDescendants | src/dag/dag_index.rs:57-76 | On an up-to-date index, exactly the blocks that have the given one among their ancestors. |
| DagIndexes.DagIndex.FindLca | src/dag/dag_index.rs:132-158 | A common ancestor-or-self at minimal hop distance from the second block; None only if no common one exists. |
| DagIndexes.DagIndex.GetTopologicalOrder | src/dag/dag_index.rs:192-219 | The loop computes the specified Kahn order, whose properties are proved in `Kahn`, `KahnGrowth` and `DagOrders`. |
| DagIndexes.DagIndex.GetBlockDepth | src/dag/dag_index.rs:222-250 | The greatest length of a walk along parents. |
| Distances.HeadIsNearest | src/dag/dag_index.rs:132-158 | Breadth-first search meets blocks by hop distance: no unvisited block is nearer than the head of the queue. |
| Heights.HeightIsLongestPath | src/dag/blockdag.rs:107-151 | Stored chain height is the length of the longest path upwards, attained by a path to genesis; blue score is height + 1. |
| Heights.GenesisIsUnique | src/dag/blockdag.rs:87-98 | There is at most one parentless block. |
| Heights.CommonAncestor | src/dag/blockdag.rs:87-98 | Any two stored blocks both descend from genesis, by walks as long as their heights. |
| DagOrders.OrderIgnoresEnumeration | src/dag/dag_index.rs:192-219 | The exported order does not depend on how the store enumerates its keys. |
| DagOrders.DagOrderIsTopological | src/dag/dag_index.rs:192-219 | In every valid DAG the order is a permutation of the store, parents first. |
| DagOrders.InsertGrowsOrder | src/dag/dag_index.rs:192-219 | Every accepted insertion puts exactly one block into the order, at a place computable beforehand, and moves no old block relative to another. |
| DagOrders.InsertOnAllTipsAppends | src/block/block_producer.rs:95-101 | A block built on all tips is appended. |
| Rebuilds.RunIsRebuilt | src/dag/dag_index.rs:113-129 | After every run the incremental child lists are exactly those of a rebuild in the order of insertion. |
| Rebuilds.RebuildsAgreeExactly | src/dag/dag_index.rs:22-46 | Two rebuilds of one store give the same Kahn order if and only if, for every block, they list in the same order the blocks whose last parent it is. |
| Rebuilds.RebuildKeepsOrderExactly | src/dag/blockdag.rs:374-376 | After every run: a rebuild keeps the exported order if and only if the store enumerates blocks with the same last parent in the order of their insertion; then it keeps all final blocks, for every k. |
| Rebuilds.RebuildByHashKeepsOrderExactly | src/storage/block_store.rs:224-259 | For the enumeration the store makes, by ascending hash: the rebuilt index is valid, and it keeps the exported order if and only if any two blocks with the same last parent were inserted by ascending hash. |
| Rebuilds.ByHashExactly | src/storage/block_store.rs:224-259 | The ascending-hash enumeration lists every stored block once and is the only ascending list that does. |
| Rebuilds.RebuildCanTakeFinalityBack | src/dag/blockdag.rs:374-376 | For every k and every collision-free hash there is a run - genesis and 10(k + 1) blocks on it, one with a suitable nonce - after which the rebuild from the store's own enumeration, with no block submitted, makes a final block lose its finality. |
| Finality.ThresholdStep | src/finality/finality_engine.rs:358-367 | One more block moves the threshold by 0 or 1, never back; exactly when it moves. |
| Finality.FinalIsAncestorClosed | src/finality/finality_engine.rs:333-355 | Along any topological order the final blocks are closed under ancestors. |
| Finality.InsertKeepsFinalExactly | src/finality/finality_engine.rs:333-367 | Inserting a block into an order keeps all final blocks final if and only if it lands above the threshold or the threshold moves. |
| Finality.FinalityKeptExactly | src/finality/finality_engine.rs:333-367 | The same for every accepted block of every valid DAG, with the landing place computed from the block's parents. |
| SampleRuns.TipsDagHasSingleTip | src/block/block_producer.rs:95-101 | For every n > 0, a run of n blocks, each on all tips of its moment, is accepted in full and ends in a valid DAG of n blocks with a single tip. |
| FinalityReversals.FinalityCanBeTakenBack | src/finality/finality_engine.rs:333-367 | For every k and every collision-free hash: after a run of 10(k + 1) blocks, each on all tips, a block on genesis alone is accepted and a final block is no longer final. |
| Finality.FinalityIsPermanent | src/finality/finality_engine.rs:333-367 | From any valid non-empty DAG, on every run in which each accepted block takes all current tips as parents, the order only grows at its end, the threshold never falls, and no final block is ever un-finalised. |
| HeightTrees.TreeHoldsAll | src/finality/finality_engine.rs:169-191 | Despite sorting, swap-removal of the middle and splitting, the tree holds every entry exactly as often as the input and reads in height order. |
| TreeDepths.DistinctHeightsBalance | src/finality/finality_engine.rs:169-191 | With all heights different the tree has the least depth a binary tree of its size can have. |
| TreeDepths.DepthAtLeastBits | src/finality/finality_engine.rs:169-191 | That least depth: no binary tree of n nodes is shallower than the number of binary digits of n. |
| TreeDepths.EqualHeightsDegenerate | src/finality/finality_engine.rs:169-191 | With all heights equal the "balanced" tree is a list. |
| TreeDepths.SortIsStable | src/finality/finality_engine.rs:169-171 | Entries of equal height keep their order in the sort. |
| HeightTrees.FindNodeFinds | src/finality/finality_engine.rs:238-256 | The search succeeds exactly on hashes in the tree, and returns an entry with that hash. |
| FinalityEngines.FinalityEngine.BuildIntervalTree | src/finality/finality_engine.rs:129-166 | Heights are stored heights, scores are positions in the order, the tree holds each block once in height order and every stored block is found in it with its height and score. |
| FinalityEngines.FinalityEngine.CanReach | src/finality/finality_engine.rs:194-220 | For stored blocks and up-to-date tables the answer is true exactly when the first is not higher and does not stand after the second in the exported order; None for unknown blocks; the same through any sequence of cache hits, insertions and clears. |
| FinalityEngines.FinalityEngine.ComputeAnticone | src/finality/finality_engine.rs:411-434 | For up-to-date tables: exactly the stored blocks that are not lower than the block and stand before it in the exported order. |
| FinalityEngines.FinalityEngine.GetBlueScore | src/finality/finality_engine.rs:314-330 | Size of the past plus one, cached or not; None for unknown blocks; the cache keeps right values of stored blocks only. |
| FinalityEngines.FinalityEngine.SelectBluest | src/finality/finality_engine.rs:288-299 | The first parent with the greatest past; afterwards every parent is in the cache. |
| FinalityEngines.FinalityEngine.ComputeSingleVsp | src/finality/finality_engine.rs:273-311 | Genesis stands for itself, every other stored block for its bluest parent, with that parent's height, score and blue score; None for an unknown block. |
| FinalityEngines.FinalityEngine.ComputeVirtualSelectedParents | src/finality/finality_engine.rs:259-270 | One such entry per stored block, whatever the enumeration; the cache stays right and holds every parent. |
| FinalityEngines.VirtualParentIsBluer | src/finality/finality_engine.rs:288-311 | No parent has a larger past than the virtual one, and the block's own past is strictly larger. |
| FinalityEngines.ScoresHoldAsDagGrows | src/finality/finality_engine.rs:314-330 | The blue-score cache stays right through every growth of the DAG. |
| FinalityEngines.FinalityEngine.CalculateScoreBasedFinality | src/finality/finality_engine.rs:333-355 | A block is marked final exactly when its score is at most the threshold under the greatest score, and under its own height. |
| FinalityEngines.FinalityEngine.ComputeFinality | src/finality/finality_engine.rs:110-126 | A recomputation finalises exactly the prefix of the exported order up to the threshold, finds every virtual parent, and fills the blue-score cache with right values; on an empty DAG it fails and changes neither. |
| FinalityEngines.AncestorCanReach | src/finality/finality_engine.rs:194-235 | After a recomputation every ancestor passes the reachability test, with strictly smaller height and score. |
| FinalityEngines.AnticoneIsUnrelated | src/finality/finality_engine.rs:411-434 | No member of a block's anticone is its ancestor or its descendant. |
| FinalityEngines.FinalBlocksAreAncestorClosed | src/finality/finality_engine.rs:333-355 | In every valid DAG, all ancestors of a final block are final. |
| Pasts.PastStable | src/consensus/dag_traversal.rs:11-34 | The past of a stored block, and its blue score, never change while the DAG grows. |
| Pasts.ScoreOneExactly | src/consensus/ghostdag.rs:49-80 | A score is one if and only if the block is not stored or has no parents. |
| Pasts.AnticoneOfAncestor | src/consensus/dag_traversal.rs:75-99 | A block in the past of the reference has an empty anticone against it. |
| DagTraversals.GetAncestors | src/consensus/dag_traversal.rs:11-34 | Exactly the past of the block. |
| DagTraversals.GetDescendants | src/consensus/dag_traversal.rs:37-59 | Exactly the blocks that have the given one in their past. |
| DagTraversals.GetAnticone | src/consensus/dag_traversal.rs:75-99 | The past of the block without the reference and the past of the reference. |
| BlueSets.BlueSet.BuildBlueSet | src/consensus/blue_set.rs:22-47 | From any enumeration: the reference and the stored blocks whose anticone has at most k members. |
| BlueSets.BlueSet.BuildRedSet | src/consensus/blue_set.rs:50-61 | The stored blocks that are not blue. |
| BlueSets.BlueSet.IsBlue | src/consensus/blue_set.rs:64-72 | True exactly for the reference and its past, whatever k. |
| BlueSets.BlueSet.AreAllAncestorsBlue | src/consensus/blue_set.rs:124-140 | True exactly when the past of the block is blue; always true of a blue block. |
| BlueSets.PastIsBlue | src/consensus/blue_set.rs:22-47 | The whole past of the reference is blue, for every k. |
| BlueSets.BlueIsAncestorClosed | src/consensus/blue_set.rs:124-140 | Blue is closed under ancestors. |
| BlueSets.BlueGrowsWithK | src/consensus/blue_set.rs:22-47 | A larger k makes more blocks blue, and a large enough one all of them. |
| BlueSets.BlueAndRedPartition | src/consensus/blue_set.rs:50-61 | For a stored reference, blue and red are disjoint and together the whole DAG. |
| GhostOrders.SomethingIsReady | src/consensus/ghostdag.rs:262-280 | While a block is unplaced some unplaced block has all its parents placed, so the "shouldn't happen" exit is never taken. |
| GhostOrders.AscendingIsArranged | src/consensus/ghostdag.rs:282-300 | Sorting by score and hash has one possible result per set, whatever the input order. |
| GhostOrders.GhostOrderIsTopological | src/consensus/ghostdag.rs:227-303 | The order contains every stored block once, parents first. |
| RoundOrders.ReadyIsNextHeight | src/consensus/ghostdag.rs:263-277 | Round n places exactly the blocks of chain height n. |
| RoundOrders.GhostOrderExactly | src/consensus/ghostdag.rs:227-303 | In every valid store a list is the generated order if and only if it holds exactly the stored blocks, sorted by chain height, then by descending size of the past, then by hash. |
| Snapshots.CacheKeptExactly | src/consensus/ghostdag.rs:150-182 | A right cache stays right while the DAG grows if and only if no hash was scored before its block - one with parents - arrived. |
| Snapshots.ScoredTooEarly | src/consensus/ghostdag.rs:150-182 | For every accepted block with parents: its hash, scored before the insertion, is cached as 1, and a recomputation afterwards gives more. |
| StaleScores.EarlyScoreGoesStale | src/consensus/ghostdag.rs:150-182 | Such a stale score after every run of n > 0 blocks built on all tips. |
| StaleScores.ScoreInsertScore | src/consensus/ghostdag.rs:150-182 | A client that scores the next block's hash, inserts the block and scores again gets 1 both times, while the block's score is larger by then; the engine stays valid. |
| Snapshots.OldIndexOrder | src/dag/dag_index.rs:192-219 | Kahn's order over the live store and an index copied earlier is the order at the time of the copy: later blocks are missing (all but genesis, if the copy was empty). |
| GhostdagEngines.EngineSurvivesGrowth | src/consensus/ghostdag.rs:33-36 | The engine's invariant holds through insertions into the DAG whose store its copy shares. |
| GhostdagEngines.GeneratedIsAcceptedExactly | src/consensus/ghostdag.rs:227-353 | What the engine generates its own validator accepts if and only if nothing has been inserted since the DAG was attached (or it was attached empty and holds only genesis now). |
| GhostdagEngines.CountBlue | src/consensus/ghostdag.rs:49-80 | For every k the loop over ancestors counts all of them: the score is the size of the past plus one. |
| GhostdagEngines.GhostdagEngine.AttachDag | src/consensus/ghostdag.rs:33-36 | Shares the store, copies the index, empties the cache. |
| GhostdagEngines.GhostdagEngine.CalculateBlueScore | src/consensus/ghostdag.rs:150-182 | A cached answer is given as it is, stale or not, and the exact cache entry is stated; the size of the past plus one unless the hash was cached before its block arrived; a right cache stays right; None without a DAG. |
| GhostdagEngines.GhostdagEngine.CalculateBlueScoreImmutable | src/consensus/ghostdag.rs:49-80 | The same value without touching the cache; right for every block the copied index knows, whatever was cached. |
| GhostdagEngines.GhostdagEngine.GenerateOrdering | src/consensus/ghostdag.rs:227-303 | A function of the blocks the copied index knows, whatever the enumeration and the cache; if nothing was inserted since: each stored block once, parents first, by height, then descending score, then hash. |
| GhostdagEngines.GhostdagEngine.ValidateOrdering | src/consensus/ghostdag.rs:306-353 | Accepts an ordering if and only if it lists every stored block once with parents before children. |
| Scheduling.BuildConflictGraph | src/execution/parallel_executor.rs:93-108 | Two ids are joined exactly when transactions with these ids at different positions conflict. |
| Scheduling.SetsConflictExactly | src/execution/parallel_executor.rs:71-84 | Access sets conflict if and only if one writes a key that the other reads or writes. |
| Scheduling.ConflictExactly | src/execution/parallel_executor.rs:33-84 | Two transactions conflict if and only if they share a party: sender, receiver or contract. |
| Scheduling.GreedyIsProper | src/execution/parallel_executor.rs:127-143 | Conflicting transactions have different colours. |
| Scheduling.ColorAtMostDegree | src/execution/parallel_executor.rs:127-143 | A colour is at most the number of conflicts of its transaction. |
| Scheduling.ColorZeroExactly | src/execution/parallel_executor.rs:119-143 | Colour 0 goes exactly to the transactions without later conflicts. |
| Scheduling.ColorOrderSorted | src/execution/parallel_executor.rs:154-163 | The batches are in order of their earliest member, each used colour once. |
| Schedulers.ColorTransactions | src/execution/parallel_executor.rs:117-143 | The array loop gives each position the least colour that no conflicting position shows, uncoloured ones showing 0. |
| Schedulers.ScheduleParallelBatches | src/execution/parallel_executor.rs:117-166 | The batches partition the transactions, no batch holds a conflicting pair, and they are the colour classes in original order inside, sorted by earliest member, whatever order the hash map yields them in. |
| Schedulers.BatchesPartition | src/execution/parallel_executor.rs:145-153 | Every transaction is in exactly one batch, once. |
| Schedulers.BatchesAreIndependent | src/execution/parallel_executor.rs:117-166 | No two members of a batch conflict. |
| Schedulers.BatchesBound | src/execution/parallel_executor.rs:117-166 | There are at most (greatest number of conflicts + 1) batches. |
| Schedulers.ScheduleIsUnique | src/execution/parallel_executor.rs:117-166 | The colours, hence the batches, are determined by the transactions alone. |
| Schedulers.ConflictingPairReordered | src/execution/parallel_executor.rs:154-155 | Three transfers of which only the last two conflict: the third runs before the second. |
| Schedulers.OrderLostWhenFirstIsFree | src/execution/parallel_executor.rs:117-166 | If nothing conflicts with the first transaction, original order is kept if and only if nothing conflicts at all. |
| OriginalOrder.ColorsOpenInOrder | src/execution/parallel_executor.rs:127-163 | Positive colours come into use, and their batches run, in increasing order. |
| OriginalOrder.OriginalOrderKeptExactly | src/execution/parallel_executor.rs:117-166 | For every block: conflicting transactions run in original order if and only if a condition on the lengths of conflict chains holds, which mentions no colours. |
| Execution.ExecuteDependsOnFootprint | src/execution/parallel_executor.rs:275-448 | Worlds that agree on a transaction's declared access set give it the same receipt and the same writes. |
| Execution.EffectStaysWithinWrites | src/execution/parallel_executor.rs:33-68 | What a transaction writes lies in its declared write set. |
| Outcomes.SucceedsExactly | src/execution/parallel_executor.rs:275-448 | A transaction succeeds if and only if it is signed, has gas, a gas price and (a transfer) an amount, carries the sender's nonce, and: a transfer's sender covers amount plus gas limit times price; a deployment or call of a registered contract starts, ends well and is paid for. |
| Outcomes.FailsFor | src/execution/parallel_executor.rs:289-314 | Which error precedes the payload: gas, price, amount, signature, nonce - and a missing contract. |
| Outcomes.PayloadFailsFor | src/execution/parallel_executor.rs:316-444 | Which error the payload gives: balance; runtime not started, gas not paid for, runtime failed. |
| Outcomes.ReceiptReports | src/execution/parallel_executor.rs:275-448 | A receipt names its transaction; a success reports the gas and no error, a failure an error and no gas. |
| Outcomes.FailureChangesNothing | src/execution/parallel_executor.rs:509-514 | A failed transaction leaves the world as it was. |
| Outcomes.TransferLeaves | src/execution/parallel_executor.rs:316-341 | A successful transfer takes amount and bill from the sender, advances its nonce and credits another receiver, cut off at 64 bits; third accounts, storage and registry stay. |
| Outcomes.DeploymentLeaves | src/execution/parallel_executor.rs:342-397 | After a successful deployment the contract is registered, under its old code if there was one; storage is the old one with what the runtime wrote; the contract's account is empty and third accounts stay. |
| Outcomes.CallLeaves | src/execution/parallel_executor.rs:398-444 | After a successful call storage is the old one with what the runtime wrote; registry and other accounts stay. |
| Outcomes.DeployedCanBeCalled | src/execution/parallel_executor.rs:387-405 | A call right after a successful deployment does not fail for want of the contract. |
| Execution.SuccessChargesSender | src/execution/parallel_executor.rs:342-444 | A successful deployment or call charges the reported gas at its price and advances the nonce by one; onto the sender's own address it leaves the empty account. |
| Execution.RepeatIsRefusedExactly | src/execution/parallel_executor.rs:275-448 | Repeated at once, a transaction that succeeded is refused for its nonce if and only if it is not a deployment with nonce 0 onto its own sender. |
| Serialisability.SerialIsMergeAll | src/execution/parallel_executor.rs:494-514 | For independent transactions, merging overlays computed on one base is running them one at a time, receipts included. |
| Serialisability.MergeAllPermutes | src/execution/parallel_executor.rs:506-514 | The merge order within a batch is irrelevant. |
| Serialisability.BatchIsSerial | src/execution/parallel_executor.rs:494-514 | A batch equals its one-at-a-time run in any order: same world, same receipts. |
| Serialisability.BlockIsSerial | src/execution/parallel_executor.rs:485-518 | The same for any list of batches, whatever the order inside each. |
| Serialisability.ReceiptsAreOwn | src/execution/parallel_executor.rs:506-514 | With distinct hashes, a collection of receipts equal to those of a one-at-a-time run holds for every transaction exactly the receipt it gets in that run. |
| Reordering.RespectfulRunsAlike | src/execution/parallel_executor.rs:485-518 | Conflict equivalence: any two arrangements of the same transactions that agree on the order of conflicting ones end in the same world with the same receipts. |
| Reordering.OrderlyBlockRunsInOriginalOrder | src/execution/parallel_executor.rs:154-155 | Whenever the chain condition holds, parallel execution equals running the block one at a time in its original order: same world, and the same receipt for every transaction. |
| Reordering.ReorderingFailsTransfer | src/execution/parallel_executor.rs:117-166 | What the lost order costs: three transfers that all succeed in original order, of which the last fails on its nonce in parallel. |
| ParallelExecutors.ExecuteTransaction | src/execution/parallel_executor.rs:275-448 | The overlay and receipt produced in place are those of the outcome that the `Outcomes` lemmas characterise, on the base state, failures included. |
| ParallelExecutors.Ledger.MergeOverlay | src/execution/parallel_executor.rs:452-480 | Accounts and storage are overwritten, registered contracts stay, in any order of the entries (the code sorts them). |
| ParallelExecutors.SortByHash | src/execution/parallel_executor.rs:505-507 | A permutation of the batch's results by ascending hash. |
| ParallelExecutors.ExecuteBlockTransactionsParallel | src/execution/parallel_executor.rs:485-518 | For any block with distinct hashes, the ledger is that of a one-at-a-time run of the concatenated batches and every transaction has the receipt it gets there; receipts come in batch order, then hash order. |
| ParallelExecutors.ScheduledBlockIsSerial | src/execution/parallel_executor.rs:485-518 | The same for every order of the members within each batch. |
| ParallelSupply.TransactionBurns | src/execution/parallel_executor.rs:275-448 | One transaction takes out of the supply its fee and what it loses: a self-transferred amount, or the balance of an account deployed onto. |
| ParallelSupply.LostExactly | src/execution/parallel_executor.rs:316-397 | Something is lost if and only if the transaction succeeds as a self-transfer or as a deployment onto an account that holds something. |
| ParallelSupply.ParallelBlockBurns | src/execution/parallel_executor.rs:485-518 | A block executed in parallel takes out of the supply exactly the fees and losses of its one-at-a-time run; the supply never rises. |
| ParallelSupply.ParallelBlockBurnsFeesExactly | src/execution/parallel_executor.rs:485-518 | It burns exactly the fees if and only if no transaction of that run loses anything. |
| ParallelSupply.ParallelBlockBurnsFees | src/execution/parallel_executor.rs:485-518 | Known before the run: a block without self-transfers and deployments burns exactly the fees. |
| LedgerRuns.CapsHoldOnEveryMixedRun | src/execution/parallel_executor.rs:485-518 | Both caps hold on every run that mixes state-manager operations and parallel blocks in any way, the emission account being no party. |
| SingleSender.PathsAgreeExactly | src/execution/parallel_executor.rs:316-341 | Where the state manager accepts a transfer, both paths leave the same accounts if and only if it is not to its own sender. |
| SingleSender.OneSenderKeepsOrder | src/execution/parallel_executor.rs:117-166 | One sender's transactions run one per batch, in original order. |
| SingleSender.SerialIsApplyAll | src/state/state_manager.rs:100-160 | Running transfers one at a time through overlays is folding the state manager over them, skipping failures, with matching receipts. |
| SingleSender.OneSenderParallelIsSequential | src/execution/parallel_executor.rs:485-518 | For every block of validated transfers from one sender to others, parallel execution equals that fold in original order, and receipt i names transaction i and reports the state manager's answer to it. |
| SingleSender.OrderlyTransfersAreSequential | src/execution/parallel_executor.rs:485-518 | The same for any senders, whenever the chain condition holds: same accounts, and every transaction's own receipt reports what the state manager answers. No hypothesis on contracts. |
| Ledgers.TransferBurnsFee | src/state/state_manager.rs:118-160 | A transfer moves exactly `amount`, burns exactly `fee` and overflows nothing; also to oneself. |
| Ledgers.TransferAcceptedExactly | src/state/state_manager.rs:118-160 | Accepted if and only if there is an amount, the nonce is the sender's and the balance covers amount plus fee (or is the largest number, the sum being cut off there); which error otherwise. |
| Ledgers.TransferFrame | src/state/state_manager.rs:118-160 | The sender's nonce advances by one; every other nonce and every third account stays. |
| Ledgers.SelfTransferCostsFee | src/state/state_manager.rs:118-160 | A transfer to oneself costs the fee and one nonce. |
| Ledgers.DeductBurnsFee | src/state/state_manager.rs:185-200 | A deducted fee leaves the supply. |
| Ledgers.DeductExactly | src/state/state_manager.rs:185-200 | Accepted if and only if the balance covers the fee; then exactly the fee is gone, and the nonce and all other accounts stay. |
| Ledgers.CreditMintsAmount | src/state/state_manager.rs:205-224 | A credit mints exactly `amount` and never beyond the cap. |
| Ledgers.CreditExactly | src/state/state_manager.rs:205-224 | Accepted if and only if the amount is zero or the supply stays within 600M; all nonces and all other accounts stay. |
| Ledgers.EmissionIsClamped | src/state/state_manager.rs:63-81 | The emission counter stops at the mining supply and is not part of the supply. |
| Ledgers.EmissionFrame | src/state/state_manager.rs:63-81 | Only the balance of the emission account changes. |
| Ledgers.InitializeExactly | src/state/state_manager.rs:36-52 | An empty genesis wallet gets the allocation and keeps its nonce, both special accounts exist afterwards, nothing else changes. |
| Ledgers.CapsHoldOnEveryRun | src/state/state_manager.rs:36-224 | From a fresh, once initialised state every run of operations that keeps away from the emission account keeps supply at most 600M and emitted at most 500M; failing operations change nothing. |
| Ledgers.InitializeTwiceExactly | src/state/state_manager.rs:33-52 | A repeated initialisation leaves the supply alone if and only if the genesis wallet is not empty; otherwise it mints the allocation again. |
| Ledgers.InitializeKeepsCapsExactly | src/state/state_manager.rs:33-52 | It keeps the caps if and only if the genesis wallet is not empty or there is room for another allocation. |
| Ledgers.InitializeTwiceBreaksCap | src/state/state_manager.rs:33-52 | A run of two ordinary operations after which initialising again breaks the cap. |
| Ledgers.TransferRaisesSupplyExactly | src/state/state_manager.rs:84-160 | A successful transfer raises the supply if and only if it leads out of the emission account. |
| StateManagers.StateManager.constructor | src/state/state_manager.rs:18-31 | A new state holds the two special accounts, empty, under a root that belongs to them. |
| StateManagers.StateManager.InitializeTokenomics | src/state/state_manager.rs:36-52 | Allocates to the genesis wallet whenever its balance is zero and opens the emission account; the stored root stays the root of the stored accounts. |
| StateManagers.StateManager.AddEmittedSupply | src/state/state_manager.rs:63-81 | Raises the emission counter up to the mining supply (`Ledgers.EmissionIsClamped`); root and accounts stay in step. |
| StateManagers.StateManager.GetTotalSupply | src/state/state_manager.rs:84-94 | The saturating loop, in any order, yields the sum of all balances but the emission counter's, cut off at the 64-bit limit. |
| StateManagers.StateManager.ApplyTransaction | src/state/state_manager.rs:100-116 | A transfer is applied with fee gas limit times gas price, saturating; contract transactions change nothing; on Err neither accounts nor root change. |
| StateManagers.StateManager.ApplyTransfer | src/state/state_manager.rs:118-160 | Zero amount, nonce and balance are checked in that order; on success the accounts are those of `Ledgers.TransferBurnsFee`, on Err neither accounts nor root change. |
| StateManagers.StateManager.DeductFee | src/state/state_manager.rs:185-200 | Takes exactly the fee or fails for lack of balance (`Ledgers.DeductExactly`); on Err neither accounts nor root change. |
| StateManagers.StateManager.CreditAccount | src/state/state_manager.rs:205-224 | Credits only while the supply stays within the cap, keeping every nonce and every other account (`Ledgers.CreditExactly`); on Err neither accounts nor root change. |
| StateManagers.StateRootCommits | src/state/state_manager.rs:18-224 | Two non-empty states with equal current roots hold equal accounts, whatever operations led there. |
| StateTrees.HashBindsTree | src/state/state_tree.rs:36-63 | Under a collision-free hash, nodes with equal hashes are equal trees, leaf and internal nodes never confused. |
| StateTrees.CollisionFreeHashExists | src/state/state_tree.rs:36-63 | A collision-free hash for the three kinds of preimage exists. |
| StateTrees.PairUpKeeps | src/state/state_tree.rs:111-134 | One level of pairing halves the nodes (rounding up), keeps all leaves in order and keeps every hash right, odd node included. |
| StateTrees.SparseMerkleTree.UpdateAccount | src/state/state_tree.rs:88-91 | The map gets the entry, and afterwards the tree's leaves are exactly the map's entries. |
| StateTrees.SparseMerkleTree.RebuildTree | src/state/state_tree.rs:111-134 | Whatever order the map yields, the rebuilt tree is well hashed and its leaves are exactly the map's entries, each once. |
| StateTrees.SparseMerkleTree.CalculateRoot | src/state/state_tree.rs:93-99 | In a valid tree the root commits: every well-hashed tree with this root has exactly the account entries as leaves; the zero hash without accounts. |
| StateTrees.RootBindsAccounts | src/state/state_tree.rs:93-134 | Two non-empty trees with equal roots hold equal account maps. |
| TransactionExecutors.ExecuteBlock | src/execution/transaction_executor.rs:37-61 | The loop with its early exit computes the specified result, and the state manager ends in that state. |
| TransactionExecutors.GoesThroughExactly | src/vm/contract_executor.rs:38-119 | One transaction goes through if and only if the state manager accepts it, or its contract runs well and its sender pays. |
| TransactionExecutors.ExecutedIsLongestPrefix | src/execution/transaction_executor.rs:37-61 | `executed` is the length of the longest prefix that goes through; the block succeeds if and only if that is all of it. |
| TransactionExecutors.BlockBurns | src/execution/transaction_executor.rs:37-61 | A block takes out of circulation the reported fees plus what a failing contract has paid. |
| TransactionExecutors.BlockBurnsTotalFeesExactly | src/execution/transaction_executor.rs:37-61 | It burns exactly `total_fees` if and only if it reaches no contract that runs, has the balance for a positive fee, pays it and then fails. |
| TransactionExecutors.FailingCallBurnsUnreported | src/execution/transaction_executor.rs:37-61 | A block of one failing call that burns two and reports no fees. |
| TransactionExecutors.TransferBlockBurnsTotalFees | src/execution/transaction_executor.rs:37-61 | A block of transfers burns exactly `total_fees`, also when it stops early. |
| Difficulty.MeetsDifficultyExactly | src/consensus/mining.rs:403-424 | For every hash of n bytes and d up to 8n: the test passes exactly when the big-endian value is below 2^(8n - d). |
| Difficulty.DifficultyIsMonotone | src/consensus/mining.rs:403-424 | Within that range, meeting d means meeting every lower difficulty. |
| Difficulty.BeyondAllBits | src/consensus/mining.rs:403-424 | Beyond the number of bits exactly the zero hash passes, and only at multiples of eight. |
| Difficulty.NotMonotoneBeyondAllBits | src/consensus/mining.rs:403-424 | The zero hash meets 264 and fails 257. |
| Difficulty.ClampExactly | src/consensus/mining.rs:91-104 | The reward is the smaller of what the schedule wants, at least one, and what is left of 500M. |
| Difficulty.RewardIsCountedInFull | src/consensus/mining.rs:91-104 | The clamped reward never exceeds what may still be emitted, so the counter takes it in full; it is 0 exactly when everything has been emitted. |

## Left out

- Widths of DAG counters: heights, blue scores, `topo_index` and timestamps are unbounded; saturation at 2^64 is not modelled.
- The 10% finality margin is integer division by ten; the code multiplies by 0.1 in floating point and truncates.
- Persistence: RocksDB, serialisation, the block cache and deletion.  The store is a map with insertion and lookup.
- The second duplicate check of `insert_block` (src/dag/blockdag.rs:100-105) repeats the first one and is not modelled separately.
- The "shouldn't happen" exit of `generate_ordering` is proved unreachable and does not appear in `PlaceRounds`.
- Locks and rayon threads: a batch is a set of independent computations on one base state.
- The WASM runtime and its host functions, beyond the `Isolated` hypothesis.
- The finality engine's per-block anticone cache (not invalidated when the DAG grows), parent selection by cached scores, blue-set statistics, co-parents and paths.
- "Equal states have equal roots": leaves are taken in hash-map order, so only the binding direction holds.
- Transaction hashes within a block are assumed distinct where batches are concerned, as the block-level duplicate check ensures.
- `insert_blocks`, `export_dag`, statistics and genesis construction: wrappers that would only add easy members.
- Difficulty adjustment, mempool, node runtime, networking, RPC, CLI, events, indexer, SDKs, wallet, spam filters.
