/**
  Blocks, what is hashed of them, and the checks a block must pass on its own
  (src/core/block.rs).

  SHA-256, the proof-of-work test and the reward schedule enter through `Rules`; the
  wall clock is an argument.
 */
module Blocks {
  import opened Collections
  import opened Graphs

  const ZERO_HASH: BlockHash := 0

  /** Tolerance for timestamps ahead of the clock, in seconds. */
  const MAX_FUTURE := 3600

  datatype Header = Header(
    parentHashes: seq<BlockHash>,
    timestamp: nat,
    nonce: nat,
    difficulty: nat,
    baseFee: nat,
    stateRoot: BlockHash,
    version: nat,
    blueScore: nat,
    selectedParent: Option<BlockHash>,
    chainHeight: nat,
    topoIndex: nat)

  /** `txHashes` holds the hash of each transaction; nothing else of a transaction matters to the DAG. */
  datatype Block = Block(
    hash: BlockHash,
    header: Header,
    txHashes: seq<BlockHash>,
    producer: nat,
    reward: nat,
    height: nat)

  /**
    The hashed content: parent hashes directly followed by transaction hashes, then
    fixed-width fields, with a zero word for a missing selected parent.
   */
  datatype Preimage = Preimage(
    words: seq<BlockHash>,
    timestamp: nat,
    nonce: nat,
    difficulty: nat,
    baseFee: nat,
    stateRoot: BlockHash,
    version: nat,
    blueScore: nat,
    chainHeight: nat,
    topoIndex: nat,
    selected: BlockHash,
    producer: nat)

  datatype Rules = Rules(
    sha: Preimage -> BlockHash,
    meetsDifficulty: (BlockHash, nat) -> bool,
    reward: nat -> nat)

  ghost predicate CollisionFree(rules: Rules) {
    forall p, q :: rules.sha(p) == rules.sha(q) ==> p == q
  }

  datatype InsertError =
    | HashMismatch
    | InsufficientWork
    | UnexpectedReward
    | DuplicateTransactions
    | TimestampTooFarAhead
    | AlreadyExists
    | MissingParent(parent: BlockHash)
    | SecondGenesis

  datatype Checked = Pass | Fail(error: InsertError)

  function PreimageOf(b: Block): Preimage {
    var h := b.header;
    Preimage(h.parentHashes + b.txHashes, h.timestamp, h.nonce, h.difficulty, h.baseFee, h.stateRoot, h.version,
             h.blueScore, h.chainHeight, h.topoIndex,
             if h.selectedParent.Some? then h.selectedParent.value else ZERO_HASH,
             b.producer)
  }

  function CalculateHash(rules: Rules, b: Block): BlockHash {
    rules.sha(PreimageOf(b))
  }

  function ValidateBasic(rules: Rules, now: nat, b: Block): Checked {
    if b.hash != CalculateHash(rules, b) then Fail(HashMismatch)
    else if b.header.difficulty > 0 && !rules.meetsDifficulty(b.hash, b.header.difficulty) then Fail(InsufficientWork)
    else if b.reward != rules.reward(|b.txHashes|) then Fail(UnexpectedReward)
    else if |set t | t in b.txHashes| != |b.txHashes| then Fail(DuplicateTransactions)
    else if b.header.timestamp > now + MAX_FUTURE then Fail(TimestampTooFarAhead)
    else Pass
  }

  /** Overwrites the consensus fields and re-computes the hash. */
  function SetConsensusMetadata(rules: Rules, b: Block, selected: Option<BlockHash>, blueScore: nat,
                                chainHeight: nat, topoIndex: nat): Block
  {
    var header := b.header.(selectedParent := selected, blueScore := blueScore,
                            chainHeight := chainHeight, topoIndex := topoIndex);
    var b' := b.(header := header, height := chainHeight);
    b'.(hash := CalculateHash(rules, b'))
  }

  /** Two blocks that differ in `topoIndex` differ in hash. */
  lemma TopoIndexSeparates(rules: Rules, a: Block, b: Block)
    requires CollisionFree(rules) && a.header.topoIndex != b.header.topoIndex
    ensures CalculateHash(rules, a) != CalculateHash(rules, b)
  {
    assert PreimageOf(a) != PreimageOf(b);
  }

  /** The checks a block must pass on its own: own hash, work, reward, distinct transactions, at most an hour ahead. */
  lemma BasicChecksExactly(rules: Rules, now: nat, b: Block)
    ensures ValidateBasic(rules, now, b).Pass? <==>
              && b.hash == CalculateHash(rules, b)
              && (b.header.difficulty == 0 || rules.meetsDifficulty(b.hash, b.header.difficulty))
              && b.reward == rules.reward(|b.txHashes|)
              && NoRepeats(b.txHashes)
              && b.header.timestamp <= now + 3600
  {
    hide CalculateHash;
    DistinctExactly(b.txHashes);
    assert (set t | t in b.txHashes) == Elements(b.txHashes);
  }

  /** What a hash covers: everything but the stored hash, the reward and the cached height. */
  lemma HashBindsBlock(rules: Rules, a: Block, b: Block)
    requires CollisionFree(rules)
    ensures CalculateHash(rules, a) == CalculateHash(rules, b) <==>
              && a.header.parentHashes + a.txHashes == b.header.parentHashes + b.txHashes
              && a.producer == b.producer && SameWork(a.header, b.header) && SameConsensus(a.header, b.header)
  {
    if PreimageOf(a) == PreimageOf(b) {
      assert CalculateHash(rules, a) == CalculateHash(rules, b);
    }
  }

  ghost predicate SameWork(a: Header, b: Header) {
    && a.timestamp == b.timestamp && a.nonce == b.nonce && a.difficulty == b.difficulty
    && a.baseFee == b.baseFee && a.stateRoot == b.stateRoot && a.version == b.version
  }

  ghost predicate SameConsensus(a: Header, b: Header) {
    && a.blueScore == b.blueScore && a.chainHeight == b.chainHeight && a.topoIndex == b.topoIndex
    && SelectedWord(a) == SelectedWord(b)
  }

  /** A missing selected parent is hashed like the zero hash. */
  function SelectedWord(h: Header): BlockHash {
    match h.selectedParent
    case Some(p) => p
    case None => 0
  }

  /** `stored` carries everything that was submitted with `b`. */
  ghost predicate CarriesSubmission(b: Block, stored: Block) {
    && stored.txHashes == b.txHashes && stored.producer == b.producer && stored.reward == b.reward
    && stored.header.parentHashes == b.header.parentHashes && SameWork(stored.header, b.header)
  }
}
