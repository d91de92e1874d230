/** The ledger engine (src/blockchain/mod.rs): a hash-linked chain of
    blocks, a pool of pending transactions, proof-of-work sealing and the
    fail-fast validity walk.

    `calculate_hash` (SHA-256 over a JSON rendering of the block) is a
    foreign computation; it is modelled as a parameter `h` that maps the
    block's hashable fields to a string. The block's own `hash` field is
    not among them. */
module Blockchain {
  import opened Wrappers
  import opened Models

  /** The fields `calculate_hash` puts into its JSON object. */
  datatype HashInput = HashInput(
    index: nat,
    timestamp: Timestamp,
    transactions: seq<Transaction>,
    previousHash: string,
    nonce: nat)

  /** Any deterministic digest of the hashable fields. */
  type Hasher = HashInput -> string

  datatype BlockchainError = NoTransactions

  datatype Blockchain = Blockchain(
    chain: seq<Block>,
    pending: seq<Transaction>,
    difficulty: nat)

  /** The difficulty `Blockchain::new` hard-codes. */
  const DefaultDifficulty: nat := 2

  /** The previous hash stored in the genesis block. */
  const GenesisPreviousHash: string := "0"

  function Hashable(b: Block): HashInput {
    HashInput(b.index, b.timestamp, b.transactions, b.previousHash, b.nonce)
  }

  /** `calculate_hash`: the digest of everything in `b` except `b.hash`. */
  function CalculateHash(h: Hasher, b: Block): (r: string)
    ensures forall s :: r == h(Hashable(b.(hash := s)))
  {
    h(Hashable(b))
  }

  /** `n` copies of the character '0' (`"0".repeat(n)`). */
  function Zeros(n: nat): (z: string)
    ensures |z| == n
    ensures forall i :: 0 <= i < n ==> z[i] == '0'
  {
    if n == 0 then [] else Zeros(n - 1) + ['0']
  }

  /** `is_hash_valid`: the hash starts with `difficulty` zero characters. */
  predicate IsHashValid(difficulty: nat, hash: string)
  {
    Zeros(difficulty) <= hash
  }

  /** The prefix test says exactly: the first `difficulty` characters exist
      and are all '0'. */
  lemma IsHashValidIff(difficulty: nat, hash: string)
    ensures IsHashValid(difficulty, hash)
        <==> difficulty <= |hash| && forall i :: 0 <= i < difficulty ==> hash[i] == '0'
  {
    var z := Zeros(difficulty);
    if difficulty <= |hash| && forall i :: 0 <= i < difficulty ==> hash[i] == '0' {
      assert z == hash[..difficulty];
    }
  }

  /** The empty string, the hash a fresh candidate block carries, passes
      the test only when the difficulty is 0. */
  lemma EmptyHashValidIffZeroDifficulty(difficulty: nat)
    ensures IsHashValid(difficulty, "") <==> difficulty == 0
  {
    IsHashValidIff(difficulty, "");
  }

  // ---------------------------------------------------------------------
  // Construction and the pool.

  /** `create_genesis_block`: index 0, no transactions, previous hash "0",
      nonce 0, its hash computed once (not mined). */
  function GenesisBlock(h: Hasher, now: Timestamp): (g: Block)
    ensures g.index == 0 && g.nonce == 0 && g.timestamp == now
    ensures g.transactions == [] && g.previousHash == GenesisPreviousHash
    ensures g.hash == CalculateHash(h, g)
  {
    var b := Block(0, now, [], GenesisPreviousHash, "", 0);
    b.(hash := CalculateHash(h, b))
  }

  /** `Blockchain::new`: one genesis block, an empty pool, difficulty 2. */
  function New(h: Hasher, now: Timestamp): (bc: Blockchain)
    ensures |bc.chain| == 1 && bc.chain[0] == GenesisBlock(h, now)
    ensures bc.pending == []
    ensures bc.difficulty == DefaultDifficulty
  {
    Blockchain([GenesisBlock(h, now)], [], DefaultDifficulty)
  }

  /** `add_transaction`: the transaction joins the tail of the pool; the
      chain and the difficulty are untouched. */
  function AddTransaction(bc: Blockchain, tx: Transaction): (r: Blockchain)
    ensures |r.pending| == |bc.pending| + 1
    ensures r.pending[..|bc.pending|] == bc.pending && r.pending[|bc.pending|] == tx
    ensures r.chain == bc.chain && r.difficulty == bc.difficulty
  {
    bc.(pending := bc.pending + [tx])
  }

  /** `get_chain_length`: the number of sealed blocks; zero exactly when
      there is no last block. */
  function GetChainLength(bc: Blockchain): (n: nat)
    ensures n == |bc.chain|
    ensures n == 0 <==> GetLastBlock(bc).None?
  {
    |bc.chain|
  }

  /** `get_pending_transactions_count`: the size of the pool; zero exactly
      when `mine_block` would refuse with `NoTransactions`. */
  function GetPendingTransactionsCount(bc: Blockchain): (n: nat)
    ensures n == |bc.pending|
    ensures n == 0 <==> bc.pending == []
  {
    |bc.pending|
  }

  /** `get_last_block`: the newest block, if there is one. */
  function GetLastBlock(bc: Blockchain): (r: Option<Block>)
    ensures r.None? <==> bc.chain == []
    ensures r.Some? ==> r.value == bc.chain[|bc.chain| - 1]
  {
    if bc.chain == [] then None else Some(bc.chain[|bc.chain| - 1])
  }

  // ---------------------------------------------------------------------
  // Proof of work.

  /** Nonce `n` gives block `b` a hash that meets the difficulty. */
  predicate ValidNonce(h: Hasher, difficulty: nat, b: Block, n: nat) {
    IsHashValid(difficulty, CalculateHash(h, b.(nonce := n)))
  }

  /** The search started from `b` stops: either `b`'s stored hash already
      passes, or some larger nonce is valid. The source's loop has no bound;
      this is the condition under which it ends. */
  ghost predicate SearchEnds(h: Hasher, difficulty: nat, b: Block) {
    IsHashValid(difficulty, b.hash) || exists n: nat :: n > b.nonce && ValidNonce(h, difficulty, b, n)
  }

  /** `proof_of_work`: while the stored hash fails the test, bump the nonce
      and rehash. The stored hash is tested BEFORE any hashing, so a block
      whose hash already passes is returned as it is, and otherwise the
      first nonce hashed is `b.nonce + 1`. */
  method ProofOfWork(h: Hasher, difficulty: nat, b: Block) returns (r: Block)
    requires SearchEnds(h, difficulty, b)
    ensures IsHashValid(difficulty, r.hash)
    ensures r.index == b.index && r.timestamp == b.timestamp
    ensures r.transactions == b.transactions && r.previousHash == b.previousHash
    ensures IsHashValid(difficulty, b.hash) ==> r == b
    ensures !IsHashValid(difficulty, b.hash) ==>
              && r.nonce > b.nonce
              && r.hash == CalculateHash(h, r)
              && forall m: nat :: b.nonce < m < r.nonce ==> !ValidNonce(h, difficulty, b, m)
  {
    r := b;
    if IsHashValid(difficulty, b.hash) {
      return;
    }
    ghost var bound: nat :| bound > b.nonce && ValidNonce(h, difficulty, b, bound);
    while !IsHashValid(difficulty, r.hash)
      invariant b.nonce <= r.nonce <= bound
      invariant r == b.(nonce := r.nonce, hash := r.hash)
      invariant r.nonce == b.nonce ==> r.hash == b.hash
      invariant r.nonce > b.nonce ==> r.hash == CalculateHash(h, r)
      invariant forall m: nat :: b.nonce < m < r.nonce ==> !ValidNonce(h, difficulty, b, m)
      decreases bound - r.nonce
    {
      r := r.(nonce := r.nonce + 1);
      r := r.(hash := CalculateHash(h, r));
    }
  }

  // ---------------------------------------------------------------------
  // Sealing.

  /** The block `mine_block` builds before the search: next index, the
      whole pool in order, linked to the last block, empty hash, nonce 0. */
  function Candidate(bc: Blockchain, now: Timestamp): (b: Block)
    requires bc.chain != []
  {
    var last := GetLastBlock(bc).value;
    Block(last.index + 1, now, bc.pending, last.hash, "", 0)
  }

  /** The mining search ends on `bc` at time `now`: it is only run when the
      pool is non-empty. */
  ghost predicate MiningEnds(h: Hasher, bc: Blockchain, now: Timestamp)
    requires bc.chain != []
  {
    bc.pending != [] ==> SearchEnds(h, bc.difficulty, Candidate(bc, now))
  }

  /** `mine_block`. With an empty pool it fails with `NoTransactions` and
      changes nothing. Otherwise the whole pool is sealed, in order, into
      one new block linked to the last one; the block is appended, the pool
      is drained and the block is returned. For difficulty at least 1 the
      block carries the least nonce from 1 up whose hash passes, and its
      stored hash is the recomputed one; for difficulty 0 the search never
      hashes and the block keeps nonce 0 and the empty hash. */
  method MineBlock(h: Hasher, bc: Blockchain, now: Timestamp)
    returns (next: Blockchain, r: Result<Block, BlockchainError>)
    requires bc.pending != [] ==> bc.chain != [] && MiningEnds(h, bc, now)
    ensures bc.pending == [] ==> next == bc && r == Err(NoTransactions)
    ensures bc.pending != [] ==>
              && r.Ok?
              && next.chain == bc.chain + [r.value]
              && next.pending == []
              && next.difficulty == bc.difficulty
    ensures r.Ok? ==>
              && GetChainLength(next) == GetChainLength(bc) + 1
              && GetPendingTransactionsCount(next) == 0
              && GetLastBlock(next) == Some(r.value)
    ensures r.Ok? ==>
              var last := bc.chain[|bc.chain| - 1];
              && r.value.index == last.index + 1
              && r.value.previousHash == last.hash
              && r.value.transactions == bc.pending
              && r.value.timestamp == now
              && IsHashValid(bc.difficulty, r.value.hash)
    ensures r.Ok? && bc.difficulty >= 1 ==>
              && r.value.hash == CalculateHash(h, r.value)
              && IsLeastValidNonce(h, bc.difficulty, Candidate(bc, now), r.value.nonce)
    ensures r.Ok? && bc.difficulty == 0 ==> r.value.hash == "" && r.value.nonce == 0
    ensures ChainValid(h, bc.difficulty, bc.chain) && bc.difficulty >= 1 ==> ChainValid(h, next.difficulty, next.chain)
    ensures Invariant(h, bc) ==> Invariant(h, next)
  {
    if bc.pending == [] {
      return bc, Err(NoTransactions);
    }
    var candidate := Candidate(bc, now);
    EmptyHashValidIffZeroDifficulty(bc.difficulty);
    var block := ProofOfWork(h, bc.difficulty, candidate);
    next := Blockchain(bc.chain + [block], [], bc.difficulty);
    r := Ok(block);
    if bc.difficulty >= 1 {
      if ChainValid(h, bc.difficulty, bc.chain) {
        AppendPreservesValidity(h, bc.difficulty, bc.chain, block);
      }
      if Invariant(h, bc) {
        AppendPreservesValidity(h, bc.difficulty, bc.chain, block);
        assert next.chain[0] == bc.chain[0];
      }
    }
  }

  /** The nonce the search settles on: the least `n >= 1` whose hash passes. */
  ghost predicate IsLeastValidNonce(h: Hasher, difficulty: nat, b: Block, n: nat) {
    && n >= 1
    && ValidNonce(h, difficulty, b, n)
    && forall m: nat :: 1 <= m < n ==> !ValidNonce(h, difficulty, b, m)
  }

  // ---------------------------------------------------------------------
  // Validation.

  /** Which of the three checks of `is_chain_valid` a block failed. */
  datatype Check = PreviousHashMismatch | HashMismatch | InsufficientWork

  datatype Violation = Violation(at: nat, check: Check)

  /** Block `i` (not the genesis block) passes all three checks. */
  predicate BlockOk(h: Hasher, difficulty: nat, chain: seq<Block>, i: nat)
    requires 1 <= i < |chain|
  {
    && chain[i].previousHash == chain[i - 1].hash
    && chain[i].hash == CalculateHash(h, chain[i])
    && IsHashValid(difficulty, chain[i].hash)
  }

  /** Every block after the genesis block passes the checks. */
  ghost predicate ChainValid(h: Hasher, difficulty: nat, chain: seq<Block>) {
    forall i: nat :: 1 <= i < |chain| ==> BlockOk(h, difficulty, chain, i)
  }

  /** The fail-fast walk of `is_chain_valid` from block `i` on: the first
      block that fails, and the first of its checks that fails, in the
      order previous hash, recomputed hash, proof of work. */
  function FirstViolation(h: Hasher, difficulty: nat, chain: seq<Block>, i: nat): (v: Option<Violation>)
    requires i >= 1
    decreases |chain| - i
    ensures v.None? <==> forall j: nat :: i <= j < |chain| ==> BlockOk(h, difficulty, chain, j)
    ensures v.Some? ==>
              && i <= v.value.at < |chain|
              && !BlockOk(h, difficulty, chain, v.value.at)
              && forall j: nat :: i <= j < v.value.at ==> BlockOk(h, difficulty, chain, j)
    ensures v.Some? ==>
              var b, prev := chain[v.value.at], chain[v.value.at - 1];
              match v.value.check
              case PreviousHashMismatch => b.previousHash != prev.hash
              case HashMismatch => b.previousHash == prev.hash && b.hash != CalculateHash(h, b)
              case InsufficientWork =>
                b.previousHash == prev.hash && b.hash == CalculateHash(h, b) && !IsHashValid(difficulty, b.hash)
  {
    if i >= |chain| then None
    else if !BlockOk(h, difficulty, chain, i) then
      if chain[i].previousHash != chain[i - 1].hash then Some(Violation(i, PreviousHashMismatch))
      else if chain[i].hash != CalculateHash(h, chain[i]) then Some(Violation(i, HashMismatch))
      else Some(Violation(i, InsufficientWork))
    else FirstViolation(h, difficulty, chain, i + 1)
  }

  /** `is_chain_valid`: the walk from block 1 finds nothing. The genesis
      block is never checked. */
  function IsChainValid(h: Hasher, bc: Blockchain): (valid: bool)
    ensures valid <==> ChainValid(h, bc.difficulty, bc.chain)
  {
    FirstViolation(h, bc.difficulty, bc.chain, 1).None?
  }

  /** Appending a block that links to the last one, carries its own
      recomputed hash and passes the difficulty keeps a valid chain valid. */
  lemma AppendPreservesValidity(h: Hasher, difficulty: nat, chain: seq<Block>, b: Block)
    requires chain != []
    requires ChainValid(h, difficulty, chain)
    requires b.previousHash == chain[|chain| - 1].hash
    requires b.hash == CalculateHash(h, b)
    requires IsHashValid(difficulty, b.hash)
    ensures ChainValid(h, difficulty, chain + [b])
  {
    var c := chain + [b];
    forall i: nat | 1 <= i < |c|
      ensures BlockOk(h, difficulty, c, i)
    {
      if i < |chain| {
        assert BlockOk(h, difficulty, chain, i);
        assert c[i] == chain[i] && c[i - 1] == chain[i - 1];
      }
    }
  }

  /** Tampering with a block after the genesis block, leaving its stored
      hash as it was, is caught exactly there when the tampered fields
      hash differently or the link to the previous block was changed: the
      walk stops at that block and not before. A changed link is the link
      mismatch; otherwise it is the hash mismatch. */
  lemma TamperingStopsWalkAt(h: Hasher, difficulty: nat, chain: seq<Block>, i: nat, b: Block)
    requires ChainValid(h, difficulty, chain)
    requires 1 <= i < |chain|
    requires b.hash == chain[i].hash
    requires CalculateHash(h, b) != CalculateHash(h, chain[i]) || b.previousHash != chain[i].previousHash
    ensures var v := FirstViolation(h, difficulty, chain[i := b], 1);
            v.Some? && v.value.at == i
    ensures b.previousHash != chain[i].previousHash ==>
              FirstViolation(h, difficulty, chain[i := b], 1) == Some(Violation(i, PreviousHashMismatch))
    ensures b.previousHash == chain[i].previousHash ==>
              FirstViolation(h, difficulty, chain[i := b], 1) == Some(Violation(i, HashMismatch))
  {
    var c := chain[i := b];
    assert BlockOk(h, difficulty, chain, i);
    assert !BlockOk(h, difficulty, c, i);
    forall j: nat | 1 <= j < i
      ensures BlockOk(h, difficulty, c, j)
    {
      assert BlockOk(h, difficulty, chain, j);
    }
  }

  /** The genesis block is trusted, not rechecked: replacing its hashable
      fields while keeping its stored hash leaves a valid chain valid. */
  lemma GenesisTamperingUndetected(h: Hasher, difficulty: nat, chain: seq<Block>, g: Block)
    requires chain != [] && ChainValid(h, difficulty, chain)
    requires g.hash == chain[0].hash
    ensures ChainValid(h, difficulty, chain[0 := g])
  {
    var c := chain[0 := g];
    forall i: nat | 1 <= i < |c|
      ensures BlockOk(h, difficulty, c, i)
    {
      assert BlockOk(h, difficulty, chain, i);
    }
  }

  // ---------------------------------------------------------------------
  // The ledger invariant.

  /** What every ledger reachable from `new` satisfies: a genesis block as
      `create_genesis_block` builds it, block indices equal to positions,
      no empty block after the genesis block, every later block passing the
      validity checks, and a positive difficulty. */
  ghost predicate Invariant(h: Hasher, bc: Blockchain) {
    && bc.chain != []
    && bc.difficulty >= 1
    && var g := bc.chain[0];
    && g.index == 0 && g.nonce == 0 && g.transactions == []
    && g.previousHash == GenesisPreviousHash && g.hash == CalculateHash(h, g)
    && (forall i :: 0 <= i < |bc.chain| ==> bc.chain[i].index == i)
    && (forall i :: 1 <= i < |bc.chain| ==> bc.chain[i].transactions != [])
    && ChainValid(h, bc.difficulty, bc.chain)
  }

  /** A fresh ledger satisfies the invariant, and so passes validation. */
  lemma NewEstablishesInvariant(h: Hasher, now: Timestamp)
    ensures Invariant(h, New(h, now))
    ensures IsChainValid(h, New(h, now))
    ensures GetChainLength(New(h, now)) == 1 && GetPendingTransactionsCount(New(h, now)) == 0
  {
  }

  /** Accepting a transaction keeps the invariant and grows the pool count by one. */
  lemma AddTransactionPreservesInvariant(h: Hasher, bc: Blockchain, tx: Transaction)
    requires Invariant(h, bc)
    ensures Invariant(h, AddTransaction(bc, tx))
    ensures GetPendingTransactionsCount(AddTransaction(bc, tx)) == GetPendingTransactionsCount(bc) + 1
    ensures GetChainLength(AddTransaction(bc, tx)) == GetChainLength(bc)
  {
  }
}
