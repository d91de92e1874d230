# RetailChain ledger, inventory and supply-chain core in Dafny

This project models the core of RetailChain, a retail-simulation system
written in Rust. The core has four parts:

- The ledger engine (`Blockchain`). It keeps a hash-linked chain of blocks
  that starts with a genesis block, and a pool of pending transactions. It
  seals the whole pool into one proof-of-work block, and it validates the
  chain with a fail-fast walk from block 1.
- The shared record types (`Models`). They include the hand-written
  equality and hash of `Currency` and `RetailToken`, which compare RETAIL
  currencies and tokens by symbol only.
- The stock bookkeeping (`Inventory`): products keyed by id, restocking,
  sales that cannot oversell, and a low-stock query.
- The per-product movement log (`SupplyChain`): registered products, and
  for each product id the records in the order they were made.

Every operation is a pure function of the old state. An operation that
both changes the state and returns something (`add_product` in the
inventory, `update_stock`, `sell_product`, `record_movement`) returns a
`Step`: the new state plus the returned value, where an error path returns
the old state. `add_transaction` and the supply chain's `add_product` return
nothing in the source, so they return the bare new state. `proof_of_work`
and `mine_block` are methods because they search. The ledger's
`calculate_hash` (SHA-256 of a JSON rendering) is a parameter
`h: HashInput -> string`. `HashInput` holds the block's index, timestamp,
transactions, previous hash and nonce. It does not hold the block's own
hash. The clock and `Uuid::new_v4` are parameters too (`now` or `createdAt`, and `id`).

Files: `wrappers.dfy` (Option/Result/Outcome/Step), `models.dfy`,
`blockchain.dfy`, `inventory.dfy`, `supply_chain.dfy`.

Behaviour of the ledger code that the model keeps:

- `Blockchain::new` takes no difficulty and hard-codes 2
  (src/blockchain/mod.rs:18).
- `proof_of_work` tests the block's stored hash, still the empty string,
  before it hashes anything, and increments the nonce before each hash
  (src/blockchain/mod.rs:73-78). So the first nonce a mined block is hashed
  with is 1. At difficulty 0 the empty hash already passes: the block keeps
  nonce 0 and the hash `""`, and such a block fails the recomputed-hash
  check of `is_chain_valid` unless its digest is itself empty. Difficulty 0 does not arise, because `new`
  fixes it at 2.

## Model

| member | source | states |
|---|---|---|
| Blockchain.CalculateHash | src/blockchain/mod.rs:84-98 | the digest depends only on index, timestamp, transactions, previous hash and nonce: changing the block's stored hash does not change it |
| Blockchain.IsHashValidIff | src/blockchain/mod.rs:80-82 | `is_hash_valid` holds iff the hash has at least `difficulty` characters and the first `difficulty` of them are all '0' |
| Blockchain.EmptyHashValidIffZeroDifficulty | src/blockchain/mod.rs:73-82 | the empty hash of a fresh candidate block passes the test only at difficulty 0, so for difficulty at least 1 the search loop always runs |
| Blockchain.GenesisBlock | src/blockchain/mod.rs:26-41 | the genesis block has index 0, nonce 0, no transactions and previous hash "0", and it stores the hash of its own fields |
| Blockchain.New | src/blockchain/mod.rs:14-24 | a fresh ledger holds exactly the genesis block, has an empty pool and has difficulty 2 |
| Blockchain.AddTransaction | src/blockchain/mod.rs:43-46 | the pool grows by one, the old pool is kept as its prefix and the new transaction is last; the chain and the difficulty do not change |
| Blockchain.GetChainLength | src/blockchain/mod.rs:124-126 | the number of sealed blocks, which is 0 exactly when there is no last block |
| Blockchain.GetPendingTransactionsCount | src/blockchain/mod.rs:133-136 | the size of the pool, which is 0 exactly when the pool is empty, the case in which `mine_block` refuses |
| Blockchain.GetLastBlock | src/blockchain/mod.rs:128-131 | there is no last block exactly when the chain is empty; otherwise it is the final block |
| Blockchain.ProofOfWork | src/blockchain/mod.rs:73-78 | the result passes the difficulty test and keeps the index, timestamp, transactions and previous hash. A block whose stored hash already passes comes back unchanged. Otherwise the final nonce is the least nonce above the start whose hash passes, and the stored hash is the recomputed one |
| Blockchain.MineBlock | src/blockchain/mod.rs:48-71 | with an empty pool the result is `NoTransactions` and nothing changes. Otherwise one block is appended and returned, the pool is drained and earlier blocks are kept. The block has the next index, links to the last block's hash and holds the old pool in order. At difficulty at least 1 its nonce is the least n >= 1 with a passing hash and its hash is the recomputed one; at difficulty 0 it keeps nonce 0 and hash "". The chain length grows by one, the pending count becomes 0 and the returned block is the new last block. At difficulty at least 1 a valid chain stays valid, and the ledger invariant (which includes difficulty at least 1) is preserved |
| Blockchain.FirstViolation | src/blockchain/mod.rs:100-122 | the fail-fast walk: it reports nothing iff every block from the start position passes all three checks. Otherwise it reports the first failing block and the first of its checks that fails (link, recomputed hash, then difficulty) |
| Blockchain.IsChainValid | src/blockchain/mod.rs:100-122 | `is_chain_valid` holds iff every block after the genesis block links to its predecessor's hash, stores its recomputed hash and passes the difficulty test |
| Blockchain.AppendPreservesValidity | src/blockchain/mod.rs:100-122 | appending a block that links to the last hash, stores its recomputed hash and passes the difficulty keeps a valid chain valid |
| Blockchain.TamperingStopsWalkAt | src/blockchain/mod.rs:100-122 | altering the hashed fields of block i >= 1 in a valid chain, while keeping its stored hash, makes the walk stop exactly at block i when the altered fields hash differently from the original ones or the link to the previous block was changed. A changed link is reported as a link mismatch with no condition on the hash; a kept link as a hash mismatch |
| Blockchain.GenesisTamperingUndetected | src/blockchain/mod.rs:101 | the genesis block is never rechecked: replacing its hashed fields while keeping its hash leaves a valid chain valid |
| Blockchain.NewEstablishesInvariant | src/blockchain/mod.rs:14-41 | a fresh ledger satisfies the ledger invariant, passes validation, has length 1 and has no pending transactions |
| Blockchain.AddTransactionPreservesInvariant | src/blockchain/mod.rs:43-46 | accepting a transaction keeps the invariant, raises the pending count by one and keeps the chain length |
| Models.TokenHashAgreesWithEq | src/models/mod.rs:94-106 | two retail tokens are equal iff their hashes are fed the same strings; the amount and loyalty points play no part |
| Models.FixedCurrencyEq | src/models/mod.rs:58-67 | BTC, ETH and USDT are each equal to themselves and to no other currency |
| Models.RetailCurrencyEq | src/models/mod.rs:58-68 | two RETAIL currencies are equal iff their token symbols are equal |
| Models.CurrencyEqIsEquivalence | src/models/mod.rs:58-70 | currency equality is reflexive, symmetric and transitive, as the `Eq` impl claims |
| Models.CurrencyHashAgreesWithEq | src/models/mod.rs:58-84 | two currencies are equal iff their hashes are fed the same strings: `["BTC"]`, `["ETH"]`, `["USDT"]` or `["RETAIL", symbol]` |
| Inventory.New | src/inventory/mod.rs:11-16 | a new manager holds no products and keeps the given threshold |
| Inventory.AddProduct | src/inventory/mod.rs:18-40 | the returned product has exactly the given fields and is stored under its id; every other entry and the threshold are unchanged |
| Inventory.UpdateStock | src/inventory/mod.rs:42-48 | an unknown id gives `ProductNotFound` and no change. Otherwise that product's quantity becomes exactly the new quantity and nothing else changes |
| Inventory.SellProduct | src/inventory/mod.rs:50-60 | an unknown id gives `ProductNotFound` and a quantity above the stock gives `InsufficientStock`; neither changes anything. A sale lowers that product's quantity by exactly the amount sold, never below zero, and leaves everything else unchanged |
| Inventory.GetLowStockProducts | src/inventory/mod.rs:62-66 | exactly the stored products whose quantity is at most the threshold, as a set |
| Inventory.GetProduct | src/inventory/mod.rs:68-70 | the stored product under the id, or none when the id is absent |
| Inventory.GetAllProducts | src/inventory/mod.rs:72-74 | exactly the stored products, as a set |
| Inventory.LowStockAreStored | src/inventory/mod.rs:62-74 | the low-stock set is the set of all products cut down by the threshold, and `get_product` finds each of them under its id |
| Inventory.AddThenGet | src/inventory/mod.rs:18-40 | after `add_product`, `get_product` returns the new product under its id and the same result as before for every other id |
| Inventory.UpdateStockLowStock | src/inventory/mod.rs:42-66 | after a restock the product is low on stock iff the new quantity is at most the threshold; no other product's low-stock status changes |
| Inventory.SaleKeepsLowStock | src/inventory/mod.rs:50-66 | a sale never takes a product out of the low-stock set |
| SupplyChain.New | src/supply_chain/mod.rs:12-17 | a new manager has no records and no products, and it satisfies the invariant |
| SupplyChain.AddProduct | src/supply_chain/mod.rs:19-21 | the product is stored (or replaced) under its id, other products are unchanged and the movement records are untouched |
| SupplyChain.RecordMovement | src/supply_chain/mod.rs:23-53 | an unregistered product gives `ProductNotFound` and no change. Otherwise the new record is appended to the end of that product's history (a missing history counts as empty), is returned, and every other history is unchanged; the invariant is kept |
| SupplyChain.GetProductHistory | src/supply_chain/mod.rs:55-57 | the history stored for the id, or none when there is none |
| SupplyChain.HasManufactured | src/supply_chain/mod.rs:63-64 | the `any` scan holds iff some record in the history has the `Manufactured` action |
| SupplyChain.VerifyAuthenticity | src/supply_chain/mod.rs:59-68 | `ProductNotFound` when the id has no history; otherwise true iff some record has the `Manufactured` action |
| SupplyChain.GetCurrentLocation | src/supply_chain/mod.rs:70-75 | none when there is no history or it is empty; otherwise the location of the most recent record |
| SupplyChain.GetProductMovementsCount | src/supply_chain/mod.rs:77-79 | the length of the history, or none when there is none |
| SupplyChain.RecordMovementObservations | src/supply_chain/mod.rs:23-79 | after a successful `record_movement` the count is one more than before (an absent count is 0) and the current location is the one just recorded; other products' counts, locations and histories do not change |
| SupplyChain.RecordMovementAuthenticity | src/supply_chain/mod.rs:23-68 | recording `Manufactured` makes the product authentic. Recording any other action does not change the verdict of a product that already has a history |
| SupplyChain.AddedProductNotFound | src/supply_chain/mod.rs:19-68 | a product registered with `add_product` but never moved gives `ProductNotFound` from `verify_authenticity`, and has no location and no count |
| SupplyChain.HistoryHasLocation | src/supply_chain/mod.rs:23-75 | under the invariant, every product with a history has a current location: that of its last record |

## Left out

- SHA-256, the `serde_json` rendering and `hex::encode` inside `calculate_hash` are foreign library code. The digest is any deterministic function of the hashed fields, passed in as `h`.
- Blockchain.ProofOfWork: the source loops without bound. The model requires that the search ends, either because the stored hash already passes or because some larger nonce is valid (`SearchEnds`). A search that never finds a valid nonce, which the source would loop on forever, is not modelled.
- Blockchain.MineBlock: the same requirement, through `MiningEnds`. The model also excludes a non-empty pool on an empty chain, where `self.chain.last().unwrap()` panics (the public `chain` field lets a caller empty it). An empty pool is handled on any chain, empty or not, and gives `NoTransactions`.
- Blockchain.MineBlock: the `u64` index and nonce are unbounded `nat`s, so the model ignores the overflow of `last_block.index + 1` and `nonce += 1` at 2^64 (a panic in a debug build, a wrap to 0 in a release build). The nonce overflow needs 2^64 hash attempts, because `proof_of_work` is private and starts from nonce 0. The index overflow needs 2^64 blocks only on a ledger built through `new`, `add_transaction` and `mine_block` (the ledger invariant keeps each index equal to its position). A caller who writes index u64::MAX into the last block through the public `chain` field reaches it in one `mine_block`, and there the model's block gets index 2^64.
- `Utc::now()` and `Uuid::new_v4()` read the clock and draw random ids. They are parameters (`now` or `createdAt`, and `id`). `add_product` in the inventory overwrites an existing entry when the given id is already present, as `HashMap::insert` does.
- The `println!` diagnostics are console output. The block and check that `is_chain_valid` reports are kept as the `Violation` that `FirstViolation` returns.
- `f64` prices and amounts are their bit patterns (`F64`) and are never computed with. A `serde_json::Value` is its text. `DateTime<Utc>` is an integer instant.
- Result order: `get_low_stock_products` and `get_all_products` return `Vec`s in `HashMap` iteration order, which is unspecified. They are modelled as sets.
- Rust's `Hash` trait: a hash is modelled as the sequence of strings written into the hasher, not as a hasher state.
- The unused error variants `BlockchainError::InvalidChain` and `SupplyChainError::InvalidMovement` are never returned.
- src/payment/mod.rs (floating-point exchange rates), src/api.rs (HTTP server), src/main.rs (demo driver) and src/lib.rs (re-exports) are not part of this model.
