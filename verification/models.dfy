/** The record types shared by the ledger, the inventory and the supply
    chain (src/models/mod.rs), and the hand-written equality and hashing of
    `Currency` and `RetailToken`. */
module Models {

  /** A 128-bit UUID, as its numeric value; the core only compares and
      stores them. */
  type Uuid = x: int | 0 <= x < 0x1_0000_0000_0000_0000_0000_0000_0000_0000

  /** A UTC instant (`DateTime<Utc>`), in nanoseconds since the Unix epoch. */
  type Timestamp = int

  /** The bit pattern of an `f64`. Prices and amounts are carried and
      hashed but never computed with by the modelled core. */
  type F64 = bv64

  /** The text of a `serde_json::Value`, stored verbatim. */
  type JsonValue = string

  /** Rust's `u32`. */
  type U32 = x: int | 0 <= x < 0x1_0000_0000

  datatype Product = Product(
    id: Uuid,
    sku: string,
    name: string,
    description: string,
    price: F64,
    quantity: U32,
    manufacturer: string,
    createdAt: Timestamp)

  datatype RetailToken = RetailToken(symbol: string, amount: F64, loyaltyPoints: U32)

  datatype Currency = BTC | ETH | USDT | RETAIL(token: RetailToken)

  datatype TransactionStatus = Pending | Completed | Failed

  datatype Transaction = Transaction(
    id: Uuid,
    fromAddress: string,
    toAddress: string,
    amount: F64,
    currency: Currency,
    timestamp: Timestamp,
    status: TransactionStatus)

  /** A ledger block. `index` and `nonce` are `u64` in the source. */
  datatype Block = Block(
    index: nat,
    timestamp: Timestamp,
    transactions: seq<Transaction>,
    previousHash: string,
    hash: string,
    nonce: nat)

  datatype SupplyChainAction = Manufactured | Shipped | Received | Sold

  datatype SupplyChainRecord = SupplyChainRecord(
    productId: Uuid,
    location: string,
    handler: string,
    timestamp: Timestamp,
    action: SupplyChainAction,
    metadata: JsonValue)

  // ---------------------------------------------------------------------
  // RetailToken: equality and hash look at the symbol only.

  /** `impl PartialEq for RetailToken`. */
  predicate TokenEq(a: RetailToken, b: RetailToken) {
    a.symbol == b.symbol
  }

  /** The strings `impl Hash for RetailToken` writes into the hasher, in
      order. Two tokens hash alike exactly when they feed the same strings. */
  function TokenHashFeed(t: RetailToken): seq<string> {
    [t.symbol]
  }

  /** The token hash agrees with token equality, in both directions, and
      neither looks at the amount or the loyalty points. */
  lemma TokenHashAgreesWithEq(a: RetailToken, b: RetailToken)
    ensures TokenEq(a, b) <==> TokenHashFeed(a) == TokenHashFeed(b)
    ensures TokenEq(a, b) <==> TokenEq(a.(amount := b.amount, loyaltyPoints := b.loyaltyPoints), b)
  {
    if TokenHashFeed(a) == TokenHashFeed(b) {
      assert TokenHashFeed(a)[0] == TokenHashFeed(b)[0];
    }
  }

  // ---------------------------------------------------------------------
  // Currency: BTC, ETH and USDT by variant; RETAIL by token symbol.

  /** `impl PartialEq for Currency`. */
  predicate CurrencyEq(a: Currency, b: Currency) {
    match (a, b)
    case (BTC, BTC) => true
    case (ETH, ETH) => true
    case (USDT, USDT) => true
    case (RETAIL(x), RETAIL(y)) => x.symbol == y.symbol
    case _ => false
  }

  /** The strings `impl Hash for Currency` writes into the hasher, in order. */
  function CurrencyHashFeed(c: Currency): seq<string> {
    match c
    case BTC => ["BTC"]
    case ETH => ["ETH"]
    case USDT => ["USDT"]
    case RETAIL(t) => ["RETAIL", t.symbol]
  }

  /** The fixed variants are equal to themselves and to nothing else. */
  lemma FixedCurrencyEq(c: Currency, other: Currency)
    requires !c.RETAIL?
    ensures CurrencyEq(c, other) <==> other == c
  {
  }

  /** Two RETAIL currencies are equal exactly when their symbols are; the
      token's amount and loyalty points play no part. */
  lemma RetailCurrencyEq(a: RetailToken, b: RetailToken)
    ensures CurrencyEq(RETAIL(a), RETAIL(b)) <==> a.symbol == b.symbol
    ensures CurrencyEq(RETAIL(a), RETAIL(b)) <==> TokenEq(a, b)
  {
  }

  /** The `Eq` marker claims an equivalence relation; it is one. */
  lemma CurrencyEqIsEquivalence(a: Currency, b: Currency, c: Currency)
    ensures CurrencyEq(a, a)
    ensures CurrencyEq(a, b) ==> CurrencyEq(b, a)
    ensures CurrencyEq(a, b) && CurrencyEq(b, c) ==> CurrencyEq(a, c)
  {
  }

  /** Hash/equality agreement: equal currencies feed the hasher the same
      strings, and currencies that feed the same strings are equal. */
  lemma CurrencyHashAgreesWithEq(a: Currency, b: Currency)
    ensures CurrencyEq(a, b) <==> CurrencyHashFeed(a) == CurrencyHashFeed(b)
  {
    var fa, fb := CurrencyHashFeed(a), CurrencyHashFeed(b);
    if fa == fb {
      assert |fa| == |fb| && fa[0] == fb[0];
      if a.RETAIL? {
        assert fa[1] == fb[1];
      }
    }
  }
}
