/** The per-product movement log (src/supply_chain/mod.rs): registered
    products and, per product id, the list of its movement records in the
    order they were recorded. The record's timestamp, taken from the clock
    in the source, is a parameter here. */
module SupplyChain {
  import opened Wrappers
  import opened Models

  datatype SupplyChainError = ProductNotFound

  datatype SupplyChainManager = SupplyChainManager(
    records: map<Uuid, seq<SupplyChainRecord>>,
    products: map<Uuid, Product>)

  /** What every manager built from `new` by these operations satisfies:
      only registered products have histories, no history is empty, and
      every record in a history names that history's product. */
  ghost predicate Invariant(m: SupplyChainManager) {
    && m.records.Keys <= m.products.Keys
    && (forall id :: id in m.records ==> m.records[id] != [])
    && (forall id, k :: id in m.records && 0 <= k < |m.records[id]| ==> m.records[id][k].productId == id)
  }

  /** `SupplyChainManager::new`. */
  function New(): (m: SupplyChainManager)
    ensures m.records == map[] && m.products == map[]
    ensures Invariant(m)
  {
    SupplyChainManager(map[], map[])
  }

  /** `add_product`: registers (or replaces) the product under its id; the
      movement records are untouched. */
  function AddProduct(m: SupplyChainManager, p: Product): (r: SupplyChainManager)
    ensures r.records == m.records
    ensures p.id in r.products && r.products[p.id] == p
    ensures forall k :: k != p.id ==> (k in r.products <==> k in m.products)
    ensures forall k :: k != p.id && k in m.products ==> r.products[k] == m.products[k]
    ensures Invariant(m) ==> Invariant(r)
  {
    m.(products := m.products[p.id := p])
  }

  /** `record_movement`: an unregistered product is `ProductNotFound` and
      changes nothing. Otherwise the new record is appended to the end of
      that product's history (a missing history starts empty), every other
      history is as it was, and the record is returned. */
  function RecordMovement(
    m: SupplyChainManager, productId: Uuid, location: string, handler: string,
    action: SupplyChainAction, metadata: JsonValue, now: Timestamp)
    : (s: Step<SupplyChainManager, Result<SupplyChainRecord, SupplyChainError>>)
    ensures productId !in m.products ==> s == Step(m, Err(ProductNotFound))
    ensures productId in m.products ==>
              && s.result == Ok(SupplyChainRecord(productId, location, handler, now, action, metadata))
              && s.state.products == m.products
              && s.state.records.Keys == m.records.Keys + {productId}
              && s.state.records[productId] == History(m, productId) + [s.result.value]
              && forall k :: k in m.records && k != productId ==> s.state.records[k] == m.records[k]
    ensures Invariant(m) ==> Invariant(s.state)
  {
    if productId !in m.products then Step(m, Err(ProductNotFound))
    else
      var record := SupplyChainRecord(productId, location, handler, now, action, metadata);
      var history := if productId in m.records then m.records[productId] else [];
      Step(m.(records := m.records[productId := history + [record]]), Ok(record))
  }

  /** The recorded history of `id`, empty when there is none. */
  function History(m: SupplyChainManager, id: Uuid): seq<SupplyChainRecord> {
    if id in m.records then m.records[id] else []
  }

  /** `get_product_history`. */
  function GetProductHistory(m: SupplyChainManager, id: Uuid): (r: Option<seq<SupplyChainRecord>>)
    ensures r.None? <==> id !in m.records
    ensures r.Some? ==> r.value == m.records[id]
  {
    if id in m.records then Some(m.records[id]) else None
  }

  /** `history.iter().any(..)` for the `Manufactured` action. */
  function HasManufactured(history: seq<SupplyChainRecord>): (r: bool)
    ensures r <==> exists k :: 0 <= k < |history| && history[k].action == Manufactured
  {
    if history == [] then false
    else history[0].action == Manufactured || HasManufactured(history[1..])
  }

  /** `verify_authenticity`: `ProductNotFound` when there is no history,
      even for a registered product; otherwise whether some record of the
      history is a `Manufactured` one. */
  function VerifyAuthenticity(m: SupplyChainManager, id: Uuid): (r: Result<bool, SupplyChainError>)
    ensures id !in m.records ==> r == Err(ProductNotFound)
    ensures id in m.records ==>
              r.Ok? && (r.value <==> exists k :: 0 <= k < |m.records[id]| && m.records[id][k].action == Manufactured)
  {
    if id !in m.records then Err(ProductNotFound)
    else
      var history := m.records[id];
      Ok(HasManufactured(history) && |history| > 0)
  }

  /** `get_current_location`: the location of the last record, if any. */
  function GetCurrentLocation(m: SupplyChainManager, id: Uuid): (r: Option<string>)
    ensures r.None? <==> id !in m.records || m.records[id] == []
    ensures r.Some? ==> r.value == m.records[id][|m.records[id]| - 1].location
  {
    if id !in m.records || m.records[id] == [] then None
    else Some(m.records[id][|m.records[id]| - 1].location)
  }

  /** `get_product_movements_count`. */
  function GetProductMovementsCount(m: SupplyChainManager, id: Uuid): (r: Option<nat>)
    ensures r.None? <==> id !in m.records
    ensures r.Some? ==> r.value == |m.records[id]|
  {
    if id in m.records then Some(|m.records[id]|) else None
  }

  /** The count of movements, an absent history counting as 0. */
  function CountOrZero(c: Option<nat>): nat {
    match c
    case Some(n) => n
    case None => 0
  }

  /** After a successful `record_movement`: the movement count is one more
      than before, the current location is the one just recorded, and
      every other product's count, location and history are unaffected. */
  lemma RecordMovementObservations(
    m: SupplyChainManager, productId: Uuid, location: string, handler: string,
    action: SupplyChainAction, metadata: JsonValue, now: Timestamp, other: Uuid)
    requires productId in m.products
    ensures var s := RecordMovement(m, productId, location, handler, action, metadata, now);
            && GetProductMovementsCount(s.state, productId)
               == Some(CountOrZero(GetProductMovementsCount(m, productId)) + 1)
            && GetCurrentLocation(s.state, productId) == Some(location)
    ensures var s := RecordMovement(m, productId, location, handler, action, metadata, now);
            other != productId ==>
              && GetProductMovementsCount(s.state, other) == GetProductMovementsCount(m, other)
              && GetCurrentLocation(s.state, other) == GetCurrentLocation(m, other)
              && GetProductHistory(s.state, other) == GetProductHistory(m, other)
  {
  }

  /** Recording a `Manufactured` movement makes the product authentic;
      recording any other movement leaves a product's verdict as it was,
      once it has a history. */
  lemma RecordMovementAuthenticity(
    m: SupplyChainManager, productId: Uuid, location: string, handler: string,
    action: SupplyChainAction, metadata: JsonValue, now: Timestamp)
    requires productId in m.products
    ensures var s := RecordMovement(m, productId, location, handler, action, metadata, now);
            action == Manufactured ==> VerifyAuthenticity(s.state, productId) == Ok(true)
    ensures var s := RecordMovement(m, productId, location, handler, action, metadata, now);
            action != Manufactured && productId in m.records ==>
              VerifyAuthenticity(s.state, productId) == VerifyAuthenticity(m, productId)
  {
    var s := RecordMovement(m, productId, location, handler, action, metadata, now);
    var h := s.state.records[productId];
    assert h[|h| - 1].action == action;
    if action != Manufactured && productId in m.records {
      var prior := m.records[productId];
      assert h == prior + [h[|h| - 1]];
      assert forall k :: 0 <= k < |prior| ==> h[k] == prior[k];
    }
  }

  /** A product registered through `add_product` but never moved has no
      history, so `verify_authenticity` reports it as not found and it has
      no current location. */
  lemma AddedProductNotFound(m: SupplyChainManager, p: Product)
    requires p.id !in m.records
    ensures VerifyAuthenticity(AddProduct(m, p), p.id) == Err(ProductNotFound)
    ensures GetCurrentLocation(AddProduct(m, p), p.id) == None
    ensures GetProductMovementsCount(AddProduct(m, p), p.id) == None
  {
  }

  /** Under the invariant, every product with a history has a current
      location, and it is that of its most recent record. */
  lemma HistoryHasLocation(m: SupplyChainManager, id: Uuid)
    requires Invariant(m)
    requires id in m.records
    ensures GetCurrentLocation(m, id) == Some(m.records[id][|m.records[id]| - 1].location)
  {
  }
}
