/** Stock bookkeeping (src/inventory/mod.rs): products keyed by id, with
    restocking, sales that cannot oversell, and a low-stock query. The
    product id and creation time, drawn in the source from `Uuid::new_v4`
    and the clock, are parameters here. */
module Inventory {
  import opened Wrappers
  import opened Models

  datatype InventoryError = ProductNotFound | InsufficientStock

  datatype InventoryManager = InventoryManager(products: map<Uuid, Product>, lowStockThreshold: U32)

  /** Every product is stored under its own id. */
  ghost predicate KeyedById(m: InventoryManager) {
    forall id :: id in m.products ==> m.products[id].id == id
  }

  /** `InventoryManager::new`: no products, the given threshold. */
  function New(lowStockThreshold: U32): (m: InventoryManager)
    ensures m.products == map[] && m.lowStockThreshold == lowStockThreshold
    ensures KeyedById(m)
  {
    InventoryManager(map[], lowStockThreshold)
  }

  /** `add_product`: a product with exactly the given fields is stored
      under its id and returned; every other entry is as it was. */
  function AddProduct(
    m: InventoryManager, id: Uuid, createdAt: Timestamp,
    name: string, sku: string, description: string, price: F64, quantity: U32, manufacturer: string)
    : (s: Step<InventoryManager, Product>)
    ensures s.result == Product(id, sku, name, description, price, quantity, manufacturer, createdAt)
    ensures id in s.state.products && s.state.products[id] == s.result
    ensures forall k :: k != id ==> (k in s.state.products <==> k in m.products)
    ensures forall k :: k != id && k in m.products ==> s.state.products[k] == m.products[k]
    ensures s.state.lowStockThreshold == m.lowStockThreshold
    ensures KeyedById(m) ==> KeyedById(s.state)
  {
    var p := Product(id, sku, name, description, price, quantity, manufacturer, createdAt);
    Step(m.(products := m.products[id := p]), p)
  }

  /** `update_stock`: an unknown id is `ProductNotFound` and changes
      nothing; otherwise the quantity becomes exactly `newQuantity` and
      nothing else changes. */
  function UpdateStock(m: InventoryManager, id: Uuid, newQuantity: U32)
    : (s: Step<InventoryManager, Outcome<InventoryError>>)
    ensures id !in m.products ==> s == Step(m, Fail(ProductNotFound))
    ensures id in m.products ==>
              && s.result == Pass
              && s.state.lowStockThreshold == m.lowStockThreshold
              && s.state.products.Keys == m.products.Keys
              && s.state.products[id] == m.products[id].(quantity := newQuantity)
              && forall k :: k in m.products && k != id ==> s.state.products[k] == m.products[k]
    ensures KeyedById(m) ==> KeyedById(s.state)
  {
    if id !in m.products then Step(m, Fail(ProductNotFound))
    else
      var p := m.products[id];
      Step(m.(products := m.products[id := p.(quantity := newQuantity)]), Pass)
  }

  /** `sell_product`: an unknown id is `ProductNotFound`, a quantity above
      the stock is `InsufficientStock`, and both change nothing. A sale
      lowers that product's quantity by exactly `quantity` (it cannot go
      below zero) and leaves everything else as it was. */
  function SellProduct(m: InventoryManager, id: Uuid, quantity: U32)
    : (s: Step<InventoryManager, Outcome<InventoryError>>)
    ensures id !in m.products ==> s == Step(m, Fail(ProductNotFound))
    ensures id in m.products && m.products[id].quantity < quantity ==> s == Step(m, Fail(InsufficientStock))
    ensures id in m.products && quantity <= m.products[id].quantity ==>
              && s.result == Pass
              && s.state.lowStockThreshold == m.lowStockThreshold
              && s.state.products.Keys == m.products.Keys
              && s.state.products[id].quantity + quantity == m.products[id].quantity
              && s.state.products[id] == m.products[id].(quantity := s.state.products[id].quantity)
              && forall k :: k in m.products && k != id ==> s.state.products[k] == m.products[k]
    ensures KeyedById(m) ==> KeyedById(s.state)
  {
    if id !in m.products then Step(m, Fail(ProductNotFound))
    else
      var p := m.products[id];
      if p.quantity < quantity then Step(m, Fail(InsufficientStock))
      else Step(m.(products := m.products[id := p.(quantity := p.quantity - quantity)]), Pass)
  }

  /** `get_low_stock_products`, as a set (the source's order is the hash
      map's): the stored products whose quantity is at most the threshold. */
  function GetLowStockProducts(m: InventoryManager): (r: set<Product>)
    ensures forall p :: p in r <==> (exists id :: id in m.products && m.products[id] == p) && p.quantity <= m.lowStockThreshold
  {
    set id | id in m.products && m.products[id].quantity <= m.lowStockThreshold :: m.products[id]
  }

  /** `get_product`. */
  function GetProduct(m: InventoryManager, id: Uuid): (r: Option<Product>)
    ensures r.Some? <==> id in m.products
    ensures r.Some? ==> r.value == m.products[id]
  {
    if id in m.products then Some(m.products[id]) else None
  }

  /** `get_all_products`, as a set: every stored product. */
  function GetAllProducts(m: InventoryManager): (r: set<Product>)
    ensures forall p :: p in r <==> exists id :: id in m.products && m.products[id] == p
  {
    m.products.Values
  }

  /** The low-stock products are the stored products below the threshold:
      a subset of all products, and under `KeyedById` each is what
      `get_product` returns for its id. */
  lemma LowStockAreStored(m: InventoryManager, p: Product)
    requires KeyedById(m)
    ensures p in GetLowStockProducts(m) <==> p in GetAllProducts(m) && p.quantity <= m.lowStockThreshold
    ensures p in GetLowStockProducts(m) ==> GetProduct(m, p.id) == Some(p)
  {
    if p in GetLowStockProducts(m) {
      var k :| k in m.products && m.products[k] == p;
      assert k == p.id;
    }
  }

  /** A product added is what `get_product` finds under its id, and
      lookups of every other id are unaffected. */
  lemma AddThenGet(
    m: InventoryManager, id: Uuid, createdAt: Timestamp,
    name: string, sku: string, description: string, price: F64, quantity: U32, manufacturer: string,
    other: Uuid)
    ensures var s := AddProduct(m, id, createdAt, name, sku, description, price, quantity, manufacturer);
            GetProduct(s.state, id) == Some(s.result)
    ensures var s := AddProduct(m, id, createdAt, name, sku, description, price, quantity, manufacturer);
            other != id ==> GetProduct(s.state, other) == GetProduct(m, other)
  {
  }

  /** After a successful `update_stock` the product is low on stock exactly
      when the new quantity is at most the threshold; other products keep
      their low-stock status. */
  lemma UpdateStockLowStock(m: InventoryManager, id: Uuid, newQuantity: U32, other: Product)
    requires KeyedById(m)
    requires id in m.products
    requires other.id != id
    ensures var s := UpdateStock(m, id, newQuantity);
            s.state.products[id] in GetLowStockProducts(s.state) <==> newQuantity <= m.lowStockThreshold
    ensures var s := UpdateStock(m, id, newQuantity);
            other in GetLowStockProducts(s.state) <==> other in GetLowStockProducts(m)
  {
    var s := UpdateStock(m, id, newQuantity);
    if other in GetLowStockProducts(m) {
      var k :| k in m.products && m.products[k] == other;
      assert s.state.products[k] == other;
    }
    if other in GetLowStockProducts(s.state) {
      var k :| k in s.state.products && s.state.products[k] == other;
      assert m.products[k] == other;
    }
  }

  /** A sale never takes a product out of the low-stock set: what was low
      stays low, and the sold product becomes low once its remaining
      quantity is at most the threshold. */
  lemma SaleKeepsLowStock(m: InventoryManager, id: Uuid, quantity: U32, p: Product)
    requires KeyedById(m)
    requires p in GetLowStockProducts(m)
    ensures var s := SellProduct(m, id, quantity);
            p.id != id ==> p in GetLowStockProducts(s.state)
    ensures var s := SellProduct(m, id, quantity);
            p.id == id ==> s.state.products[id] in GetLowStockProducts(s.state)
  {
    var s := SellProduct(m, id, quantity);
    var k :| k in m.products && m.products[k] == p;
    assert k == p.id;
    if p.id != id {
      assert s.state.products[k] == p;
    }
  }
}
