/**
 * The optional filters over order items. The order, product and user
 * filters navigate the item's `order.id`, `product.id` and `order.user.id`;
 * the `subtotal` column (cents) may be NULL.
 */
module OrderItemSpecifications {
  import opened Wrappers
  import opened Criteria

  datatype ItemField = OrderId | ProductId | Quantity | Subtotal | OrderUserId

  /** An `order_items` row joined with its order, as the query sees it. */
  datatype ItemRow = ItemRow(orderId: int, productId: int, quantity: int, subtotal: Option<int>, orderUserId: int)

  function Column(i: ItemRow, f: ItemField): Option<Value> {
    match f
    case OrderId => Some(Num(i.orderId))
    case ProductId => Some(Num(i.productId))
    case Quantity => Some(Num(i.quantity))
    case Subtotal => if i.subtotal.Some? then Some(Num(i.subtotal.value)) else None
    case OrderUserId => Some(Num(i.orderUserId))
  }

  /** Whether `findAll(spec)` keeps the item. */
  predicate Selects(spec: Option<Pred<ItemField>>, i: ItemRow) {
    Admits(spec, f => Column(i, f))
  }

  function ByOrder(orderId: Option<int>): (spec: Option<Pred<ItemField>>)
    ensures spec.None? <==> orderId.None?
    ensures orderId.Some? ==> forall i :: Selects(spec, i) <==> i.orderId == orderId.value
  {
    if orderId.None? then None else Some(Equal(OrderId, Num(orderId.value)))
  }

  function ByProduct(productId: Option<int>): (spec: Option<Pred<ItemField>>)
    ensures spec.None? <==> productId.None?
    ensures productId.Some? ==> forall i :: Selects(spec, i) <==> i.productId == productId.value
  {
    if productId.None? then None else Some(Equal(ProductId, Num(productId.value)))
  }

  /** Strict: quantity > the argument. */
  function QuantityGreaterThan(quantity: Option<int>): (spec: Option<Pred<ItemField>>)
    ensures spec.None? <==> quantity.None?
    ensures quantity.Some? ==> forall i :: Selects(spec, i) <==> i.quantity > quantity.value
  {
    if quantity.None? then None else Some(GreaterThan(Quantity, quantity.value))
  }

  /** Strict: subtotal > the argument; an item whose subtotal is NULL never matches. */
  function SubtotalGreaterThan(subtotal: Option<int>): (spec: Option<Pred<ItemField>>)
    ensures spec.None? <==> subtotal.None?
    ensures subtotal.Some? ==> forall i :: Selects(spec, i) <==> i.subtotal.Some? && i.subtotal.value > subtotal.value
  {
    if subtotal.None? then None else Some(GreaterThan(Subtotal, subtotal.value))
  }

  /** Items of the orders of one user: `order.user.id` = the argument. */
  function ByUser(userId: Option<int>): (spec: Option<Pred<ItemField>>)
    ensures spec.None? <==> userId.None?
    ensures userId.Some? ==> forall i :: Selects(spec, i) <==> i.orderUserId == userId.value
  {
    if userId.None? then None else Some(Equal(OrderUserId, Num(userId.value)))
  }

  // ------------------------------------------------------------ properties

  /** An item whose subtotal was never set is not kept by any subtotal filter, even a very low one. */
  lemma UnsetSubtotalNeverMatches(i: ItemRow, bound: int)
    requires i.subtotal.None?
    ensures !Selects(SubtotalGreaterThan(Some(bound)), i)
  {
  }
}
