/**
 * What the entity equality and the `addItem` / `removeItem` helpers do to
 * both sides of the order/item relationship, including the cases the
 * documented "always use the helpers" convention does not cover.
 */
module EntityProperties {
  import opened Wrappers
  import opened JavaLang
  import opened Entity

  // ------------------------------------------------------------ equality

  /** `OrderItem.equals` is false for null and another class, and otherwise compares ids, null equal to null. */
  lemma ItemEqualsMeansSameId(a: OrderItem, b: OrderItem)
    ensures !a.Equals(NullRef) && !a.Equals(OtherClass)
    ensures a.Equals(Instance(b)) <==> a.id == b.id
    ensures a.Equals(Instance(a))
  {
  }

  /** `OrderItem.equals` is an equivalence relation. */
  lemma ItemEqualsIsEquivalence(a: OrderItem, b: OrderItem, c: OrderItem)
    ensures a.Equals(Instance(b)) <==> b.Equals(Instance(a))
    ensures a.Equals(Instance(b)) && b.Equals(Instance(c)) ==> a.Equals(Instance(c))
  {
  }

  /** Equal items have equal hash codes, as the `equals`/`hashCode` contract requires. */
  lemma ItemEqualsImpliesSameHash(a: OrderItem, b: OrderItem)
    requires a.Equals(Instance(b))
    ensures a.HashCode() == b.HashCode()
  {
  }

  /** Two items that were never saved compare equal although they are different objects. */
  lemma UnsavedItemsAreEqual(a: OrderItem, b: OrderItem)
    requires a.id.None? && b.id.None?
    ensures a.Equals(Instance(b)) && a.HashCode() == b.HashCode() == 31
    ensures !a.EqualsCorrected(Instance(b)) <==> a != b
  {
  }

  /** The corrected item equality is reflexive and symmetric, agrees with `equals` on saved items, and implies it. */
  lemma CorrectedEqualsProperties(a: OrderItem, b: OrderItem)
    ensures a.EqualsCorrected(Instance(a))
    ensures a.EqualsCorrected(Instance(b)) <==> b.EqualsCorrected(Instance(a))
    ensures a.id.Some? ==> (a.EqualsCorrected(Instance(b)) <==> a.Equals(Instance(b)))
    ensures a.EqualsCorrected(Instance(b)) ==> a.Equals(Instance(b))
  {
  }

  /** `Order.equals` is false for null and another class, and otherwise compares ids; unsaved orders are all equal. */
  lemma OrderEqualsMeansSameId(a: Order, b: Order)
    ensures !a.Equals(NullRef) && !a.Equals(OtherClass)
    ensures a.Equals(Instance(b)) <==> a.id == b.id
    ensures a.Equals(Instance(b)) <==> b.Equals(Instance(a))
    ensures a.Equals(Instance(b)) ==> a.HashCode() == b.HashCode()
  {
  }

  /** `Order.equals` is transitive. */
  lemma OrderEqualsTransitive(a: Order, b: Order, c: Order)
    requires a.Equals(Instance(b)) && b.Equals(Instance(c))
    ensures a.Equals(Instance(c))
  {
  }

  // ------------------------------------------------- when removal is safe

  /** Items with distinct non-null ids are pairwise unequal, under `equals` and under the corrected equality. */
  lemma {:induction false} DistinctIdsMeansNoTwoEqual(s: seq<OrderItem>)
    requires forall i :: 0 <= i < |s| ==> s[i].id.Some?
    requires forall i, j :: 0 <= i < j < |s| ==> s[i].id != s[j].id
    ensures NoTwoEqual(s, AsWritten) && NoTwoEqual(s, Corrected)
  {
    forall i, j | 0 <= i < |s| && 0 <= j < |s| && i != j
      ensures !ItemEq(AsWritten, s[i], s[j]) && !ItemEq(Corrected, s[i], s[j])
    {
      assert s[i].id != s[j].id;
    }
  }

  /** Whenever the list is safe for `removeItem` as written, it is safe for the corrected one too. */
  lemma {:induction false} NoTwoEqualAsWrittenImpliesCorrected(s: seq<OrderItem>)
    requires NoTwoEqual(s, AsWritten)
    ensures NoTwoEqual(s, Corrected)
  {
    forall i, j | 0 <= i < |s| && 0 <= j < |s| && i != j
      ensures !ItemEq(Corrected, s[i], s[j])
    {
      assert !ItemEq(AsWritten, s[i], s[j]);
    }
  }

  // ------------------------------------------------------------ scenarios

  /** A new order has no items; a new item has no order and no subtotal. */
  method NewOrderAndItem(user: User?, product: Product?) returns (order: Order, item: OrderItem)
    ensures order.items == [] && order.user == user && order.status.None?
    ensures item.order == null && item.subtotal.None? && item.product == product
  {
    order := new Order(Some(5000), user);
    item := new OrderItem(Some(1), product);
  }

  /** `addItem` has no duplicate check: adding the same item twice lists it twice. */
  method AddSameItemTwice() returns (order: Order, item: OrderItem)
    ensures order.items == [item, item] && item.order == order
    ensures order.Synced() && !NoTwoEqual(order.items, Corrected)
  {
    order := new Order(None, null);
    item := new OrderItem(Some(1), null);
    order.AddItem(item);
    order.AddItem(item);
    assert ItemEq(Corrected, order.items[0], order.items[1]);
  }

  /**
   * `addItem` never touches another order's list: an item added to `a` and
   * then to `b` stays listed in `a` while pointing back to `b`.
   */
  method MoveItemWithoutRemoving() returns (a: Order, b: Order, item: OrderItem)
    ensures a.items == [item] && b.items == [item] && item.order == b
    ensures !a.Synced() && b.Synced()
  {
    a := new Order(None, null);
    b := new Order(None, null);
    item := new OrderItem(Some(1), null);
    a.AddItem(item);
    b.AddItem(item);
    assert a.items[0].order != a;
  }

  /** A saved item with the given id that points at `order` without being listed by it. */
  method NewSavedItemOf(id: int, order: Order?) returns (item: OrderItem)
    ensures fresh(item) && item.id == Some(id) && item.order == order
  {
    item := new OrderItem(Some(1), null);
    item.SetId(Some(id));
    item.SetOrder(order);
  }

  /** `removeItem` clears the back-reference even of an item it did not list, here one pointing at another order. */
  method RemoveUnlistedItem() returns (order: Order, listed: OrderItem, other: OrderItem)
    ensures order.items == [listed] && listed.order == order && order.Synced()
    ensures other.order == null
  {
    order := new Order(None, null);
    listed := NewSavedItemOf(1, null);
    order.AddItem(listed);
    var elsewhere := new Order(None, null);
    other := NewSavedItemOf(2, elsewhere);
    ghost var s := order.items;
    assert s == [listed] && s[1..] == [];
    assert !ItemEq(AsWritten, other, listed);
    assert ListRemove(s, other, AsWritten) == s;
    order.RemoveItem(other);
  }

  /** Two unsaved items added, through `addItem`, to a new order. */
  method NewOrderWithTwoUnsavedItems() returns (order: Order, a: OrderItem, b: OrderItem)
    ensures fresh(order) && fresh(a) && fresh(b) && a != b
    ensures order.items == [a, b] && a.order == order && b.order == order
    ensures a.id.None? && b.id.None?
  {
    order := new Order(None, null);
    a := new OrderItem(Some(1), null);
    b := new OrderItem(Some(2), null);
    order.AddItem(a);
    order.AddItem(b);
  }

  /**
   * With two unsaved items `a` and `b` (ids still null), `removeItem(b)`
   * removes `a`, the first item equal to `b`, and leaves `b` listed with a
   * null back-reference: the documented invariant breaks.
   */
  method RemoveUnsavedItemAsWritten() returns (order: Order, a: OrderItem, b: OrderItem)
    ensures a != b
    ensures order.items == [b] && b.order == null && a.order == order
    ensures !order.Synced()
  {
    order, a, b := NewOrderWithTwoUnsavedItems();
    ghost var s := order.items;
    assert ItemEq(AsWritten, b, a);
    assert IndexOfEqual(s, b, AsWritten) == 0;
    assert s[1..] == [b];
    assert ListRemove(s, b, AsWritten) == [b];
    order.RemoveItem(b);
    assert order.items[0].order != order;
  }

  /** The same steps with the corrected equality remove `b` itself and keep the invariant. */
  method RemoveUnsavedItemCorrected() returns (order: Order, a: OrderItem, b: OrderItem)
    ensures a != b
    ensures order.items == [a] && b.order == null && a.order == order
    ensures order.Synced() && NoTwoEqual(order.items, Corrected)
  {
    order, a, b := NewOrderWithTwoUnsavedItems();
    ghost var s := order.items;
    assert s[1..] == [b];
    assert !ItemEq(Corrected, b, a) && ItemEq(Corrected, b, b);
    assert IndexOfEqual(s, b, Corrected) == 1;
    assert s[..1] + s[2..] == [a];
    assert ListRemove(s, b, Corrected) == [a];
    order.RemoveItemCorrected(b);
  }
}
