/**
 * The `Order` and `OrderItem` entities as mutable objects: the parent keeps
 * an in-place list of its items, each item keeps a back-reference to its
 * order, and `addItem` / `removeItem` are the helpers meant to keep the two
 * sides in step. Entity equality is id-based, as the `equals` overrides are.
 * Money is integer cents (scale 2), timestamps are integers.
 */
module Entity {
  import opened Wrappers
  import opened JavaLang
  import opened Enums

  /** A user, referenced by an order. Only its identity matters here. */
  class User {
    var id: Option<int>
  }

  /** A product, referenced by an order item. Only its identity matters here. */
  class Product {
    var id: Option<int>
  }

  /**
   * Which equality `List.remove(Object)` uses to find the item to remove:
   * `OrderItem.equals` as written, or the corrected equality that falls back
   * to object identity for an item with no id yet.
   */
  datatype ItemEquality = AsWritten | Corrected

  class OrderItem {
    var id: Option<int>
    var quantity: Option<int>
    /** In cents; set only through `SetSubtotal`, never computed from price and quantity. */
    var subtotal: Option<int>
    var createdAt: Option<int>
    var product: Product?
    var order: Order?

    constructor (quantity: Option<int>, product: Product?)
      ensures this.quantity == quantity && this.product == product
      ensures id.None? && subtotal.None? && createdAt.None? && order == null
    {
      this.quantity := quantity;
      this.product := product;
      id, subtotal, createdAt, order := None, None, None, null;
    }

    method SetId(id: Option<int>)
      modifies this`id
      ensures this.id == id
    {
      this.id := id;
    }

    method SetSubtotal(subtotal: Option<int>)
      modifies this`subtotal
      ensures this.subtotal == subtotal
    {
      this.subtotal := subtotal;
    }

    method SetOrder(order: Order?)
      modifies this`order
      ensures this.order == order
    {
      this.order := order;
    }

    /** `equals(Object o)`: identity, then class check, then `Objects.equals(id, o.id)`. */
    predicate Equals(o: EqualsArg<OrderItem>)
      reads this, if o.Instance? then {o.obj} else {}
      ensures Equals(o) <==> o.Instance? && o.obj.id == id
    {
      match o
      case NullRef => false
      case OtherClass => false
      case Instance(other) => this == other || ObjectsEquals(id, other.id)
    }

    /**
     * The equality `removeItem` evidently needs: as `Equals`, except that an
     * item without an id is equal only to itself.
     */
    predicate EqualsCorrected(o: EqualsArg<OrderItem>)
      reads this, if o.Instance? then {o.obj} else {}
      ensures EqualsCorrected(o) ==> Equals(o)
      ensures id.Some? ==> (EqualsCorrected(o) <==> Equals(o))
      ensures id.None? ==> (EqualsCorrected(o) <==> o == Instance(this))
    {
      match o
      case NullRef => false
      case OtherClass => false
      case Instance(other) => this == other || (id.Some? && ObjectsEquals(id, other.id))
    }

    /** `hashCode()`: `Objects.hash(id)`. */
    function HashCode(): (h: int)
      reads this
      ensures IsInt32(h)
      ensures id.None? ==> h == 31
    {
      ObjectsHash1(id)
    }
  }

  /** `a.equals(b)` for two items under the chosen equality. */
  predicate ItemEq(eq: ItemEquality, a: OrderItem, b: OrderItem)
    reads a, b
  {
    match eq
    case AsWritten => a.Equals(Instance(b))
    case Corrected => a.EqualsCorrected(Instance(b))
  }

  /** No two positions of `s` hold items equal under `eq` (so in particular no object is listed twice). */
  ghost predicate NoTwoEqual(s: seq<OrderItem>, eq: ItemEquality)
    reads s
  {
    forall i, j :: 0 <= i < |s| && 0 <= j < |s| && i != j ==> !ItemEq(eq, s[i], s[j])
  }

  /** `k` is the first position of `s` whose item `x` equals. */
  ghost predicate IsFirstEqual(s: seq<OrderItem>, x: OrderItem, eq: ItemEquality, k: int)
    reads x, s
  {
    0 <= k < |s| && ItemEq(eq, x, s[k]) && forall j :: 0 <= j < k ==> !ItemEq(eq, x, s[j])
  }

  /** `ArrayList.indexOf(x)`: the first position whose element `x` equals, or `|s|` if there is none. */
  function IndexOfEqual(s: seq<OrderItem>, x: OrderItem, eq: ItemEquality): (k: nat)
    reads x, s
    ensures k <= |s|
    ensures k < |s| ==> ItemEq(eq, x, s[k])
    ensures forall j :: 0 <= j < k ==> !ItemEq(eq, x, s[j])
    decreases |s|
  {
    if s == [] then 0
    else if ItemEq(eq, x, s[0]) then 0
    else 1 + IndexOfEqual(s[1..], x, eq)
  }

  /** `ArrayList.remove(Object x)`: drop the first element `x` equals, keeping the order of the rest. */
  function ListRemove(s: seq<OrderItem>, x: OrderItem, eq: ItemEquality): (r: seq<OrderItem>)
    reads x, s
    ensures |r| == |s| || |r| == |s| - 1
    ensures |r| == |s| <==> forall j :: 0 <= j < |s| ==> !ItemEq(eq, x, s[j])
    ensures |r| == |s| ==> r == s
    ensures |r| < |s| ==> exists k :: IsFirstEqual(s, x, eq, k) && r == s[..k] + s[k + 1..]
  {
    var k := IndexOfEqual(s, x, eq);
    if k < |s| then
      assert IsFirstEqual(s, x, eq, k);
      s[..k] + s[k + 1..]
    else s
  }

  /**
   * When no two listed items are equal, removing `x` leaves no copy of the
   * object `x` in the list, and still no two listed items are equal.
   */
  lemma ListRemoveUnlists(s: seq<OrderItem>, x: OrderItem, eq: ItemEquality)
    requires NoTwoEqual(s, eq)
    ensures x !in ListRemove(s, x, eq)
    ensures NoTwoEqual(ListRemove(s, x, eq), eq)
  {
    var r := ListRemove(s, x, eq);
    assert ItemEq(eq, x, x);
    if |r| == |s| {
      forall m | 0 <= m < |r| ensures r[m] != x {
        assert !ItemEq(eq, x, s[m]);
      }
    } else {
      var k :| IsFirstEqual(s, x, eq, k) && r == s[..k] + s[k + 1..];
      assert ItemEq(eq, s[k], x);
      forall m | 0 <= m < |r| ensures r[m] != x {
        if m < k {
          assert r[m] == s[m] && !ItemEq(eq, x, s[m]);
        } else {
          assert r[m] == s[m + 1] && !ItemEq(eq, s[k], s[m + 1]);
        }
      }
      forall a, b | 0 <= a < |r| && 0 <= b < |r| && a != b
        ensures !ItemEq(eq, r[a], r[b])
      {
        var a' := if a < k then a else a + 1;
        var b' := if b < k then b else b + 1;
        assert r[a] == s[a'] && r[b] == s[b'];
      }
    }
  }

  class Order {
    var id: Option<int>
    /** In cents; never computed from the items. */
    var total: Option<int>
    var status: Option<OrderStatus>
    var createdAt: Option<int>
    var user: User?
    var items: seq<OrderItem>

    /** `Order(total, user)`: the item list starts empty; status stays null unless set. */
    constructor (total: Option<int>, user: User?)
      ensures this.total == total && this.user == user
      ensures items == [] && status.None? && id.None? && createdAt.None?
    {
      this.total := total;
      this.user := user;
      id, status, createdAt, items := None, None, None, [];
    }

    method SetId(id: Option<int>)
      modifies this`id
      ensures this.id == id
    {
      this.id := id;
    }

    /** The documented invariant: every listed item points back to this order. */
    ghost predicate Synced()
      reads this, items
    {
      forall i :: 0 <= i < |items| ==> items[i].order == this
    }

    /** `addItem`: append (no duplicate check) and point the item back at this order. */
    method AddItem(item: OrderItem)
      modifies this`items, item`order
      ensures items == old(items) + [item]
      ensures item.order == this
      ensures old(Synced()) ==> Synced()
      ensures old(NoTwoEqual(items, AsWritten)) && (forall j :: 0 <= j < |old(items)| ==> !ItemEq(AsWritten, item, old(items)[j]))
              ==> NoTwoEqual(items, AsWritten)
      ensures old(NoTwoEqual(items, Corrected)) && (forall j :: 0 <= j < |old(items)| ==> !ItemEq(Corrected, item, old(items)[j]))
              ==> NoTwoEqual(items, Corrected)
    {
      items := items + [item];
      item.SetOrder(this);
    }

    /**
     * `removeItem`: `items.remove(item)` drops the first listed element that
     * `item.equals`, then the item's back-reference is cleared whether or not
     * anything was removed.
     */
    method RemoveItem(item: OrderItem)
      modifies this`items, item`order
      ensures items == old(ListRemove(items, item, AsWritten))
      ensures item.order == null
      ensures old(Synced() && NoTwoEqual(items, AsWritten)) ==> Synced() && NoTwoEqual(items, AsWritten)
    {
      ghost var before := items;
      if NoTwoEqual(before, AsWritten) {
        ListRemoveUnlists(before, item, AsWritten);
      }
      items := ListRemove(items, item, AsWritten);
      item.SetOrder(null);
    }

    /** `removeItem` with the corrected item equality. */
    method RemoveItemCorrected(item: OrderItem)
      modifies this`items, item`order
      ensures items == old(ListRemove(items, item, Corrected))
      ensures item.order == null
      ensures old(Synced() && NoTwoEqual(items, Corrected)) ==> Synced() && NoTwoEqual(items, Corrected)
    {
      ghost var before := items;
      if NoTwoEqual(before, Corrected) {
        ListRemoveUnlists(before, item, Corrected);
      }
      items := ListRemove(items, item, Corrected);
      item.SetOrder(null);
    }

    /** `equals(Object o)`: identity, then class check, then `Objects.equals(id, o.id)`. */
    predicate Equals(o: EqualsArg<Order>)
      reads this, if o.Instance? then {o.obj} else {}
      ensures Equals(o) <==> o.Instance? && o.obj.id == id
    {
      match o
      case NullRef => false
      case OtherClass => false
      case Instance(other) => this == other || ObjectsEquals(id, other.id)
    }

    /** `hashCode()`: `Objects.hash(id)`. */
    function HashCode(): (h: int)
      reads this
      ensures IsInt32(h)
      ensures id.None? ==> h == 31
    {
      ObjectsHash1(id)
    }
  }
}
