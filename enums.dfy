/** The order lifecycle enumeration. */
module Enums {

  /** The three constants of the order status enumeration, in declaration order. */
  datatype OrderStatus = Created | Paid | Cancelled

  /** The name stored in the `orders.status` column: the enumeration is mapped by name, not by ordinal. */
  function StatusName(s: OrderStatus): (name: string)
  {
    match s
    case Created => "CREATED"
    case Paid => "PAID"
    case Cancelled => "CANCELLED"
  }

  /** Storing the constant by name loses nothing: two statuses with the same stored name are the same status. */
  lemma StatusNameInjective(a: OrderStatus, b: OrderStatus)
    ensures StatusName(a) == StatusName(b) <==> a == b
  {
    if a != b {
      match a
      case Created => assert StatusName(a)[0] == 'C' && StatusName(a)[1] == 'R';
      case Paid => assert StatusName(a)[0] == 'P';
      case Cancelled => assert StatusName(a)[0] == 'C' && StatusName(a)[1] == 'A';
    }
  }
}
