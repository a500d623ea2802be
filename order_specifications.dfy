/**
 * The optional filters over orders. Each factory returns `None` (the lambda
 * returns `null`: no restriction) when its parameter is null, and otherwise
 * one comparison on a column of the `orders` row. Totals are in cents,
 * timestamps are integers.
 */
module OrderSpecifications {
  import opened Wrappers
  import opened Enums
  import opened Criteria

  /** The paths the factories navigate: `user.id`, `status`, `createdAt`, `total`. */
  datatype OrderField = UserId | Status | CreatedAt | Total

  /** An `orders` row as the query sees it; `status` and `created_at` may be NULL. */
  datatype OrderRow = OrderRow(id: int, userId: int, status: Option<OrderStatus>, createdAt: Option<int>, total: int)

  function Column(o: OrderRow, f: OrderField): Option<Value> {
    match f
    case UserId => Some(Num(o.userId))
    case Status => if o.status.Some? then Some(Text(StatusName(o.status.value))) else None
    case CreatedAt => if o.createdAt.Some? then Some(Num(o.createdAt.value)) else None
    case Total => Some(Num(o.total))
  }

  /** Whether `findAll(spec)` keeps the order. */
  predicate Selects(spec: Option<Pred<OrderField>>, o: OrderRow) {
    Admits(spec, f => Column(o, f))
  }

  predicate CreatedStrictlyAfter(o: OrderRow, t: int) {
    o.createdAt.Some? && o.createdAt.value > t
  }

  predicate CreatedStrictlyBefore(o: OrderRow, t: int) {
    o.createdAt.Some? && o.createdAt.value < t
  }

  function ByUser(userId: Option<int>): (spec: Option<Pred<OrderField>>)
    ensures spec.None? <==> userId.None?
    ensures userId.Some? ==> forall o :: Selects(spec, o) <==> o.userId == userId.value
  {
    if userId.None? then None else Some(Equal(UserId, Num(userId.value)))
  }

  function ByStatus(status: Option<OrderStatus>): (spec: Option<Pred<OrderField>>)
    ensures spec.None? <==> status.None?
    ensures status.Some? ==> forall o :: Selects(spec, o) <==> o.status == status
  {
    if status.None? then None
    else
      var name := StatusName(status.value);
      assert forall s :: StatusName(s) == name <==> s == status.value by {
        forall s ensures StatusName(s) == name <==> s == status.value {
          StatusNameInjective(s, status.value);
        }
      }
      Some(Equal(Status, Text(name)))
  }

  function CreatedAfter(date: Option<int>): (spec: Option<Pred<OrderField>>)
    ensures spec.None? <==> date.None?
    ensures date.Some? ==> forall o :: Selects(spec, o) <==> CreatedStrictlyAfter(o, date.value)
  {
    if date.None? then None else Some(GreaterThan(CreatedAt, date.value))
  }

  function CreatedBefore(date: Option<int>): (spec: Option<Pred<OrderField>>)
    ensures spec.None? <==> date.None?
    ensures date.Some? ==> forall o :: Selects(spec, o) <==> CreatedStrictlyBefore(o, date.value)
  {
    if date.None? then None else Some(LessThan(CreatedAt, date.value))
  }

  /** One bound alone is strict; both bounds together are inclusive. */
  function CreatedBetween(start: Option<int>, end: Option<int>): (spec: Option<Pred<OrderField>>)
    ensures spec.None? <==> start.None? && end.None?
    ensures start.None? && end.Some? ==> forall o :: Selects(spec, o) <==> CreatedStrictlyBefore(o, end.value)
    ensures start.Some? && end.None? ==> forall o :: Selects(spec, o) <==> CreatedStrictlyAfter(o, start.value)
    ensures start.Some? && end.Some? ==>
      forall o :: Selects(spec, o) <==> o.createdAt.Some? && start.value <= o.createdAt.value <= end.value
  {
    if start.None? && end.None? then None
    else if start.None? then Some(LessThan(CreatedAt, end.value))
    else if end.None? then Some(GreaterThan(CreatedAt, start.value))
    else Some(Between(CreatedAt, start.value, end.value))
  }

  function TotalGreaterThan(total: Option<int>): (spec: Option<Pred<OrderField>>)
    ensures spec.None? <==> total.None?
    ensures total.Some? ==> forall o :: Selects(spec, o) <==> o.total > total.value
  {
    if total.None? then None else Some(GreaterThan(Total, total.value))
  }

  function TotalLessThan(total: Option<int>): (spec: Option<Pred<OrderField>>)
    ensures spec.None? <==> total.None?
    ensures total.Some? ==> forall o :: Selects(spec, o) <==> o.total < total.value
  {
    if total.None? then None else Some(LessThan(Total, total.value))
  }

  /** Every case is inclusive. */
  function TotalBetween(minTotal: Option<int>, maxTotal: Option<int>): (spec: Option<Pred<OrderField>>)
    ensures spec.None? <==> minTotal.None? && maxTotal.None?
    ensures forall o :: Selects(spec, o) <==>
      (minTotal.None? || minTotal.value <= o.total) && (maxTotal.None? || o.total <= maxTotal.value)
  {
    if minTotal.None? && maxTotal.None? then None
    else if minTotal.None? then Some(LessThanOrEqualTo(Total, maxTotal.value))
    else if maxTotal.None? then Some(GreaterThanOrEqualTo(Total, minTotal.value))
    else Some(Between(Total, minTotal.value, maxTotal.value))
  }

  // ------------------------------------------------------------ properties

  /**
   * An order created exactly at `s` is kept by `createdBetween(s, e)` but not
   * by `createdBetween(s, null)`, nor by `createdAfter(s)`.
   */
  lemma CreatedBetweenStartBoundary(s: int, e: int, o: OrderRow)
    requires o.createdAt == Some(s) && s <= e
    ensures Selects(CreatedBetween(Some(s), Some(e)), o)
    ensures !Selects(CreatedBetween(Some(s), None), o)
    ensures !Selects(CreatedAfter(Some(s)), o)
  {
  }

  /** Likewise at the end bound: `createdBetween(s, e)` keeps it, `createdBetween(null, e)` does not. */
  lemma CreatedBetweenEndBoundary(s: int, e: int, o: OrderRow)
    requires o.createdAt == Some(e) && s <= e
    ensures Selects(CreatedBetween(Some(s), Some(e)), o)
    ensures !Selects(CreatedBetween(None, Some(e)), o)
  {
  }

  /** The total range splits into its two one-sided filters, because every case is inclusive. */
  lemma TotalBetweenIsBothOneSidedFilters(minTotal: Option<int>, maxTotal: Option<int>, o: OrderRow)
    ensures Selects(TotalBetween(minTotal, maxTotal), o)
        <==> Selects(TotalBetween(minTotal, None), o) && Selects(TotalBetween(None, maxTotal), o)
  {
  }

  /** An inverted total range keeps no order. */
  lemma TotalBetweenInvertedIsEmpty(minTotal: int, maxTotal: int, o: OrderRow)
    requires minTotal > maxTotal
    ensures !Selects(TotalBetween(Some(minTotal), Some(maxTotal)), o)
  {
  }

  /** `totalBetween(m, null)` and `totalGreaterThan(m)` differ exactly on orders whose total is `m`. */
  lemma TotalLowerBoundInclusiveVersusStrict(m: int, o: OrderRow)
    ensures Selects(TotalBetween(Some(m), None), o) && !Selects(TotalGreaterThan(Some(m)), o) <==> o.total == m
    ensures Selects(TotalGreaterThan(Some(m)), o) ==> Selects(TotalBetween(Some(m), None), o)
  {
  }

  /** Filters with a null parameter keep every order. */
  lemma NullParametersKeepEverything(o: OrderRow)
    ensures Selects(ByUser(None), o) && Selects(ByStatus(None), o)
    ensures Selects(CreatedAfter(None), o) && Selects(CreatedBefore(None), o) && Selects(CreatedBetween(None, None), o)
    ensures Selects(TotalGreaterThan(None), o) && Selects(TotalLessThan(None), o) && Selects(TotalBetween(None, None), o)
  {
  }
}
