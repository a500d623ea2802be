/**
 * The optional filters over users, and `hasOrders`, the one filter that
 * joins another table and changes the query it is given (it turns on
 * DISTINCT so that a user with several orders is returned once).
 */
module UserSpecifications {
  import opened Wrappers
  import opened Criteria
  import OrderSpecifications

  type OrderRow = OrderSpecifications.OrderRow

  datatype UserField = Email | Name | CreatedAt

  /** A `users` row as the query sees it; no column the filters use is NULL. */
  datatype UserRow = UserRow(id: int, name: string, email: string, createdAt: int)

  function Column(u: UserRow, f: UserField): Option<Value> {
    match f
    case Email => Some(Text(u.email))
    case Name => Some(Text(u.name))
    case CreatedAt => Some(Num(u.createdAt))
  }

  /** Whether `findAll(spec)` keeps the user. */
  predicate Selects(spec: Option<Pred<UserField>>, u: UserRow) {
    Admits(spec, f => Column(u, f))
  }

  function HasEmail(email: Option<string>): (spec: Option<Pred<UserField>>)
    ensures spec.None? <==> email.None?
    ensures email.Some? ==> forall u :: Selects(spec, u) <==> u.email == email.value
  {
    if email.None? then None else Some(Equal(Email, Text(email.value)))
  }

  /** `like(lower(name), "%" + name.toLowerCase() + "%")`. */
  function NameContains(name: Option<string>): (spec: Option<Pred<UserField>>)
    ensures spec.None? <==> name.None?
    ensures spec.Some? ==> spec.value.LikeLower? && spec.value.field == Name
    ensures name.Some? ==> forall u :: Selects(spec, u) <==>
      Like(LowerString(u.name), ContainsPattern(LowerString(name.value)))
  {
    if name.None? then None else Some(LikeLower(Name, ContainsPattern(LowerString(name.value))))
  }

  function CreatedAfter(date: Option<int>): (spec: Option<Pred<UserField>>)
    ensures spec.None? <==> date.None?
    ensures date.Some? ==> forall u :: Selects(spec, u) <==> u.createdAt > date.value
  {
    if date.None? then None else Some(GreaterThan(CreatedAt, date.value))
  }

  function CreatedBefore(date: Option<int>): (spec: Option<Pred<UserField>>)
    ensures spec.None? <==> date.None?
    ensures date.Some? ==> forall u :: Selects(spec, u) <==> u.createdAt < date.value
  {
    if date.None? then None else Some(LessThan(CreatedAt, date.value))
  }

  /** One bound alone is strict; both bounds together are inclusive. */
  function CreatedBetween(start: Option<int>, end: Option<int>): (spec: Option<Pred<UserField>>)
    ensures spec.None? <==> start.None? && end.None?
    ensures start.None? && end.Some? ==> forall u :: Selects(spec, u) <==> u.createdAt < end.value
    ensures start.Some? && end.None? ==> forall u :: Selects(spec, u) <==> u.createdAt > start.value
    ensures start.Some? && end.Some? ==> forall u :: Selects(spec, u) <==> start.value <= u.createdAt <= end.value
  {
    if start.None? && end.None? then None
    else if start.None? then Some(LessThan(CreatedAt, end.value))
    else if end.None? then Some(GreaterThan(CreatedAt, start.value))
    else Some(Between(CreatedAt, start.value, end.value))
  }

  // ------------------------------------------------------------ hasOrders

  /** The joined `orders` entity of `root.join("orders")`; its column value is the order's id. */
  datatype JoinField = OrdersJoin

  function JoinColumn(o: OrderRow, f: JoinField): Option<Value> {
    Some(Num(o.id))
  }

  /** Whether the WHERE clause keeps the joined row whose order side is `o`. */
  predicate KeepsJoined(spec: Option<Pred<JoinField>>, o: OrderRow) {
    Admits(spec, f => JoinColumn(o, f))
  }

  /** `hasOrders`: turns on DISTINCT, then requires the joined order to be non-null. */
  method HasOrders(query: CriteriaQuery) returns (spec: Option<Pred<JoinField>>)
    modifies query
    ensures query.distinct
    ensures spec.Some? && forall o :: KeepsJoined(spec, o)
  {
    query.SetDistinct(true);
    spec := Some(IsNotNull(OrdersJoin));
  }

  /** The inner join of one user with the orders whose `user_id` is theirs, in order. */
  function JoinOne(u: UserRow, orders: seq<OrderRow>): (r: seq<(UserRow, OrderRow)>)
    ensures forall pr :: pr in r <==> pr.0 == u && pr.1 in orders && pr.1.userId == u.id
  {
    if orders == [] then []
    else (if orders[0].userId == u.id then [(u, orders[0])] else []) + JoinOne(u, orders[1..])
  }

  /** The rows of `users JOIN orders ON orders.user_id = users.id`. */
  function JoinOrders(users: seq<UserRow>, orders: seq<OrderRow>): (r: seq<(UserRow, OrderRow)>)
    ensures forall pr :: pr in r <==> pr.0 in users && pr.1 in orders && pr.1.userId == pr.0.id
  {
    if users == [] then [] else JoinOne(users[0], orders) + JoinOrders(users[1..], orders)
  }

  /** The WHERE clause over the joined rows, then the projection onto the user. */
  function FilterProject(pairs: seq<(UserRow, OrderRow)>, spec: Option<Pred<JoinField>>): (r: seq<UserRow>)
    ensures forall u :: u in r <==> exists pr :: pr in pairs && pr.0 == u && KeepsJoined(spec, pr.1)
  {
    if pairs == [] then []
    else
      var rest := FilterProject(pairs[1..], spec);
      assert forall pr :: pr in pairs <==> pr == pairs[0] || pr in pairs[1..];
      if KeepsJoined(spec, pairs[0].1) then [pairs[0].0] + rest else rest
  }

  predicate NoDuplicates<T(==)>(s: seq<T>) {
    forall i, j :: 0 <= i < j < |s| ==> s[i] != s[j]
  }

  /** SELECT DISTINCT: keeps the first occurrence of every row. */
  function Distinct(s: seq<UserRow>): (r: seq<UserRow>)
    ensures forall x :: x in r <==> x in s
    ensures NoDuplicates(r)
    decreases |s|
  {
    if s == [] then []
    else
      var d := Distinct(s[..|s| - 1]);
      assert s == s[..|s| - 1] + [s[|s| - 1]];
      if s[|s| - 1] in d then d else d + [s[|s| - 1]]
  }

  /** `findAll(spec)` for a specification that joins `orders`, with the query's DISTINCT flag. */
  function FindAllJoined(users: seq<UserRow>, orders: seq<OrderRow>, distinct: bool, spec: Option<Pred<JoinField>>): seq<UserRow> {
    var rows := FilterProject(JoinOrders(users, orders), spec);
    if distinct then Distinct(rows) else rows
  }

  /** `findAll(hasOrders())`: every user with at least one order, each exactly once. */
  method FindUsersWithOrders(users: seq<UserRow>, orders: seq<OrderRow>) returns (result: seq<UserRow>)
    ensures forall u :: u in result <==> u in users && exists o :: o in orders && o.userId == u.id
    ensures NoDuplicates(result)
  {
    var query := new CriteriaQuery();
    var spec := HasOrders(query);
    result := FindAllJoined(users, orders, query.distinct, spec);
    forall u | u in users && (exists o :: o in orders && o.userId == u.id)
      ensures u in result
    {
      var o :| o in orders && o.userId == u.id;
      assert (u, o) in JoinOrders(users, orders);
    }
  }

  // ------------------------------------------------------------ properties

  /** Without DISTINCT the join returns a user once per order: why `hasOrders` turns it on. */
  lemma JoinWithoutDistinctRepeatsUsers(u: UserRow, o1: OrderRow, o2: OrderRow)
    requires o1.userId == u.id && o2.userId == u.id
    ensures FindAllJoined([u], [o1, o2], false, Some(IsNotNull(OrdersJoin))) == [u, u]
    ensures FindAllJoined([u], [o1, o2], true, Some(IsNotNull(OrdersJoin))) == [u]
  {
    var spec := Some(IsNotNull(OrdersJoin));
    var orders := [o1, o2];
    assert orders[1..] == [o2] && [o2][1..] == [];
    assert JoinOne(u, [o2]) == [(u, o2)];
    assert JoinOne(u, orders) == [(u, o1)] + JoinOne(u, [o2]);
    assert [u][1..] == [];
    var pairs := JoinOrders([u], orders);
    assert JoinOrders([u][1..], orders) == [];
    assert pairs == JoinOne(u, orders) + [];
    assert pairs == [(u, o1), (u, o2)];
    assert pairs[1..] == [(u, o2)] && [(u, o2)][1..] == [];
    assert KeepsJoined(spec, o1) && KeepsJoined(spec, o2);
    assert FilterProject([(u, o2)], spec) == [u];
    var rows := FilterProject(pairs, spec);
    assert rows == [u] + FilterProject([(u, o2)], spec);
    assert rows[..1] == [u] && [u][..0] == [];
    assert Distinct([u]) == [u];
  }

  /**
   * `createdBetween(s, e)` is not `createdAfter(s)` AND `createdBefore(e)`:
   * a user created exactly at `s` is kept by the first and not by the second.
   */
  lemma CreatedBetweenIsNotAfterAndBefore(s: int, e: int)
    requires s <= e
    ensures exists u :: Selects(CreatedBetween(Some(s), Some(e)), u)
                        && !(Selects(CreatedAfter(Some(s)), u) && Selects(CreatedBefore(Some(e)), u))
  {
    var u := UserRow(0, "", "", s);
    assert Selects(CreatedBetween(Some(s), Some(e)), u);
    assert !Selects(CreatedAfter(Some(s)), u);
  }

  /** Strictly inside the range the two readings agree. */
  lemma CreatedBetweenAgreesInside(s: int, e: int, u: UserRow)
    requires s < u.createdAt < e
    ensures Selects(CreatedBetween(Some(s), Some(e)), u)
    ensures Selects(CreatedAfter(Some(s)), u) && Selects(CreatedBefore(Some(e)), u)
  {
  }

  /**
   * `nameContains(text)` keeps exactly the users whose lower-cased name
   * contains the lower-cased text, when the text holds no LIKE wildcard.
   */
  lemma NameContainsIsCaseInsensitiveContainment(text: string)
    requires NoWildcards(text)
    ensures forall u :: Selects(NameContains(Some(text)), u) <==> Contains(LowerString(u.name), LowerString(text))
  {
    forall u ensures Selects(NameContains(Some(text)), u) <==> Contains(LowerString(u.name), LowerString(text)) {
      LowerLikeIsCaseInsensitiveContainment(u.name, text);
    }
  }

  /** An unescaped `_` in the search text matches any character: `nameContains("_")` keeps every user with a non-empty name. */
  lemma NameContainsUnderscoreKeepsAnyName(u: UserRow)
    requires u.name != []
    ensures Selects(NameContains(Some("_")), u)
  {
    UnderscoreMatchesAnyNonEmpty(u.name);
  }
}
