# Order system: entity relationships and query filters, in Dafny

A model of the small pieces of real logic in an order-management system built
on an object-relational mapper (users, products, orders, order items and
product reviews):

- **Order ↔ OrderItem list maintenance.** `Order` owns an in-place list of its
  items, and each `OrderItem` holds a back-reference to its order. The
  `addItem` / `removeItem` helpers are meant to keep both sides in step. Both
  are classes here (`Entity.Order`, `Entity.OrderItem`): the list is a
  `seq<OrderItem>` field and the back-reference an `Order?` field. The
  documented invariant "every listed item points back to its order" is the
  ghost predicate `Order.Synced`. The model proves when the helpers preserve
  it and exhibits the cases where they do not.
- **Entity identity.** `equals` / `hashCode` on `Order` and `OrderItem` compare
  the id only, with Java's null-safe `Objects.equals`. The composite review key
  `ProductReviewId` compares the pair (user id, product id). Hash codes follow
  `Objects.hash` and `Long.hashCode` with 32-bit wrap-around.
- **Optional-filter predicate builders.** These are the five `*Specifications`
  classes. Each factory is a function from `Option` parameters to
  `Option<Pred<F>>`; `None` means the builder returned `null`, i.e. no
  restriction. `Criteria.Eval` gives every predicate its SQL meaning:
  - comparisons with NULL are UNKNOWN and AND is three-valued;
  - BETWEEN is inclusive at both ends (ISO/IEC 9075-2, subclause 8.3);
  - LIKE treats `%` and `_` as wildcards, and LIKE against NULL never matches
    (subclause 8.5).

  A WHERE clause keeps a row only when its predicate is TRUE. Each entity
  module has a `Selects(spec, row)` predicate, and every factory's contract
  says exactly which rows it keeps.
  `hasOrders` changes the query it is given (it turns DISTINCT on). It is
  modelled as a method on a `CriteriaQuery` object, together with a model of
  the join it adds.

Money is integer cents, since every amount column has scale 2. Timestamps
are integers. Nullable columns and nullable Java references are `Option`.

One point where the comments and the code disagree: the comment on
`UserSpecifications.createdBetween` describes it as `createdAfter(start) AND
createdBefore(end)`, but the code uses an inclusive BETWEEN. The model
follows the code, and `UserSpecifications.CreatedBetweenIsNotAfterAndBefore`
proves that the two are not the same.

Files: `wrappers.dfy` (Option), `java_lang.dfy` (Java equality and hashing
helpers), `enums.dfy`, `entity.dfy`, `entity_properties.dfy`,
`product_review_id.dfy`, `criteria.dfy` (predicates, SQL evaluation, LOWER,
LIKE) and one file per specification class.

## Model

| member | source | states |
|---|---|---|
| `Enums.StatusNameInjective` | src/main/java/br/com/unipds/ordersystemflyway/entity/Order.java:55-57 | the status is stored by name, and two statuses with the same stored name are the same status |
| `Entity.OrderItem.constructor` | src/main/java/br/com/unipds/ordersystemflyway/entity/OrderItem.java:107-110 | sets quantity and product; id, subtotal, creation time and order stay unset |
| `Entity.OrderItem.SetId` | src/main/java/br/com/unipds/ordersystemflyway/entity/OrderItem.java:118-120 | replaces only the id |
| `Entity.OrderItem.SetSubtotal` | src/main/java/br/com/unipds/ordersystemflyway/entity/OrderItem.java:134-136 | replaces only the subtotal; no other operation writes it, so it is never computed from price × quantity |
| `Entity.OrderItem.SetOrder` | src/main/java/br/com/unipds/ordersystemflyway/entity/OrderItem.java:158-160 | replaces only the back-reference |
| `Entity.OrderItem.Equals` | src/main/java/br/com/unipds/ordersystemflyway/entity/OrderItem.java:162-168 | identity, class check, then `Objects.equals` on the id: equal exactly to another `OrderItem` with the same id, null ids included; never to null or another class |
| `Entity.OrderItem.EqualsCorrected` | src/main/java/br/com/unipds/ordersystemflyway/entity/OrderItem.java:162-168 | the equality `removeItem` needs: implies `equals`, agrees with it when the id is set, and without an id is equal only to the item itself |
| `Entity.OrderItem.HashCode` | src/main/java/br/com/unipds/ordersystemflyway/entity/OrderItem.java:171-173 | `Objects.hash(id)` is a 32-bit int that depends only on the id, and is 31 for a null id |
| `Entity.Order.Equals` | src/main/java/br/com/unipds/ordersystemflyway/entity/Order.java:207-213 | identity, class check, then `Objects.equals` on the id: equal exactly to another `Order` with the same id, null ids included; never to null or another class |
| `Entity.Order.HashCode` | src/main/java/br/com/unipds/ordersystemflyway/entity/Order.java:216-218 | `Objects.hash(id)` is a 32-bit int that depends only on the id, and is 31 for a null id |
| `Entity.IndexOfEqual` | src/main/java/br/com/unipds/ordersystemflyway/entity/Order.java:153 | the position `List.remove(Object)` searches for: the first element the argument equals, or the length if none |
| `Entity.ListRemove` | src/main/java/br/com/unipds/ordersystemflyway/entity/Order.java:153 | removes at most one element, the first equal one, keeping the order of the rest; the list is unchanged exactly when no element is equal |
| `Entity.ListRemoveUnlists` | src/main/java/br/com/unipds/ordersystemflyway/entity/Order.java:152-155 | when no two listed items are equal, removing `x` leaves no copy of the object `x` listed and keeps the list free of equal pairs |
| `Entity.Order.constructor` | src/main/java/br/com/unipds/ordersystemflyway/entity/Order.java:107-110 | stores total and user; the item list is empty and status, id and creation time are unset |
| `Entity.Order.SetId` | src/main/java/br/com/unipds/ordersystemflyway/entity/Order.java:163-165 | replaces only the id |
| `Entity.Order.AddItem` | src/main/java/br/com/unipds/ordersystemflyway/entity/Order.java:141-144 | appends the item at the end and points it at this order; touches nothing else; preserves `Synced`, and preserves "no two equal" when the new item equals none listed |
| `Entity.Order.RemoveItem` | src/main/java/br/com/unipds/ordersystemflyway/entity/Order.java:152-155 | the list loses its first element equal to the item under `OrderItem.equals`; the item's back-reference becomes null even if nothing was removed; `Synced` is preserved when no two listed items are equal |
| `Entity.Order.RemoveItemCorrected` | src/main/java/br/com/unipds/ordersystemflyway/entity/Order.java:152-155 | the same with the corrected item equality, where an unsaved item is equal only to itself; `Synced` is preserved under the weaker condition this gives |
| `EntityProperties.ItemEqualsMeansSameId` | src/main/java/br/com/unipds/ordersystemflyway/entity/OrderItem.java:163-167 | `OrderItem.equals` is false for null and for another class, and otherwise true exactly when the ids are equal, null equal to null |
| `EntityProperties.ItemEqualsIsEquivalence` | src/main/java/br/com/unipds/ordersystemflyway/entity/OrderItem.java:163-167 | item equality is symmetric and transitive |
| `EntityProperties.ItemEqualsImpliesSameHash` | src/main/java/br/com/unipds/ordersystemflyway/entity/OrderItem.java:163-173 | equal items have equal hash codes |
| `EntityProperties.UnsavedItemsAreEqual` | src/main/java/br/com/unipds/ordersystemflyway/entity/OrderItem.java:166-167 | two distinct items with null ids compare equal and hash to 31; under the corrected equality they differ |
| `EntityProperties.CorrectedEqualsProperties` | src/main/java/br/com/unipds/ordersystemflyway/entity/OrderItem.java:163-167 | the corrected equality is reflexive and symmetric, agrees with `equals` on saved items, and implies `equals` |
| `EntityProperties.OrderEqualsMeansSameId` | src/main/java/br/com/unipds/ordersystemflyway/entity/Order.java:208-218 | `Order.equals` is false for null and for another class and otherwise compares ids, so two unsaved orders are equal; it is symmetric, and equal orders hash alike |
| `EntityProperties.OrderEqualsTransitive` | src/main/java/br/com/unipds/ordersystemflyway/entity/Order.java:208-213 | order equality is transitive |
| `EntityProperties.DistinctIdsMeansNoTwoEqual` | src/main/java/br/com/unipds/ordersystemflyway/entity/Order.java:113-155 | items with distinct non-null ids are pairwise unequal, so `removeItem` keeps the list synced for them |
| `EntityProperties.NoTwoEqualAsWrittenImpliesCorrected` | src/main/java/br/com/unipds/ordersystemflyway/entity/Order.java:152-155 | every list that is safe for `removeItem` as written is safe for the corrected one |
| `EntityProperties.NewOrderAndItem` | src/main/java/br/com/unipds/ordersystemflyway/entity/Order.java:93-110 | a new order has no items and no status; a new item has no order and no subtotal |
| `EntityProperties.AddSameItemTwice` | src/main/java/br/com/unipds/ordersystemflyway/entity/Order.java:141-142 | adding the same item twice lists it twice |
| `EntityProperties.MoveItemWithoutRemoving` | src/main/java/br/com/unipds/ordersystemflyway/entity/Order.java:141-144 | an item added to order A and then to order B stays listed in A while pointing back to B, so A is no longer synced |
| `EntityProperties.NewSavedItemOf` | src/main/java/br/com/unipds/ordersystemflyway/entity/OrderItem.java:118-160 | an item built with the constructor and the id and order setters has exactly that id and that order |
| `EntityProperties.RemoveUnlistedItem` | src/main/java/br/com/unipds/ordersystemflyway/entity/Order.java:152-154 | removing an item that equals no listed item (here: different ids) leaves the list alone but still clears that item's back-reference |
| `EntityProperties.NewOrderWithTwoUnsavedItems` | src/main/java/br/com/unipds/ordersystemflyway/entity/Order.java:124-127 | the documented usage, before saving: a new order holding two new items, both pointing back to it |
| `EntityProperties.RemoveUnsavedItemAsWritten` | src/main/java/br/com/unipds/ordersystemflyway/entity/Order.java:152-155 | with two unsaved items a, b listed, `removeItem(b)` removes a and leaves b listed with a null back-reference |
| `EntityProperties.RemoveUnsavedItemCorrected` | src/main/java/br/com/unipds/ordersystemflyway/entity/Order.java:152-155 | with the corrected equality the same call removes b and the order stays synced |
| `ProductReviewKey.SetUserId` | src/main/java/br/com/unipds/ordersystemflyway/entity/ProductReviewId.java:75-77 | changes the user part only |
| `ProductReviewKey.SetProductId` | src/main/java/br/com/unipds/ordersystemflyway/entity/ProductReviewId.java:83-85 | changes the product part only |
| `ProductReviewKey.KeyEquals` | src/main/java/br/com/unipds/ordersystemflyway/entity/ProductReviewId.java:96-103 | identity, class check, then `Objects.equals` on both ids: two keys are equal exactly when they hold the same user id and the same product id |
| `ProductReviewKey.KeyHashCode` | src/main/java/br/com/unipds/ordersystemflyway/entity/ProductReviewId.java:110-113 | `Objects.hash(userId, productId)` is a 32-bit int |
| `ProductReviewKey.KeyEqualsMeansBothParts` | src/main/java/br/com/unipds/ordersystemflyway/entity/ProductReviewId.java:97-103 | two keys are equal exactly when user id and product id are each equal, null-safe; never equal to null or another class |
| `ProductReviewKey.KeyEqualsIsEquivalence` | src/main/java/br/com/unipds/ordersystemflyway/entity/ProductReviewId.java:97-103 | key equality is reflexive, symmetric and transitive |
| `ProductReviewKey.KeyEqualsImpliesSameHash` | src/main/java/br/com/unipds/ordersystemflyway/entity/ProductReviewId.java:97-113 | equal keys have equal hash codes |
| `ProductReviewKey.SwappedKeyDiffers` | src/main/java/br/com/unipds/ordersystemflyway/entity/ProductReviewId.java:101-102 | keys (u, p) and (p, u) are equal only when u = p |
| `ProductReviewKey.SetterChangesEquality` | src/main/java/br/com/unipds/ordersystemflyway/entity/ProductReviewId.java:75-85 | after a setter the key is still equal to the old one exactly when the new value equals the old one |
| `Criteria.AdmitsAnd` | src/main/java/br/com/unipds/ordersystemflyway/repository/specification/ProductReviewSpecifications.java:67-70 | a conjunction keeps exactly the rows both conjuncts keep, NULLs included |
| `Criteria.LikeAnySuffix` | src/main/java/br/com/unipds/ordersystemflyway/repository/specification/ProductSpecifications.java:87-90 | the pattern `%` matches every string |
| `Criteria.LikePrefixPattern` | src/main/java/br/com/unipds/ordersystemflyway/repository/specification/ProductSpecifications.java:87-90 | `w + "%"` with no wildcard in w matches exactly the strings starting with w |
| `Criteria.ContainsStep` | src/main/java/br/com/unipds/ordersystemflyway/repository/specification/ProductSpecifications.java:87-90 | a non-empty string contains w exactly when it starts with w or its tail contains w |
| `Criteria.LikeContainsPattern` | src/main/java/br/com/unipds/ordersystemflyway/repository/specification/ProductSpecifications.java:87-90 | `"%" + w + "%"` with no wildcard in w matches exactly the strings containing w |
| `Criteria.LowerKeepsNoWildcards` | src/main/java/br/com/unipds/ordersystemflyway/repository/specification/ProductSpecifications.java:89 | lower-casing the search text neither creates nor removes a wildcard |
| `Criteria.LowerLikeIsCaseInsensitiveContainment` | src/main/java/br/com/unipds/ordersystemflyway/repository/specification/ProductSpecifications.java:84-91 | `like(lower(column), "%" + lower(text) + "%")` is case-insensitive containment when the text has no wildcard |
| `Criteria.UnderscoreMatchesAnyNonEmpty` | src/main/java/br/com/unipds/ordersystemflyway/repository/specification/UserSpecifications.java:109-112 | the search text is not escaped: the text `_` matches every non-empty value |
| `OrderSpecifications.ByUser` | src/main/java/br/com/unipds/ordersystemflyway/repository/specification/OrderSpecifications.java:72-75 | no restriction exactly on null; otherwise keeps exactly the orders of that user |
| `OrderSpecifications.ByStatus` | src/main/java/br/com/unipds/ordersystemflyway/repository/specification/OrderSpecifications.java:94-97 | no restriction exactly on null; otherwise keeps exactly the orders with that status (a NULL status never matches) |
| `OrderSpecifications.CreatedAfter` | src/main/java/br/com/unipds/ordersystemflyway/repository/specification/OrderSpecifications.java:117-120 | no restriction exactly on null; otherwise strictly later creation time |
| `OrderSpecifications.CreatedBefore` | src/main/java/br/com/unipds/ordersystemflyway/repository/specification/OrderSpecifications.java:130-133 | no restriction exactly on null; otherwise strictly earlier creation time |
| `OrderSpecifications.CreatedBetween` | src/main/java/br/com/unipds/ordersystemflyway/repository/specification/OrderSpecifications.java:154-161 | the four cases: no restriction when both are null, strictly before end, strictly after start, inclusive range |
| `OrderSpecifications.TotalGreaterThan` | src/main/java/br/com/unipds/ordersystemflyway/repository/specification/OrderSpecifications.java:181-184 | no restriction exactly on null; otherwise strictly greater total |
| `OrderSpecifications.TotalLessThan` | src/main/java/br/com/unipds/ordersystemflyway/repository/specification/OrderSpecifications.java:194-197 | no restriction exactly on null; otherwise strictly smaller total |
| `OrderSpecifications.TotalBetween` | src/main/java/br/com/unipds/ordersystemflyway/repository/specification/OrderSpecifications.java:208-215 | no restriction only when both are null; every given bound is inclusive |
| `OrderSpecifications.CreatedBetweenStartBoundary` | src/main/java/br/com/unipds/ordersystemflyway/repository/specification/OrderSpecifications.java:156-159 | an order created exactly at s is kept by `createdBetween(s, e)` but not by `createdBetween(s, null)` or `createdAfter(s)` |
| `OrderSpecifications.CreatedBetweenEndBoundary` | src/main/java/br/com/unipds/ordersystemflyway/repository/specification/OrderSpecifications.java:157-159 | an order created exactly at e is kept by `createdBetween(s, e)` but not by `createdBetween(null, e)` |
| `OrderSpecifications.TotalBetweenIsBothOneSidedFilters` | src/main/java/br/com/unipds/ordersystemflyway/repository/specification/OrderSpecifications.java:208-215 | the total range keeps exactly what both one-sided ranges keep |
| `OrderSpecifications.TotalBetweenInvertedIsEmpty` | src/main/java/br/com/unipds/ordersystemflyway/repository/specification/OrderSpecifications.java:213 | a range with min > max keeps no order |
| `OrderSpecifications.TotalLowerBoundInclusiveVersusStrict` | src/main/java/br/com/unipds/ordersystemflyway/repository/specification/OrderSpecifications.java:181-212 | `totalBetween(m, null)` and `totalGreaterThan(m)` differ exactly on orders whose total is m |
| `OrderSpecifications.NullParametersKeepEverything` | src/main/java/br/com/unipds/ordersystemflyway/repository/specification/OrderSpecifications.java:72-215 | every order filter with null parameters keeps every order |
| `ProductSpecifications.NameContains` | src/main/java/br/com/unipds/ordersystemflyway/repository/specification/ProductSpecifications.java:84-91 | no restriction exactly on null; otherwise keeps exactly the products whose lower-cased name is LIKE `"%" + lower(text) + "%"`, for any text, wildcards included |
| `ProductSpecifications.PriceGreaterThan` | src/main/java/br/com/unipds/ordersystemflyway/repository/specification/ProductSpecifications.java:111-114 | no restriction exactly on null; otherwise strictly greater price |
| `ProductSpecifications.PriceLessThan` | src/main/java/br/com/unipds/ordersystemflyway/repository/specification/ProductSpecifications.java:124-127 | no restriction exactly on null; otherwise strictly smaller price |
| `ProductSpecifications.PriceBetween` | src/main/java/br/com/unipds/ordersystemflyway/repository/specification/ProductSpecifications.java:148-155 | no restriction only when both are null; every given bound is inclusive |
| `ProductSpecifications.HasStock` | src/main/java/br/com/unipds/ordersystemflyway/repository/specification/ProductSpecifications.java:173-176 | always a restriction: stock > 0, NULL stock excluded |
| `ProductSpecifications.LowStock` | src/main/java/br/com/unipds/ordersystemflyway/repository/specification/ProductSpecifications.java:191-195 | no restriction exactly on null; otherwise stock ≤ threshold |
| `ProductSpecifications.OutOfStock` | src/main/java/br/com/unipds/ordersystemflyway/repository/specification/ProductSpecifications.java:204-207 | always a restriction: stock = 0 |
| `ProductSpecifications.NameContainsIsCaseInsensitiveContainment` | src/main/java/br/com/unipds/ordersystemflyway/repository/specification/ProductSpecifications.java:84-91 | for text without wildcards, keeps exactly the products whose lower-cased name contains the lower-cased text |
| `ProductSpecifications.OutOfStockExcludesHasStock` | src/main/java/br/com/unipds/ordersystemflyway/repository/specification/ProductSpecifications.java:173-207 | no product is both out of stock and in stock; a non-negative stock is one or the other; a NULL stock is neither |
| `ProductSpecifications.OutOfStockIsLowStock` | src/main/java/br/com/unipds/ordersystemflyway/repository/specification/ProductSpecifications.java:191-207 | an out-of-stock product is low on stock for every threshold that is not negative |
| `ProductSpecifications.PriceBetweenIsBothOneSidedFilters` | src/main/java/br/com/unipds/ordersystemflyway/repository/specification/ProductSpecifications.java:148-155 | the price range keeps exactly what both one-sided ranges keep |
| `ProductSpecifications.PriceUpperBoundInclusiveVersusStrict` | src/main/java/br/com/unipds/ordersystemflyway/repository/specification/ProductSpecifications.java:124-151 | `priceLessThan(m)` keeps only products `priceBetween(null, m)` keeps, and the two differ exactly on products priced m |
| `UserSpecifications.HasEmail` | src/main/java/br/com/unipds/ordersystemflyway/repository/specification/UserSpecifications.java:82-85 | no restriction exactly on null; otherwise keeps exactly the users with that email |
| `UserSpecifications.NameContains` | src/main/java/br/com/unipds/ordersystemflyway/repository/specification/UserSpecifications.java:106-113 | no restriction exactly on null; otherwise keeps exactly the users whose lower-cased name is LIKE `"%" + lower(text) + "%"`, for any text, wildcards included |
| `UserSpecifications.CreatedAfter` | src/main/java/br/com/unipds/ordersystemflyway/repository/specification/UserSpecifications.java:133-136 | no restriction exactly on null; otherwise strictly later creation time |
| `UserSpecifications.CreatedBefore` | src/main/java/br/com/unipds/ordersystemflyway/repository/specification/UserSpecifications.java:146-149 | no restriction exactly on null; otherwise strictly earlier creation time |
| `UserSpecifications.CreatedBetween` | src/main/java/br/com/unipds/ordersystemflyway/repository/specification/UserSpecifications.java:171-178 | the four cases: no restriction when both are null, strictly before end, strictly after start, inclusive range |
| `UserSpecifications.HasOrders` | src/main/java/br/com/unipds/ordersystemflyway/repository/specification/UserSpecifications.java:200-205 | turns DISTINCT on, and its predicate holds on every joined order row |
| `UserSpecifications.JoinOne` | src/main/java/br/com/unipds/ordersystemflyway/repository/specification/UserSpecifications.java:203 | the join rows of one user are exactly that user paired with each of their orders |
| `UserSpecifications.JoinOrders` | src/main/java/br/com/unipds/ordersystemflyway/repository/specification/UserSpecifications.java:203 | the join rows are exactly the (user, order) pairs where the order belongs to the user |
| `UserSpecifications.FilterProject` | src/main/java/br/com/unipds/ordersystemflyway/repository/specification/UserSpecifications.java:203 | the projected users are exactly those of the join rows the predicate keeps |
| `UserSpecifications.Distinct` | src/main/java/br/com/unipds/ordersystemflyway/repository/specification/UserSpecifications.java:202 | DISTINCT keeps the same set of rows and no row twice |
| `UserSpecifications.FindUsersWithOrders` | src/main/java/br/com/unipds/ordersystemflyway/repository/specification/UserSpecifications.java:183-205 | `findAll(hasOrders())` returns exactly the users with at least one order, each once |
| `UserSpecifications.JoinWithoutDistinctRepeatsUsers` | src/main/java/br/com/unipds/ordersystemflyway/repository/specification/UserSpecifications.java:187 | without DISTINCT a user with two orders is returned twice; with it, once |
| `UserSpecifications.CreatedBetweenIsNotAfterAndBefore` | src/main/java/br/com/unipds/ordersystemflyway/repository/specification/UserSpecifications.java:156-176 | `createdBetween(s, e)` keeps a user created at s that `createdAfter(s)` AND `createdBefore(e)` rejects |
| `UserSpecifications.CreatedBetweenAgreesInside` | src/main/java/br/com/unipds/ordersystemflyway/repository/specification/UserSpecifications.java:133-176 | strictly inside the range both readings keep the user |
| `UserSpecifications.NameContainsIsCaseInsensitiveContainment` | src/main/java/br/com/unipds/ordersystemflyway/repository/specification/UserSpecifications.java:106-113 | for text without wildcards, keeps exactly the users whose lower-cased name contains the lower-cased text |
| `UserSpecifications.NameContainsUnderscoreKeepsAnyName` | src/main/java/br/com/unipds/ordersystemflyway/repository/specification/UserSpecifications.java:106-113 | `nameContains("_")` keeps every user with a non-empty name |
| `ProductReviewSpecifications.ByUser` | src/main/java/br/com/unipds/ordersystemflyway/repository/specification/ProductReviewSpecifications.java:28-32 | no restriction exactly on null; otherwise keeps exactly the reviews whose key has that user id |
| `ProductReviewSpecifications.ByProduct` | src/main/java/br/com/unipds/ordersystemflyway/repository/specification/ProductReviewSpecifications.java:43-47 | no restriction exactly on null; otherwise keeps exactly the reviews whose key has that product id |
| `ProductReviewSpecifications.RatingGreaterThanEqual` | src/main/java/br/com/unipds/ordersystemflyway/repository/specification/ProductReviewSpecifications.java:54-58 | no restriction exactly on null; otherwise rating ≥ the argument, inclusive |
| `ProductReviewSpecifications.HasComment` | src/main/java/br/com/unipds/ordersystemflyway/repository/specification/ProductReviewSpecifications.java:65-71 | always a restriction: the comment is non-null and not the empty string |
| `ProductReviewSpecifications.CommentContains` | src/main/java/br/com/unipds/ordersystemflyway/repository/specification/ProductReviewSpecifications.java:78-85 | no restriction exactly on null; otherwise keeps exactly the reviews with a non-NULL comment whose lower-cased form is LIKE `"%" + lower(text) + "%"`; a NULL comment is never kept |
| `ProductReviewSpecifications.BlankCommentHasComment` | src/main/java/br/com/unipds/ordersystemflyway/repository/specification/ProductReviewSpecifications.java:65-71 | a non-empty comment made only of blanks still passes `hasComment` |
| `ProductReviewSpecifications.CommentContainsIsCaseInsensitiveContainment` | src/main/java/br/com/unipds/ordersystemflyway/repository/specification/ProductReviewSpecifications.java:78-85 | for text without wildcards, keeps exactly the reviews with a comment whose lower-cased form contains the lower-cased text |
| `ProductReviewSpecifications.CommentContainsNonEmptyImpliesHasComment` | src/main/java/br/com/unipds/ordersystemflyway/repository/specification/ProductReviewSpecifications.java:65-85 | a review found by a non-empty comment search without wildcards also passes `hasComment` |
| `ProductReviewSpecifications.PercentSearchFindsEmptyComment` | src/main/java/br/com/unipds/ordersystemflyway/repository/specification/ProductReviewSpecifications.java:65-85 | the unescaped search text `%` finds a review whose comment is empty, which `hasComment` rejects |
| `OrderItemSpecifications.ByOrder` | src/main/java/br/com/unipds/ordersystemflyway/repository/specification/OrderItemSpecifications.java:21-24 | no restriction exactly on null; otherwise keeps exactly the items of that order |
| `OrderItemSpecifications.ByProduct` | src/main/java/br/com/unipds/ordersystemflyway/repository/specification/OrderItemSpecifications.java:31-34 | no restriction exactly on null; otherwise keeps exactly the items of that product |
| `OrderItemSpecifications.QuantityGreaterThan` | src/main/java/br/com/unipds/ordersystemflyway/repository/specification/OrderItemSpecifications.java:41-44 | no restriction exactly on null; otherwise strictly greater quantity |
| `OrderItemSpecifications.SubtotalGreaterThan` | src/main/java/br/com/unipds/ordersystemflyway/repository/specification/OrderItemSpecifications.java:51-54 | no restriction exactly on null; otherwise strictly greater subtotal, and a NULL subtotal never matches |
| `OrderItemSpecifications.ByUser` | src/main/java/br/com/unipds/ordersystemflyway/repository/specification/OrderItemSpecifications.java:63-67 | no restriction exactly on null; otherwise keeps exactly the items whose order belongs to that user |
| `OrderItemSpecifications.UnsetSubtotalNeverMatches` | src/main/java/br/com/unipds/ordersystemflyway/repository/specification/OrderItemSpecifications.java:51-54 | an item whose subtotal was never set is kept by no subtotal filter |

## Left out

- Repository interfaces and their derived, JPQL and native SQL queries. This includes `MONTH()`/`YEAR()`, full-text `MATCH … AGAINST`, `LIMIT`, `GROUP BY` and the floating-point `AVG` aggregates. None of them has a method body; the query engine defines what they do.
- `User`, `Product` and `ProductReview` entities beyond their identity. Their only logic is the id-based `equals`/`hashCode` pattern already modelled on `Order` and `OrderItem`. `Entity.User` and `Entity.Product` keep only an id, as targets of the order's and item's references.
- The `DEFAULT 'CREATED'` on the status column. The entity inserts its `status` field as it is, so an order saved without a status stores NULL, and the model keeps `status` null unless it is set.
- Status transitions (CREATED → PAID / CANCELLED). The code enforces none of them; they exist only in comments. `OrderStatus` is a three-constructor datatype.
- Persistence behaviour: cascades, orphan removal, lazy loading, the database-assigned `created_at`, unique email, and composite-key uniqueness. The database and the mapper enforce these, not the code shown.
- Composition with `Specification.where` / `.and` (library code). Only the AND of two predicates inside `hasComment` is modelled. Besides DISTINCT, the query object of `hasOrders` is left out.
- Case folding is ASCII only. Java's `toLowerCase` is locale-dependent Unicode, and SQL `LOWER` depends on the collation. The collation may also make `=` and LIKE case-insensitive, and under a PAD SPACE collation trailing spaces are ignored by `=` and `<>` (so a blank-only comment compares equal to `''` and fails `hasComment`). The model compares strings exactly, as a NO PAD, case-sensitive collation does.
- Plain substring search is not what the code does for every input. The search text of `nameContains` / `commentContains` is not escaped, so a `%` or `_` in it is a wildcard. The factories' contracts give the LIKE meaning for every text. The containment reading is proved only for text without wildcards, by the `…IsCaseInsensitiveContainment` lemmas. `UserSpecifications.NameContainsUnderscoreKeepsAnyName` shows what an unescaped `_` does. Backslash escapes in LIKE patterns are not modelled.
- Java `toString` is left out.
- Aliasing of the item list is not modelled. The list is a `seq` field, so the list object returned by `getItems` / taken by `setItems`, and any sharing between orders, are out of the model. The remaining getters and setters (`setTotal`, `setStatus`, `setUser`, `setCreatedAt` on `Order`; `setQuantity`, `setProduct`, `setCreatedAt` on `OrderItem`) are not modelled: each assigns one field and nothing else, and no modelled operation depends on them beyond the constructors' values.
- Null arguments to `addItem` and `removeItem` are excluded by the `OrderItem` parameter type. In Java, `addItem(null)` appends null and then throws `NullPointerException`, and `removeItem(null)` removes the first null element and then throws.
- The class check in `equals` is only the three argument kinds of `JavaLang.EqualsArg`. Mapper proxies, whose runtime class differs from the entity's, are not modelled.
- Ids are unbounded integers. `Long.hashCode` uses the 64-bit two's-complement pattern of the id, which equals the Java value whenever the id fits in a `long`.

## Findings

| source | as written | input that shows it | evidently intended | confidence | as-written member | corrected member |
|---|---|---|---|---|---|---|
| src/main/java/br/com/unipds/ordersystemflyway/entity/Order.java:152-155 with src/main/java/br/com/unipds/ordersystemflyway/entity/OrderItem.java:166-167 | `removeItem(item)` removes the first listed item that `item.equals`. `equals` treats two null ids as equal, so before saving every item equals every other one. | a new order with new items a and b added by `addItem` (the usage documented at Order.java:124-127), then `removeItem(b)`: a is removed, b stays listed with a null back-reference | remove b itself and keep both sides in step: an item without an id should be equal only to itself | not executed; high | `EntityProperties.RemoveUnsavedItemAsWritten` | `Entity.Order.RemoveItemCorrected` (with `Entity.OrderItem.EqualsCorrected`; see `EntityProperties.RemoveUnsavedItemCorrected`) |
