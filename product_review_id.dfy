/**
 * The composite key of a product review: the pair (user id, product id).
 * Its setters only ever write one field, so the key is modelled as an
 * immutable value and each setter as a function returning the updated key.
 */
module ProductReviewKey {
  import opened Wrappers
  import opened JavaLang

  /** `ProductReviewId(userId, productId)`; either `Long` may be null. */
  datatype ReviewKey = ReviewKey(userId: Option<int>, productId: Option<int>)

  /** `setUserId`: the user part changes, the product part stays. */
  function SetUserId(k: ReviewKey, userId: Option<int>): (r: ReviewKey)
    ensures r.userId == userId && r.productId == k.productId
  {
    k.(userId := userId)
  }

  /** `setProductId`: the product part changes, the user part stays. */
  function SetProductId(k: ReviewKey, productId: Option<int>): (r: ReviewKey)
    ensures r.productId == productId && r.userId == k.userId
  {
    k.(productId := productId)
  }

  /** `equals(Object o)`: identity, then class check, then both parts with `Objects.equals`. */
  predicate KeyEquals(k: ReviewKey, o: EqualsArg<ReviewKey>)
    ensures KeyEquals(k, o) <==> o == Instance(k)
  {
    match o
    case NullRef => false
    case OtherClass => false
    case Instance(that) => k == that || (ObjectsEquals(k.userId, that.userId) && ObjectsEquals(k.productId, that.productId))
  }

  /** `hashCode()`: `Objects.hash(userId, productId)`. */
  function KeyHashCode(k: ReviewKey): (h: int)
    ensures IsInt32(h)
  {
    ObjectsHash2(k.userId, k.productId)
  }

  /** Two keys are equal exactly when both parts are equal, null-safe; never equal to null or another class. */
  lemma KeyEqualsMeansBothParts(k: ReviewKey, m: ReviewKey)
    ensures KeyEquals(k, Instance(m)) <==> k.userId == m.userId && k.productId == m.productId
    ensures !KeyEquals(k, NullRef) && !KeyEquals(k, OtherClass)
  {
  }

  /** Key equality is reflexive, symmetric and transitive. */
  lemma KeyEqualsIsEquivalence(a: ReviewKey, b: ReviewKey, c: ReviewKey)
    ensures KeyEquals(a, Instance(a))
    ensures KeyEquals(a, Instance(b)) <==> KeyEquals(b, Instance(a))
    ensures KeyEquals(a, Instance(b)) && KeyEquals(b, Instance(c)) ==> KeyEquals(a, Instance(c))
  {
  }

  /** Equal keys have equal hash codes. */
  lemma KeyEqualsImpliesSameHash(a: ReviewKey, b: ReviewKey)
    requires KeyEquals(a, Instance(b))
    ensures KeyHashCode(a) == KeyHashCode(b)
  {
  }

  /** The parts are ordered: (u, p) and (p, u) are different keys unless u = p. */
  lemma SwappedKeyDiffers(u: Option<int>, p: Option<int>)
    ensures KeyEquals(ReviewKey(u, p), Instance(ReviewKey(p, u))) <==> u == p
  {
  }

  /** Setting a part to the value it already has gives an equal key; setting it to another value never does. */
  lemma SetterChangesEquality(k: ReviewKey, u: Option<int>, p: Option<int>)
    ensures KeyEquals(SetUserId(k, u), Instance(k)) <==> u == k.userId
    ensures KeyEquals(SetProductId(k, p), Instance(k)) <==> p == k.productId
  {
  }
}
