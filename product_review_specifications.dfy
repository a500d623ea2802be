/**
 * The optional filters over product reviews. Reviews are keyed by the
 * composite id, so the user and product filters navigate `id.userId` and
 * `id.productId`; the `comment` column may be NULL.
 */
module ProductReviewSpecifications {
  import opened Wrappers
  import opened Criteria

  datatype ReviewField = IdUserId | IdProductId | Rating | Comment

  /** A `product_reviews` row as the query sees it; the key columns are never NULL. */
  datatype ReviewRow = ReviewRow(userId: int, productId: int, rating: int, comment: Option<string>)

  function Column(r: ReviewRow, f: ReviewField): Option<Value> {
    match f
    case IdUserId => Some(Num(r.userId))
    case IdProductId => Some(Num(r.productId))
    case Rating => Some(Num(r.rating))
    case Comment => if r.comment.Some? then Some(Text(r.comment.value)) else None
  }

  /** Whether `findAll(spec)` keeps the review. */
  predicate Selects(spec: Option<Pred<ReviewField>>, r: ReviewRow) {
    Admits(spec, f => Column(r, f))
  }

  function ByUser(userId: Option<int>): (spec: Option<Pred<ReviewField>>)
    ensures spec.None? <==> userId.None?
    ensures userId.Some? ==> forall r :: Selects(spec, r) <==> r.userId == userId.value
  {
    if userId.None? then None else Some(Equal(IdUserId, Num(userId.value)))
  }

  function ByProduct(productId: Option<int>): (spec: Option<Pred<ReviewField>>)
    ensures spec.None? <==> productId.None?
    ensures productId.Some? ==> forall r :: Selects(spec, r) <==> r.productId == productId.value
  {
    if productId.None? then None else Some(Equal(IdProductId, Num(productId.value)))
  }

  /** Inclusive: rating >= the argument. */
  function RatingGreaterThanEqual(rating: Option<int>): (spec: Option<Pred<ReviewField>>)
    ensures spec.None? <==> rating.None?
    ensures rating.Some? ==> forall r :: Selects(spec, r) <==> r.rating >= rating.value
  {
    if rating.None? then None else Some(GreaterThanOrEqualTo(Rating, rating.value))
  }

  /** Always a restriction: comment IS NOT NULL AND comment <> ''. */
  function HasComment(): (spec: Option<Pred<ReviewField>>)
    ensures spec.Some?
    ensures forall r :: Selects(spec, r) <==> r.comment.Some? && r.comment.value != ""
  {
    Some(And(IsNotNull(Comment), NotEqual(Comment, Text(""))))
  }

  /** `like(lower(comment), "%" + text.toLowerCase() + "%")`. */
  function CommentContains(text: Option<string>): (spec: Option<Pred<ReviewField>>)
    ensures spec.None? <==> text.None?
    ensures text.Some? ==> forall r: ReviewRow :: r.comment.None? ==> !Selects(spec, r)
    ensures text.Some? ==> forall r: ReviewRow :: Selects(spec, r) <==>
      r.comment.Some? && Like(LowerString(r.comment.value), ContainsPattern(LowerString(text.value)))
  {
    if text.None? then None else Some(LikeLower(Comment, ContainsPattern(LowerString(text.value))))
  }

  // ------------------------------------------------------------ properties

  /** A comment made only of blanks still counts as a comment. */
  lemma BlankCommentHasComment(r: ReviewRow)
    requires r.comment.Some? && |r.comment.value| > 0
    requires forall i :: 0 <= i < |r.comment.value| ==> r.comment.value[i] == ' '
    ensures Selects(HasComment(), r)
  {
  }

  /**
   * `commentContains(text)` keeps exactly the reviews with a comment whose
   * lower-cased form contains the lower-cased text, when the text holds no
   * LIKE wildcard; a review without a comment is never kept.
   */
  lemma CommentContainsIsCaseInsensitiveContainment(text: string)
    requires NoWildcards(text)
    ensures forall r :: (Selects(CommentContains(Some(text)), r)
                         <==> r.comment.Some? && Contains(LowerString(r.comment.value), LowerString(text)))
  {
    forall r ensures Selects(CommentContains(Some(text)), r)
        <==> r.comment.Some? && Contains(LowerString(r.comment.value), LowerString(text))
    {
      if r.comment.Some? {
        LowerLikeIsCaseInsensitiveContainment(r.comment.value, text);
      }
    }
  }

  /**
   * The search text is not escaped: searching for `%` finds a review whose
   * comment is empty, which `hasComment` rejects.
   */
  lemma PercentSearchFindsEmptyComment(r: ReviewRow)
    requires r.comment == Some("")
    ensures Selects(CommentContains(Some("%")), r) && !Selects(HasComment(), r)
  {
    assert ContainsPattern(LowerString("%")) == "%%%";
  }

  /** A review that matches any comment search has a comment, so it passes `hasComment` unless the text is empty. */
  lemma CommentContainsNonEmptyImpliesHasComment(text: string, r: ReviewRow)
    requires NoWildcards(text) && text != []
    requires Selects(CommentContains(Some(text)), r)
    ensures Selects(HasComment(), r)
  {
    CommentContainsIsCaseInsensitiveContainment(text);
    var i :| 0 <= i <= |LowerString(r.comment.value)| && HasPrefix(LowerString(r.comment.value)[i..], LowerString(text));
  }
}
