/**
 * The optional filters over products: name search, price bounds and stock
 * levels. Prices are in cents; the `stock` column may be NULL.
 */
module ProductSpecifications {
  import opened Wrappers
  import opened Criteria

  datatype ProductField = Name | Price | Stock

  /** A `products` row as the query sees it. */
  datatype ProductRow = ProductRow(id: int, name: string, price: int, stock: Option<int>)

  function Column(p: ProductRow, f: ProductField): Option<Value> {
    match f
    case Name => Some(Text(p.name))
    case Price => Some(Num(p.price))
    case Stock => if p.stock.Some? then Some(Num(p.stock.value)) else None
  }

  /** Whether `findAll(spec)` keeps the product. */
  predicate Selects(spec: Option<Pred<ProductField>>, p: ProductRow) {
    Admits(spec, f => Column(p, f))
  }

  /** `like(lower(name), "%" + name.toLowerCase() + "%")`. */
  function NameContains(name: Option<string>): (spec: Option<Pred<ProductField>>)
    ensures spec.None? <==> name.None?
    ensures spec.Some? ==> spec.value.LikeLower? && spec.value.field == Name
    ensures name.Some? ==> forall p :: Selects(spec, p) <==>
      Like(LowerString(p.name), ContainsPattern(LowerString(name.value)))
  {
    if name.None? then None else Some(LikeLower(Name, ContainsPattern(LowerString(name.value))))
  }

  function PriceGreaterThan(price: Option<int>): (spec: Option<Pred<ProductField>>)
    ensures spec.None? <==> price.None?
    ensures price.Some? ==> forall p :: Selects(spec, p) <==> p.price > price.value
  {
    if price.None? then None else Some(GreaterThan(Price, price.value))
  }

  function PriceLessThan(price: Option<int>): (spec: Option<Pred<ProductField>>)
    ensures spec.None? <==> price.None?
    ensures price.Some? ==> forall p :: Selects(spec, p) <==> p.price < price.value
  {
    if price.None? then None else Some(LessThan(Price, price.value))
  }

  /** Every case is inclusive. */
  function PriceBetween(minPrice: Option<int>, maxPrice: Option<int>): (spec: Option<Pred<ProductField>>)
    ensures spec.None? <==> minPrice.None? && maxPrice.None?
    ensures forall p :: Selects(spec, p) <==>
      (minPrice.None? || minPrice.value <= p.price) && (maxPrice.None? || p.price <= maxPrice.value)
  {
    if minPrice.None? && maxPrice.None? then None
    else if minPrice.None? then Some(LessThanOrEqualTo(Price, maxPrice.value))
    else if maxPrice.None? then Some(GreaterThanOrEqualTo(Price, minPrice.value))
    else Some(Between(Price, minPrice.value, maxPrice.value))
  }

  /** Always a restriction: stock > 0. A NULL stock is not in stock. */
  function HasStock(): (spec: Option<Pred<ProductField>>)
    ensures spec.Some?
    ensures forall p :: Selects(spec, p) <==> p.stock.Some? && p.stock.value > 0
  {
    Some(GreaterThan(Stock, 0))
  }

  function LowStock(threshold: Option<int>): (spec: Option<Pred<ProductField>>)
    ensures spec.None? <==> threshold.None?
    ensures threshold.Some? ==> forall p :: Selects(spec, p) <==> p.stock.Some? && p.stock.value <= threshold.value
  {
    if threshold.None? then None else Some(LessThanOrEqualTo(Stock, threshold.value))
  }

  /** Always a restriction: stock = 0. */
  function OutOfStock(): (spec: Option<Pred<ProductField>>)
    ensures spec.Some?
    ensures forall p :: Selects(spec, p) <==> p.stock == Some(0)
  {
    Some(Equal(Stock, Num(0)))
  }

  // ------------------------------------------------------------ properties

  /**
   * `nameContains(text)` keeps exactly the products whose lower-cased name
   * contains the lower-cased text, when the text holds no LIKE wildcard.
   */
  lemma NameContainsIsCaseInsensitiveContainment(text: string)
    requires NoWildcards(text)
    ensures forall p :: Selects(NameContains(Some(text)), p) <==> Contains(LowerString(p.name), LowerString(text))
  {
    forall p ensures Selects(NameContains(Some(text)), p) <==> Contains(LowerString(p.name), LowerString(text)) {
      LowerLikeIsCaseInsensitiveContainment(p.name, text);
    }
  }

  /** No product is both out of stock and in stock, and a product with a non-null stock is one or the other when stock is never negative. */
  lemma OutOfStockExcludesHasStock(p: ProductRow)
    ensures !(Selects(OutOfStock(), p) && Selects(HasStock(), p))
    ensures p.stock.Some? && p.stock.value >= 0 ==> Selects(OutOfStock(), p) || Selects(HasStock(), p)
    ensures p.stock.None? ==> !Selects(OutOfStock(), p) && !Selects(HasStock(), p)
  {
  }

  /** Out of stock is low stock for every threshold that is not negative. */
  lemma OutOfStockIsLowStock(p: ProductRow, threshold: int)
    requires threshold >= 0 && Selects(OutOfStock(), p)
    ensures Selects(LowStock(Some(threshold)), p)
  {
  }

  /** The price range splits into its two one-sided filters, because every case is inclusive. */
  lemma PriceBetweenIsBothOneSidedFilters(minPrice: Option<int>, maxPrice: Option<int>, p: ProductRow)
    ensures Selects(PriceBetween(minPrice, maxPrice), p)
        <==> Selects(PriceBetween(minPrice, None), p) && Selects(PriceBetween(None, maxPrice), p)
  {
  }

  /** `priceBetween(null, m)` and `priceLessThan(m)` differ exactly on products priced `m`. */
  lemma PriceUpperBoundInclusiveVersusStrict(m: int, p: ProductRow)
    ensures Selects(PriceBetween(None, Some(m)), p) && !Selects(PriceLessThan(Some(m)), p) <==> p.price == m
    ensures Selects(PriceLessThan(Some(m)), p) ==> Selects(PriceBetween(None, Some(m)), p)
  {
  }
}
