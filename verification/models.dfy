/**
 * The result records of the scraper and the mapping from one extracted
 * sidebar row to one ranked product.
 *
 * Extracted rows are dictionaries read with `.get`, so every field is
 * optional. The result records are validated models: `ProductLink.url` and
 * `Product.name` must be strings, and building a record without them raises a
 * validation error that ends the whole run.
 */
module Models {
  import opened Wrappers

  /** One merchant offer of a product. */
  datatype ProductLink = ProductLink(url: string, price: Option<string>, store: Option<string>, rating: Option<string>)

  /** One harvested product; `rank` is its 1-based position in the run. */
  datatype Product = Product(
    rank: int,
    name: string,
    price: Option<string>,
    rating: Option<string>,
    reviewsCount: Option<string>,
    links: seq<ProductLink>)

  /** The run's output record. */
  datatype ShoppingResults = ShoppingResults(
    query: string,
    totalProducts: int,
    products: seq<Product>,
    scrapedAt: string,
    searchUrl: string)

  /** One merchant sub-row of an extracted sidebar row (the keys the schema targets). */
  datatype Merchant = Merchant(href: Option<string>, price: Option<string>, store: Option<string>, storeRating: Option<string>)

  /**
   * One extracted sidebar row: product-level scalars plus the `merchants` list.
   * `price` is read from the row as well. The generation prompt names `price`
   * only inside `merchants`, but a generated schema may also declare it at the
   * top level, and the gate accepts it there.
   */
  datatype Row = Row(
    productTitle: Option<string>,
    overallRating: Option<string>,
    reviewCount: Option<string>,
    price: Option<string>,
    merchants: Option<seq<Merchant>>)

  /** A model validation failure: which record and which of its fields. */
  datatype ValidationError = ValidationError(model: string, field: string)

  const LinkUrlMissing := ValidationError("ProductLink", "url")
  const ProductNameMissing := ValidationError("Product", "name")

  /** `row.get("merchants", [])`: the sub-rows when the key is present, none otherwise. */
  function MerchantsOf(row: Row): seq<Merchant>
  {
    match row.merchants
    case None => []
    case Some(ms) => ms
  }

  /** True when `ProductLink` accepts the sub-row. */
  predicate HasUrl(m: Merchant)
  {
    m.href.Some?
  }

  predicate AllHaveUrl(ms: seq<Merchant>)
  {
    forall k :: 0 <= k < |ms| ==> HasUrl(ms[k])
  }

  /** True when the row can be turned into a `Product` without a validation error. */
  predicate Buildable(row: Row)
  {
    row.productTitle.Some? && AllHaveUrl(MerchantsOf(row))
  }

  /** The link a merchant sub-row becomes: href to url, price, store, store_rating to rating. */
  function LinkOf(m: Merchant): ProductLink
    requires HasUrl(m)
  {
    ProductLink(url := m.href.value, price := m.price, store := m.store, rating := m.storeRating)
  }

  /** Builds the links one sub-row at a time, in order, stopping at the first sub-row without `href`. */
  function ToLinks(ms: seq<Merchant>): (r: Result<seq<ProductLink>, ValidationError>)
    ensures r.Success? <==> AllHaveUrl(ms)
    ensures r.Success? ==> |r.value| == |ms|
    ensures r.Success? ==> forall k :: 0 <= k < |ms| ==>
      && r.value[k].url == ms[k].href.value
      && r.value[k].price == ms[k].price
      && r.value[k].store == ms[k].store
      && r.value[k].rating == ms[k].storeRating
    ensures r.Failure? ==> r.error == LinkUrlMissing
  {
    if |ms| == 0 then Success([])
    else if !HasUrl(ms[0]) then Failure(LinkUrlMissing)
    else match ToLinks(ms[1..])
      case Failure(e) => Failure(e)
      case Success(rest) => Success([LinkOf(ms[0])] + rest)
  }

  /**
   * The product built from the first row of one extraction. The links are
   * built before the product, so a sub-row without `href` is reported even
   * when the title is missing too.
   */
  function ToProduct(row: Row, rank: int): (r: Result<Product, ValidationError>)
    ensures r.Success? <==> Buildable(row)
    ensures r.Failure? ==> r.error == (if AllHaveUrl(MerchantsOf(row)) then ProductNameMissing else LinkUrlMissing)
    ensures r.Success? ==> var p := r.value;
      && p.rank == rank
      && p.name == row.productTitle.value
      && p.price == row.price
      && p.rating == row.overallRating
      && p.reviewsCount == row.reviewCount
      && (row.merchants.None? ==> p.links == [])
      && (row.merchants.Some? ==> |p.links| == |row.merchants.value|)
      && |p.links| == |MerchantsOf(row)|
      && forall k :: 0 <= k < |p.links| ==> p.links[k] == LinkOf(MerchantsOf(row)[k])
  {
    match ToLinks(MerchantsOf(row))
    case Failure(e) => Failure(e)
    case Success(links) =>
      match row.productTitle
      case None => Failure(ProductNameMissing)
      case Some(title) =>
        Success(Product(
          rank := rank,
          name := title,
          price := row.price,
          rating := row.overallRating,
          reviewsCount := row.reviewCount,
          links := links))
  }

  /** Whether a row can be built does not depend on the rank it is given. */
  lemma BuildableIgnoresRank(row: Row, a: int, b: int)
    ensures ToProduct(row, a).Success? <==> ToProduct(row, b).Success?
    ensures ToProduct(row, a).Success? ==> ToProduct(row, a).value.(rank := b) == ToProduct(row, b).value
  {
  }
}
