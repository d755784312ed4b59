/** The product entity: Features/Products/Product.cs. */
module Products {
  import opened Wrappers
  import opened Text
  import opened Runtime

  /**
   * ProductCategory. The enum's declaration is not part of this model: the
   * three members the code names are listed, and `Undefined` is a value
   * outside the declared members, which IsInEnum() rejects.
   */
  datatype ProductCategory = Electronics | Clothing | Home | Undefined(code: int)

  /** FluentValidation's IsInEnum(). */
  predicate IsInEnum(c: ProductCategory) {
    !c.Undefined?
  }

  /** ProductCategory.ToString(): the member name, or the number of an undefined value. */
  function CategoryName(c: ProductCategory): string {
    match c
    case Electronics => "Electronics"
    case Clothing => "Clothing"
    case Home => "Home"
    case Undefined(code) => IntToString(code)
  }

  /** Enum.TryParse on a member name (exact, case-sensitive). */
  function ParseCategoryName(s: string): (r: Option<ProductCategory>)
    ensures r.Some? ==> IsInEnum(r.value) && CategoryName(r.value) == s
  {
    if s == "Electronics" then Some(Electronics)
    else if s == "Clothing" then Some(Clothing)
    else if s == "Home" then Some(Home)
    else None
  }

  /** Parsing a defined member's name gives the member back. */
  lemma ParseCategoryNameRoundTrip(c: ProductCategory)
    requires IsInEnum(c)
    ensures ParseCategoryName(CategoryName(c)) == Some(c)
  {
  }

  /** The positional record Product; `decimal` prices are exact reals. */
  datatype Product = Product(
    id: Guid,
    name: NullableString,
    brand: NullableString,
    sku: NullableString,
    category: ProductCategory,
    price: real,
    releaseDate: Ticks,
    imageUrl: NullableString,
    stockQuantity: Int32,
    isAvailableOverride: Option<bool>,
    createdAt: Ticks)
  {
    /** IsAvailableOverride ?? StockQuantity > 0 */
    predicate IsAvailable() {
      match isAvailableOverride
      case Some(b) => b
      case None => stockQuantity > 0
    }
  }

  /** `new Product(...)` with the record's default arguments: stock 0, no override, CreatedAt = default(DateTime). */
  function NewProductWithDefaults(id: Guid, name: NullableString, brand: NullableString, sku: NullableString,
                                  category: ProductCategory, price: real, releaseDate: Ticks,
                                  imageUrl: NullableString): (p: Product)
    ensures p.stockQuantity == 0 && p.isAvailableOverride == None && p.createdAt == 0
    ensures !p.IsAvailable()
  {
    Product(id, name, brand, sku, category, price, releaseDate, imageUrl, 0, None, 0)
  }

  /** A set override decides availability; without one, a product is available exactly when it has stock. */
  lemma IsAvailableRule(p: Product)
    ensures p.isAvailableOverride.Some? ==> (p.IsAvailable() <==> p.isAvailableOverride.value)
    ensures p.isAvailableOverride.None? ==> (p.IsAvailable() <==> p.stockQuantity > 0)
  {
  }

  /** Availability depends on the override and the stock and on nothing else. */
  lemma IsAvailableDependsOnOverrideAndStock(p: Product, q: Product)
    requires p.isAvailableOverride == q.isAvailableOverride && p.stockQuantity == q.stockQuantity
    ensures p.IsAvailable() == q.IsAvailable()
  {
  }
}
