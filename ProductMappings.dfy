/**
 * The two mapping profiles that build and overwrite products:
 * Mappings/AdvancedProductMappingProfile.cs (creation from a profile request)
 * and Mappings/ProductMappingProfile.cs (the plain field copies). The fresh
 * Guid and DateTime.UtcNow the profiles read are parameters.
 */
module ProductMappings {
  import opened Wrappers
  import opened Text
  import opened Runtime
  import opened Products
  import CreateProductProfileValidator
  import UpdateProductValidator

  type CreateProductProfileRequest = CreateProductProfileValidator.CreateProductProfileRequest
  type UpdateProductRequest = UpdateProductValidator.UpdateProductRequest

  // ---------------------------------------------------------------------------
  // AdvancedProductMappingProfile: CreateProductProfileRequest -> Product

  /** The price a Home product is stored at: 10% off. */
  function HomePrice(price: real): real {
    price * 0.9
  }

  /** The ConstructUsing rule of the creation map. */
  function FromProfileRequest(src: CreateProductProfileRequest, newId: Guid, now: Ticks): (p: Product)
    ensures p.IsAvailable() <==> src.stockQuantity > 0
    ensures src.category == Home ==> p.imageUrl.None?
    ensures src.price > 0.0 ==> 0.0 < p.price <= src.price
  {
    Product(
      newId,
      src.name,
      src.brand,
      src.sku,
      src.category,
      if src.category == Home then HomePrice(src.price) else src.price,
      src.releaseDate,
      if src.category == Home then None else src.imageUrl,
      src.stockQuantity,
      Some(src.stockQuantity > 0),
      now)
  }

  /** Copied verbatim: identity fields, category, dates, stock; CreatedAt is the creation time. */
  lemma FromProfileRequestCopies(src: CreateProductProfileRequest, newId: Guid, now: Ticks)
    ensures var p := FromProfileRequest(src, newId, now);
      && p.id == newId && p.name == src.name && p.brand == src.brand && p.sku == src.sku
      && p.category == src.category && p.releaseDate == src.releaseDate
      && p.stockQuantity == src.stockQuantity && p.createdAt == now
  {
  }

  /** Only Home products are discounted and lose their image; every other category keeps both. */
  lemma HomeDiscountRule(src: CreateProductProfileRequest, newId: Guid, now: Ticks)
    ensures var p := FromProfileRequest(src, newId, now);
      && (src.category == Home ==> p.price * 10.0 == src.price * 9.0 && p.imageUrl == None)
      && (src.category != Home ==> p.price == src.price && p.imageUrl == src.imageUrl)
  {
  }

  /** A positive price is strictly lowered exactly for Home products. */
  lemma DiscountLowersOnlyHome(src: CreateProductProfileRequest, newId: Guid, now: Ticks)
    requires src.price > 0.0
    ensures FromProfileRequest(src, newId, now).price < src.price <==> src.category == Home
  {
  }

  /** A Home product requested at 100 is stored at 90. */
  lemma HomeHundredStoredAtNinety(src: CreateProductProfileRequest, newId: Guid, now: Ticks)
    requires src.category == Home && src.price == 100.0
    ensures FromProfileRequest(src, newId, now).price == 90.0
  {
  }

  // ---------------------------------------------------------------------------
  // ProductMappingProfile

  /** CreateProductRequest, as the profile's constructor call reads it. */
  datatype CreateProductRequest = CreateProductRequest(
    name: NullableString,
    brand: NullableString,
    sku: NullableString,
    category: ProductCategory,
    price: real,
    releaseDate: Ticks,
    imageUrl: NullableString,
    stockQuantity: Int32,
    isAvailable: bool,
    createdAt: Ticks)

  /** CreateMap<Product, CreateProductRequest>(): members matched by name; IsAvailable is the computed property. */
  function ToCreateRequest(p: Product): (r: CreateProductRequest)
    ensures r.isAvailable == p.IsAvailable()
  {
    CreateProductRequest(p.name, p.brand, p.sku, p.category, p.price, p.releaseDate, p.imageUrl,
                         p.stockQuantity, p.IsAvailable(), p.createdAt)
  }

  /** CreateMap<CreateProductRequest, Product>().ConstructUsing(...): a fresh id, IsAvailable as the override. */
  function FromCreateRequest(src: CreateProductRequest, newId: Guid): (p: Product)
    ensures p.IsAvailable() == src.isAvailable
  {
    Product(newId, src.name, src.brand, src.sku, src.category, src.price, src.releaseDate, src.imageUrl,
            src.stockQuantity, Some(src.isAvailable), src.createdAt)
  }

  /** Request -> Product -> request gives the request back. */
  lemma CreateRequestRoundTrip(src: CreateProductRequest, newId: Guid)
    ensures ToCreateRequest(FromCreateRequest(src, newId)) == src
  {
  }

  /**
   * Product -> request -> Product keeps every copied field, CreatedAt and
   * availability; only the id is new and the availability becomes an explicit override.
   */
  lemma ProductRoundTrip(p: Product, newId: Guid)
    ensures var q := FromCreateRequest(ToCreateRequest(p), newId);
      && q == p.(id := newId, isAvailableOverride := Some(p.IsAvailable()))
      && q.IsAvailable() == p.IsAvailable()
  {
  }

  /**
   * CreateMap<UpdateProductRequest, Product>().ForMember(CreatedAt, Ignore)
   * applied onto the stored product: members are matched by name ignoring
   * case (`id` sets Id); IsAvailable is read-only on Product, and
   * IsAvailableOverride has no source member, so both stay as they were.
   */
  function ApplyUpdate(req: UpdateProductRequest, existing: Product): (p: Product)
    ensures p.createdAt == existing.createdAt
    ensures p.isAvailableOverride == existing.isAvailableOverride
  {
    Product(req.id, req.name, req.brand, req.sku, req.category, req.price, req.releaseDate, req.imageUrl,
            req.stockQuantity, existing.isAvailableOverride, existing.createdAt)
  }

  /** After the update every request field is in the product, whatever the product held before. */
  lemma ApplyUpdateTakesRequestFields(req: UpdateProductRequest, existing: Product)
    ensures var p := ApplyUpdate(req, existing);
      && p.id == req.id && p.name == req.name && p.brand == req.brand && p.sku == req.sku
      && p.category == req.category && p.price == req.price && p.releaseDate == req.releaseDate
      && p.imageUrl == req.imageUrl && p.stockQuantity == req.stockQuantity
  {
  }

  /** Applying the same update twice is applying it once. */
  lemma ApplyUpdateIdempotent(req: UpdateProductRequest, existing: Product)
    ensures ApplyUpdate(req, ApplyUpdate(req, existing)) == ApplyUpdate(req, existing)
  {
  }

  /** The outcome depends on the stored product only through CreatedAt and the override. */
  lemma ApplyUpdateDependsOnlyOnKeptFields(req: UpdateProductRequest, a: Product, b: Product)
    requires a.createdAt == b.createdAt && a.isAvailableOverride == b.isAvailableOverride
    ensures ApplyUpdate(req, a) == ApplyUpdate(req, b)
  {
  }
}
