/**
 * Features/Products/UpdateProductRequest.cs and Validators/UpdateProductValidator.cs:
 * the update request and the rules it must pass before the store is touched.
 */
module UpdateProductValidator {
  import opened Wrappers
  import opened Text
  import opened Runtime
  import opened Products
  import opened Validation

  /** The positional record UpdateProductRequest; its `id` names the product to overwrite. */
  datatype UpdateProductRequest = UpdateProductRequest(
    id: Guid,
    name: NullableString,
    brand: NullableString,
    sku: NullableString,
    category: ProductCategory,
    price: real,
    releaseDate: Ticks,
    imageUrl: NullableString,
    stockQuantity: Int32,
    isAvailable: bool)

  const NameTooShort := "Product Name must be at least 3 characters long."
  const PriceNotPositive := "Price must be greater than zero."
  const CategoryInvalid := "Category must be a valid ProductCategory."
  const SkuRequired := "SKU is required."
  const StockNegative := "Stock Quantity cannot be negative."
  const ReleaseDateFuture := "Release Date cannot be in the future."
  const BrandRequired := "Brand is required."

  /** RuleFor(x => x.Name).NotNull().NotEmpty().MinimumLength(3).WithMessage(...) */
  function NameRules(name: NullableString): seq<ValidationFailure> {
    Rule(NotNull(name), "Name", MustNotBeEmpty("Name"))
    + Rule(NotEmpty(name), "Name", MustNotBeEmpty("Name"))
    + Rule(MinimumLength(name, 3), "Name", NameTooShort)
  }

  /**
   * The failures of the rule set, in rule order. Every validator of a rule
   * runs, and each WithMessage replaces the message of the validator just
   * before it; the others keep the default "'X' must not be empty.".
   */
  function Validate(req: UpdateProductRequest, now: Ticks): (r: seq<ValidationFailure>)
    ensures forall i | 0 <= i < |r| :: r[i].propertyName in {"Name", "Price", "Category", "SKU", "StockQuantity", "ReleaseDate", "Brand"}
  {
    NameRules(req.name)
    + Rule(req.price > 0.0, "Price", PriceNotPositive)
    + Rule(IsInEnum(req.category), "Category", CategoryInvalid)
    + Rule(NotNull(req.sku), "SKU", MustNotBeEmpty("SKU"))
    + Rule(NotEmpty(req.sku), "SKU", SkuRequired)
    + Rule(req.stockQuantity >= 0, "StockQuantity", StockNegative)
    + Rule(req.releaseDate <= now, "ReleaseDate", ReleaseDateFuture)
    + Rule(NotNull(req.brand), "Brand", MustNotBeEmpty("Brand"))
    + Rule(NotEmpty(req.brand), "Brand", BrandRequired)
  }

  /** The request is valid exactly when every field rule holds. */
  lemma ValidIff(req: UpdateProductRequest, now: Ticks)
    ensures Validate(req, now) == [] <==>
      && req.name.Some? && !IsBlank(req.name.value) && |req.name.value| >= 3
      && req.price > 0.0
      && IsInEnum(req.category)
      && req.sku.Some? && !IsBlank(req.sku.value)
      && req.stockQuantity >= 0
      && req.releaseDate <= now
      && req.brand.Some? && !IsBlank(req.brand.value)
  {
  }

  /** The failures for the name come first, and only they speak of the name. */
  lemma NameFailuresFirst(req: UpdateProductRequest, now: Ticks)
    ensures Validate(req, now)[..|NameRules(req.name)|] == NameRules(req.name)
    ensures forall i | |NameRules(req.name)| <= i < |Validate(req, now)| :: Validate(req, now)[i].propertyName != "Name"
  {
  }

  /** A null name reports NotNull and NotEmpty with the default message; the length rule lets null through. */
  lemma NullNameFailures()
    ensures NameRules(None) == [ValidationFailure("Name", "'Name' must not be empty."), ValidationFailure("Name", "'Name' must not be empty.")]
  {
    assert MustNotBeEmpty("Name") == "'Name' must not be empty.";
  }

  /** A non-blank name of one or two characters fails only the length rule, with the custom message. */
  lemma ShortNameFailure(name: string)
    requires !IsBlank(name) && |name| < 3
    ensures NameRules(Some(name)) == [ValidationFailure("Name", NameTooShort)]
  {
  }

  /** A blank but non-null name of three or more characters fails only NotEmpty. */
  lemma BlankNameFailure(name: string)
    requires IsBlank(name) && |name| >= 3
    ensures NameRules(Some(name)) == [ValidationFailure("Name", MustNotBeEmpty("Name"))]
  {
  }

  /** The rules never look at the image URL or the availability flag. */
  lemma IgnoresImageUrlAndAvailability(req: UpdateProductRequest, imageUrl: NullableString, isAvailable: bool, now: Ticks)
    ensures Validate(req.(imageUrl := imageUrl, isAvailable := isAvailable), now) == Validate(req, now)
  {
  }
}
