/**
 * The three store operations of the product API:
 * Features/Products/CreateProductHandler.cs, UpdateProductHandler.cs and
 * DeleteProductHandler.cs. The product table and the memory cache are the
 * fields of a ProductStore; each handler is a method on it.
 */
module ProductHandlers {
  import opened Wrappers
  import opened Text
  import opened Runtime
  import opened Products
  import opened Validation
  import CreateProductProfileValidator
  import UpdateProductValidator
  import ProductMappings
  import Resolvers

  type CreateProductProfileRequest = CreateProductProfileValidator.CreateProductProfileRequest
  type UpdateProductRequest = UpdateProductValidator.UpdateProductRequest

  /** The cache key the creation handler invalidates. */
  const AllProductsKey := "all_products"

  /** The anonymous error object of a BadRequest. */
  datatype ErrorBody = ErrorBody(errorCode: string, message: string, details: seq<string>)

  /** The IResult values the handlers return. */
  datatype HttpResult<T> =
    | Created(location: string, createdValue: T)
    | Ok(value: T)
    | BadRequest(error: ErrorBody)
    | NotFound(message: string)

  /** What the creation handler throws (and, after logging, rethrows). */
  datatype CreateException =
    | ValidationException(details: seq<string>)
    | ValidatorFault(fault: CreateProductProfileValidator.Fault)
    | DuplicateKeyException
    | MappingException(cause: Resolvers.IndexOutOfRange)

  // ---------------------------------------------------------------------------
  // The table

  /** Ids are the table's primary key. */
  predicate UniqueIds(products: seq<Product>) {
    forall i, j | 0 <= i < |products| && 0 <= j < |products| && products[i].id == products[j].id :: i == j
  }

  predicate HasId(products: seq<Product>, id: Guid) {
    exists i | 0 <= i < |products| :: products[i].id == id
  }

  /** FindAsync(id): the position of the product with that key. */
  function IndexOfId(products: seq<Product>, id: Guid): (r: Option<nat>)
    ensures r.Some? ==> r.value < |products| && products[r.value].id == id
    ensures r.Some? ==> forall j | 0 <= j < r.value :: products[j].id != id
    ensures r.None? <==> !HasId(products, id)
    decreases |products|
  {
    if products == [] then None
    else if products[0].id == id then Some(0)
    else match IndexOfId(products[1..], id)
      case None => (assert forall j | 1 <= j < |products| :: products[j] == products[1..][j - 1]; None)
      case Some(k) => Some(k + 1)
  }

  /** The creation handler's AnyAsync(p => p.SKU == request.SKU): exact equality, a null SKU meeting a null one. */
  predicate SkuTaken(products: seq<Product>, sku: NullableString) {
    exists p | p in products :: p.sku == sku
  }

  /** How a missing string prints in an interpolated string: as nothing. */
  function Interpolate(s: NullableString): string {
    if s.Some? then s.value else ""
  }

  function DuplicateSkuDetail(sku: NullableString): string {
    "SKU: " + Interpolate(sku) + " already exists."
  }

  function NotFoundMessage(id: Guid): string {
    "Product with ID: " + GuidToString(id) + " not found."
  }

  function DeletedMessage(id: Guid): string {
    "Product with ID: " + GuidToString(id) + " deleted successfully."
  }

  function ProductLocation(id: Guid): string {
    "/products/" + GuidToString(id)
  }

  /** The error details of a rejected creation: the validator's failures in order, then the duplicate-SKU line. */
  function CreationDetails(failures: seq<ValidationFailure>, skuTaken: bool, sku: NullableString): (details: seq<string>)
    ensures |details| == |failures| + (if skuTaken then 1 else 0)
    ensures details[..|failures|] == Details(failures)
    ensures skuTaken <==> |details| > 0 && details[|details| - 1] == DuplicateSkuDetail(sku) && |details| == |failures| + 1
  {
    Details(failures) + (if skuTaken then [DuplicateSkuDetail(sku)] else [])
  }

  /** The table without its i-th row. */
  function RemoveAt(products: seq<Product>, i: nat): (r: seq<Product>)
    requires i < |products|
    ensures |r| == |products| - 1
    ensures forall j | 0 <= j < i :: r[j] == products[j]
    ensures forall j | i <= j < |r| :: r[j] == products[j + 1]
  {
    products[..i] + products[i + 1..]
  }

  /** Removing the row that holds `id` leaves no product with that id, and the ids unique. */
  lemma RemoveAtDropsId(products: seq<Product>, id: Guid)
    requires UniqueIds(products) && HasId(products, id)
    ensures var r := RemoveAt(products, IndexOfId(products, id).value);
      !HasId(r, id) && UniqueIds(r)
  {
    var i := IndexOfId(products, id).value;
    var r := RemoveAt(products, i);
    forall j | 0 <= j < |r| ensures r[j].id != id {
      if j < i { assert r[j] == products[j]; } else { assert r[j] == products[j + 1]; }
    }
    forall j, k | 0 <= j < |r| && 0 <= k < |r| && r[j].id == r[k].id ensures j == k {
      var j' := if j < i then j else j + 1;
      var k' := if k < i then k else k + 1;
      assert r[j] == products[j'] && r[k] == products[k'];
    }
  }

  /** Removing the row that holds `id` keeps every other product, and adds none. */
  lemma RemoveAtKeepsOthers(products: seq<Product>, id: Guid)
    requires UniqueIds(products) && HasId(products, id)
    ensures var r := RemoveAt(products, IndexOfId(products, id).value);
      && (forall p | p in products && p.id != id :: p in r)
      && (forall p | p in r :: p in products)
  {
    var i := IndexOfId(products, id).value;
    var r := RemoveAt(products, i);
    forall p | p in products && p.id != id ensures p in r {
      var k :| 0 <= k < |products| && products[k] == p;
      if k < i { assert r[k] == p; } else { assert r[k - 1] == p; }
    }
    forall p | p in r ensures p in products {
      var k :| 0 <= k < |r| && r[k] == p;
      if k < i { assert products[k] == p; } else { assert products[k + 1] == p; }
    }
  }

  /** Overwriting a row with a product of the same id keeps the ids unique. */
  lemma ReplaceKeepsUniqueIds(products: seq<Product>, i: nat, p: Product)
    requires UniqueIds(products) && i < |products| && p.id == products[i].id
    ensures UniqueIds(products[i := p])
  {
  }

  /** Appending a product with a new id keeps the ids unique. */
  lemma AppendKeepsUniqueIds(products: seq<Product>, p: Product)
    requires UniqueIds(products) && !HasId(products, p.id)
    ensures UniqueIds(products + [p])
  {
  }

  // ---------------------------------------------------------------------------
  // The store

  class ProductStore {
    /** The Products table, in insertion order. */
    var products: seq<Product>
    /** The IMemoryCache entries, by key. */
    var cache: map<string, seq<Product>>

    predicate Valid()
      reads this
    {
      UniqueIds(products)
    }

    constructor(initial: seq<Product>, entries: map<string, seq<Product>>)
      requires UniqueIds(initial)
      ensures Valid()
      ensures products == initial && cache == entries
    {
      products := initial;
      cache := entries;
    }

    /**
     * CreateProductHandler.Handle. Validation runs first and may throw;
     * a validation failure or an existing SKU throws a ValidationException
     * and touches nothing; otherwise the mapped product is added and the
     * "all_products" entry is evicted. Only then is the product mapped to
     * its DTO, and a brand initials resolver that throws makes the handler
     * throw with the product already saved.
     */
    method CreateProduct(request: CreateProductProfileRequest, clock: Clock, newId: Guid)
      returns (r: Result<HttpResult<Product>, CreateException>)
      requires Valid()
      modifies this
      ensures Valid()
      ensures var validation := CreateProductProfileValidator.Validate(request, old(products), clock);
        var skuTaken := SkuTaken(old(products), request.sku);
        var stored := validation == Success([]) && !skuTaken && !HasId(old(products), newId);
        var product := ProductMappings.FromProfileRequest(request, newId, clock.now);
        && (validation.Failure? ==> r == Failure(ValidatorFault(validation.error)))
        && (validation.Success? && (validation.value != [] || skuTaken) ==>
              r == Failure(ValidationException(CreationDetails(validation.value, skuTaken, request.sku))))
        && (validation == Success([]) && !skuTaken && HasId(old(products), newId) ==>
              r == Failure(DuplicateKeyException))
        && (stored && Resolvers.BrandInitialsAsWritten(product.brand).Failure? ==>
              r == Failure(MappingException(Resolvers.BrandInitialsAsWritten(product.brand).error)))
        && (stored && Resolvers.BrandInitialsAsWritten(product.brand).Success? ==>
              r == Success(Created(ProductLocation(newId), product)))
        && (stored ==> products == old(products) + [product] && cache == old(cache) - {AllProductsKey})
        && (!stored ==> products == old(products) && cache == old(cache))
    {
      var validation := CreateProductProfileValidator.Validate(request, products, clock);
      if validation.Failure? {
        return Failure(ValidatorFault(validation.error));
      }
      var skuTaken := SkuTaken(products, request.sku);
      if validation.value != [] || skuTaken {
        var details := Details(validation.value);
        if skuTaken {
          details := details + [DuplicateSkuDetail(request.sku)];
        }
        assert details == CreationDetails(validation.value, skuTaken, request.sku);
        return Failure(ValidationException(details));
      }
      var product := ProductMappings.FromProfileRequest(request, newId, clock.now);
      if HasId(products, product.id) {
        return Failure(DuplicateKeyException);
      }
      AppendKeepsUniqueIds(products, product);
      products := products + [product];
      cache := cache - {AllProductsKey};
      var initials := Resolvers.BrandInitialsAsWritten(product.brand);
      if initials.Failure? {
        return Failure(MappingException(initials.error));
      }
      return Success(Created(ProductLocation(product.id), product));
    }

    /**
     * UpdateProductHandler.Handle: validate, then find by id, then overwrite
     * the stored product's mapped fields.
     */
    method UpdateProduct(request: UpdateProductRequest, now: Ticks) returns (r: HttpResult<Product>)
      requires Valid()
      modifies this
      ensures Valid()
      ensures cache == old(cache)
      ensures var failures := UpdateProductValidator.Validate(request, now);
        && (failures != [] ==>
              r == BadRequest(ErrorBody("VALIDATION_ERROR", "Validation failed", Details(failures))) && products == old(products))
        && (failures == [] && !HasId(old(products), request.id) ==>
              r == NotFound(NotFoundMessage(request.id)) && products == old(products))
        && (failures == [] && HasId(old(products), request.id) ==>
              var i := IndexOfId(old(products), request.id).value;
              && r == Ok(ProductMappings.ApplyUpdate(request, old(products)[i]))
              && products == old(products)[i := r.value])
    {
      var failures := UpdateProductValidator.Validate(request, now);
      if failures != [] {
        return BadRequest(ErrorBody("VALIDATION_ERROR", "Validation failed", Details(failures)));
      }
      var found := IndexOfId(products, request.id);
      if found.None? {
        return NotFound(NotFoundMessage(request.id));
      }
      var i := found.value;
      var updated := ProductMappings.ApplyUpdate(request, products[i]);
      ReplaceKeepsUniqueIds(products, i, updated);
      products := products[i := updated];
      return Ok(updated);
    }

    /** DeleteProductHandler.Handle: find by id, then remove. */
    method DeleteProduct(id: Guid) returns (r: HttpResult<string>)
      requires Valid()
      modifies this
      ensures Valid()
      ensures cache == old(cache)
      ensures !HasId(old(products), id) ==> r == NotFound(NotFoundMessage(id)) && products == old(products)
      ensures HasId(old(products), id) ==>
        && r == Ok(DeletedMessage(id))
        && products == RemoveAt(old(products), IndexOfId(old(products), id).value)
    {
      var found := IndexOfId(products, id);
      if found.None? {
        return NotFound(NotFoundMessage(id));
      }
      RemoveAtDropsId(products, id);
      products := RemoveAt(products, found.value);
      return Ok(DeletedMessage(id));
    }
  }

  // ---------------------------------------------------------------------------
  // What the handlers promise, stated on the specification functions

  /** A request whose SKU some stored product already has is never created, whatever else it holds. */
  lemma DuplicateSkuNeverCreated(products: seq<Product>, request: CreateProductProfileRequest, clock: Clock)
    requires SkuTaken(products, request.sku)
    ensures var v := CreateProductProfileValidator.Validate(request, products, clock);
      v.Success? ==> DuplicateSkuDetail(request.sku) in CreationDetails(v.value, true, request.sku)
  {
  }

  /** A rejected creation reports the validator's failures first, each as "Property: Message". */
  lemma CreationDetailsOrder(failures: seq<ValidationFailure>, skuTaken: bool, sku: NullableString, k: nat)
    requires k < |failures|
    ensures CreationDetails(failures, skuTaken, sku)[k] == failures[k].propertyName + ": " + failures[k].errorMessage
  {
    assert CreationDetails(failures, skuTaken, sku)[..|failures|][k] == Details(failures)[k];
  }

  /** After a successful update the stored product is found by its id, carries the request's fields and its old CreatedAt. */
  lemma UpdatedRowCarriesRequest(products: seq<Product>, request: UpdateProductRequest)
    requires UniqueIds(products) && HasId(products, request.id)
    ensures var i := IndexOfId(products, request.id).value;
      var after := products[i := ProductMappings.ApplyUpdate(request, products[i])];
      && UniqueIds(after)
      && IndexOfId(after, request.id) == Some(i)
      && after[i].name == request.name && after[i].price == request.price && after[i].sku == request.sku
      && after[i].createdAt == products[i].createdAt
      && (forall j | 0 <= j < |after| && j != i :: after[j] == products[j])
  {
    var i := IndexOfId(products, request.id).value;
    var after := products[i := ProductMappings.ApplyUpdate(request, products[i])];
    ReplaceKeepsUniqueIds(products, i, after[i]);
    var k := IndexOfId(after, request.id);
    assert k.Some? by { assert after[i].id == request.id; }
    assert k.value == i;
  }
}
