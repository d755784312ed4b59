# Product and book services: a Dafny model

This project models the decision logic of two small ASP.NET services.

The product API:
- validates creation and update requests (FluentValidation rule sets and data-annotation attributes);
- maps requests onto products (AutoMapper profiles);
- derives display strings for a product (availability, brand initials, age);
- creates, updates and deletes products in a store that has a cache beside it.

The book service:
- lists books with an author filter, a sort choice and paging;
- validates new books;
- turns an exception escaping the pipeline into a JSON error response.

Things the code reads from outside are parameters of the model:
- the Entity Framework tables become a `seq<Product>` field of `ProductHandlers.ProductStore`, or a `seq<Book>` argument;
- the memory cache becomes a `map` field;
- `DateTime.UtcNow` becomes a `Clock`, or `now` in ticks;
- `Guid.NewGuid()` becomes a `newId` argument;
- the downstream request delegate becomes its outcome.

C# `null` is `None` of an `Option`. A thrown exception is the `Failure` side of a `Result`, or a datatype of the outcomes.

Files:
- `Wrappers`, `Text`, `Runtime`: the runtime pieces the code relies on:
  - Option and Result;
  - trimming, ASCII case mapping, ordinal search and comparison, `Split` with `RemoveEmptyEntries`, and `Join`;
  - unchecked `int`, ticks, and Guid formatting.
- `Products`, `Validation`: the product record and the FluentValidation result shape.
- `CreateProductProfileValidator`, `UpdateProductValidator`, `SkuValidation`, `ProductCategoryAttribute`, `PriceRangeAttribute`, `CreateBookValidator`: the validators.
- `ProductMappings`, `Resolvers`: the mapping profiles and the DTO resolvers.
- `ProductHandlers`: the three store operations, as methods of a class.
- `BookListing`, `ExceptionHandling`: the book service.

Where the code and its surrounding documentation disagree, the model follows the code:
- `UpdateProductRequest` declares its key as `id`, but the handler reads `request.Id`. AutoMapper matches member names without regard to case, so `id` sets `Product.Id`; the model has one field, `id`.
- `UpdateProductRequest` has no `CreatedAt` member. The rule on it (UpdateProductValidator.cs:18) has nothing to read, so it is not modelled.
- The update request's `IsAvailable` does not reach the product. `Product.IsAvailable` is a computed, read-only property, and `IsAvailableOverride` has no source member, so the stored override is kept.
- The Home-product check `BeAppropriateForHome` tests the inappropriate-word list, not the home-restricted words, exactly as written.

## Model

| member | source | states |
|---|---|---|
| Products.IsAvailableRule | ProductManagementAPI/ProductManagementAPI/Features/Products/Product.cs:18 | A product is available exactly when its override says so, or, without an override, when stock is above zero |
| Products.NewProductWithDefaults | ProductManagementAPI/ProductManagementAPI/Features/Products/Product.cs:4-16 | The record's defaults: stock 0, no override, CreatedAt 0, and such a product is not available |
| Products.ParseCategoryNameRoundTrip | ProductManagementAPI/ProductManagementAPI/Validators/ProductCategoryAttribute.cs:28 | Enum.TryParse of a member's name gives that member back; a parsed category is a declared member named by the text |
| Runtime.GuidToStringRoundTrip | ProductManagementAPI/ProductManagementAPI/Features/Products/CreateProductHandler.cs:148 | Removing the hyphens from the "D" text of a Guid, which GuidToString puts at 8, 13, 18 and 23, gives the 32 digits back |
| Text.TrimProperties | Lab3/BookManagement/BookManagement/Features/Books/GetAllBookHandler.cs:16 | Trim leaves a substring that neither starts nor ends with white space, and is empty exactly for blank strings |
| Text.ContainsIff | Lab3/BookManagement/BookManagement/Features/Books/GetAllBookHandler.cs:17 | The ordinal Contains scan succeeds exactly when the word occurs at some index |
| Text.SplitConcat | ProductManagementAPI/ProductManagementAPI/Mappings/Resolvers/BrandInitialsResolver.cs:17 | Split with RemoveEmptyEntries gives non-empty, separator-free parts whose concatenation is the string without its separators |
| Text.OrdinalLeTransitive | Lab3/BookManagement/BookManagement/Features/Books/GetAllBookHandler.cs:31-33 | Ordinal title order is transitive (with OrdinalLeTotal and OrdinalLeAntisymmetric, a total order) |
| SkuValidation.IsValidCharacterisation | ProductManagementAPI/ProductManagementAPI/Validators/ValidSKUAttribute.cs:18-23 | A value is valid exactly when it is non-null and, without its spaces, is 5-20 letters (ASCII, or the Kelvin sign U+212A that IgnoreCase matches as 'k'), digits or hyphens, optionally followed by one final newline |
| SkuValidation.IsValidIgnoresSpaces | ProductManagementAPI/ProductManagementAPI/Validators/ValidSKUAttribute.cs:21 | Spaces never change the verdict |
| SkuValidation.ValidSkuShape | ProductManagementAPI/ProductManagementAPI/Validators/ValidSKUAttribute.cs:11 | An accepted SKU without its spaces has 5 to 21 characters, all but the last of them letters (ASCII or the Kelvin sign), digits or hyphens (the last may be a final newline) |
| SkuValidation.KelvinSignAccepted | ProductManagementAPI/ProductManagementAPI/Validators/ValidSKUAttribute.cs:11 | Under IgnoreCase the Kelvin sign matches like 'k', so "ABCD\u212A" is accepted just as "ABCDk" is |
| SkuValidation.ValidSkuAttribute.AddValidation | ProductManagementAPI/ProductManagementAPI/Validators/ValidSKUAttribute.cs:25-32 | A null context gives ArgumentNullException; otherwise exactly the three data-val keys are set, the message defaulting to "Invalid SKU." when null, and every other key is unchanged |
| CreateProductProfileValidator.NameRule | ProductManagementAPI/ProductManagementAPI/Validators/CreateProductProfileValidator.cs:96-103 | A name passes exactly when it is non-blank and no inappropriate word occurs in it, in any ASCII case |
| CreateProductProfileValidator.ImageUrlRule | ProductManagementAPI/ProductManagementAPI/Validators/CreateProductProfileValidator.cs:139-148 | A blank URL is accepted. Any other URL is accepted exactly when, with white space stripped from its ends, it is absolute http or https and its lowered path extension is in the image list |
| CreateProductProfileValidator.ImageUrlIgnoresSurroundingSpace | ProductManagementAPI/ProductManagementAPI/Validators/CreateProductProfileValidator.cs:142 | Spaces, tabs and line breaks before or after the URL do not change the parsed path, as `Uri.TryCreate` strips them |
| CreateProductProfileValidator.EvaluateRulesFirstViolation | ProductManagementAPI/ProductManagementAPI/Validators/CreateProductProfileValidator.cs:150-189 | An ordered rule chain fails exactly at a violated rule whose predecessors all passed, and passes exactly when every rule passes |
| CreateProductProfileValidator.PassBusinessRulesIsOrderedChain | ProductManagementAPI/ProductManagementAPI/Validators/CreateProductProfileValidator.cs:150-189 | The source's chain is the ordered evaluation of the daily limit, the Electronics minimum price, the Home restricted words and the high-value stock limit |
| CreateProductProfileValidator.PassBusinessRulesIff | ProductManagementAPI/ProductManagementAPI/Validators/CreateProductProfileValidator.cs:150-189 | The rules pass exactly when none of the four conditions holds; they throw only for a Home product without a name, below the daily limit |
| CreateProductProfileValidator.DailyLimitDominates | ProductManagementAPI/ProductManagementAPI/Validators/CreateProductProfileValidator.cs:154-160 | 500 or more creations today fail the rules, whatever the request holds |
| CreateProductProfileValidator.ValidateAcceptsExactly | ProductManagementAPI/ProductManagementAPI/Validators/CreateProductProfileValidator.cs:32-93 | The validator reports no failure exactly for the requests that meet every rule, listed independently in Acceptable |
| CreateProductProfileValidator.ExpensiveOverstockRejected | ProductManagementAPI/ProductManagementAPI/Validators/CreateProductProfileValidator.cs:91-93 | A price above 100 with stock above 20 reports the expensive-product message |
| CreateProductProfileValidator.DailyLimitRejected | ProductManagementAPI/ProductManagementAPI/Validators/CreateProductProfileValidator.cs:68-69 | Reaching the daily limit reports "Business rules validation failed." |
| CreateProductProfileValidator.ElectronicsRules | ProductManagementAPI/ProductManagementAPI/Validators/CreateProductProfileValidator.cs:72-77 | An Electronics request below 50, or without a technology keyword, or released more than five years ago, reports that rule's message |
| CreateProductProfileValidator.HomeRules | ProductManagementAPI/ProductManagementAPI/Validators/CreateProductProfileValidator.cs:79-83 | A Home request above 200, or with an inappropriate name, reports that rule's message |
| CreateProductProfileValidator.ClothingRule | ProductManagementAPI/ProductManagementAPI/Validators/CreateProductProfileValidator.cs:85-88 | A Clothing brand shorter than three characters reports the clothing message |
| CreateProductProfileValidator.UniquenessRules | ProductManagementAPI/ProductManagementAPI/Validators/CreateProductProfileValidator.cs:105-112 | A stored product with the same name and brand, or with the cleaned SKU, makes the matching uniqueness message appear |
| CreateProductProfileValidator.SkuChecksAgree | ProductManagementAPI/ProductManagementAPI/Validators/CreateProductProfileValidator.cs:122-129 | BeValidSKU accepts exactly what the ValidSKU attribute accepts |
| CreateProductProfileValidator.HomeNameCheckIsNameCheck | ProductManagementAPI/ProductManagementAPI/Validators/CreateProductProfileValidator.cs:198-203 | BeAppropriateForHome is the same test as BeValidName |
| UpdateProductValidator.ValidIff | ProductManagementAPI/ProductManagementAPI/Validators/UpdateProductValidator.cs:10-16 | A request is valid exactly when name, price, category, SKU, stock, release date and brand all meet their rules |
| UpdateProductValidator.NameFailuresFirst | ProductManagementAPI/ProductManagementAPI/Validators/UpdateProductValidator.cs:10 | The name's failures come first, and no later failure concerns the name |
| UpdateProductValidator.NullNameFailures | ProductManagementAPI/ProductManagementAPI/Validators/UpdateProductValidator.cs:10 | A null name fails NotNull and NotEmpty, with the default message, and not the length rule |
| UpdateProductValidator.ShortNameFailure | ProductManagementAPI/ProductManagementAPI/Validators/UpdateProductValidator.cs:10 | A non-blank name under three characters fails only the length rule, with the custom message |
| UpdateProductValidator.BlankNameFailure | ProductManagementAPI/ProductManagementAPI/Validators/UpdateProductValidator.cs:10 | A blank name fails NotEmpty with the default message |
| UpdateProductValidator.IgnoresImageUrlAndAvailability | ProductManagementAPI/ProductManagementAPI/Validators/UpdateProductValidator.cs:10-19 | The image URL and the availability flag never change the verdict |
| ProductCategoryAttribute.MessageNamesEveryAllowed | ProductManagementAPI/ProductManagementAPI/Validators/ProductCategoryAttribute.cs:13-18 | The message starts with the fixed prefix and names every allowed category |
| ProductCategoryAttribute.EmptyListMessage | ProductManagementAPI/ProductManagementAPI/Validators/ProductCategoryAttribute.cs:15 | A null or empty list gives the bare prefix |
| ProductCategoryAttribute.IsValidIff | ProductManagementAPI/ProductManagementAPI/Validators/ProductCategoryAttribute.cs:20-34 | A value passes exactly when it stands for some category the list allows |
| ProductCategoryAttribute.RejectsNullAndUnparsable | ProductManagementAPI/ProductManagementAPI/Validators/ProductCategoryAttribute.cs:22-33 | Null, and text naming no member, are rejected |
| ProductCategoryAttribute.AllowedListRule | ProductManagementAPI/ProductManagementAPI/Validators/ProductCategoryAttribute.cs:25-30 | An empty list allows every category; a non-empty one allows exactly its members; a member's name is judged like the member |
| PriceRangeAttribute.IsValidRule | ProductManagementAPI/ProductManagementAPI/Validators/PriceRangeAttribute.cs:20-28 | Null and unparsable values fail, and a parsed value passes exactly when min <= value <= max |
| PriceRangeAttribute.OutsideRangeRejected | ProductManagementAPI/ProductManagementAPI/Validators/PriceRangeAttribute.cs:25 | Values below min or above max fail |
| PriceRangeAttribute.IntegerTextRoundTrip | ProductManagementAPI/ProductManagementAPI/Validators/PriceRangeAttribute.cs:23 | The invariant text of any integer parses back to that integer |
| PriceRangeAttribute.BoundsAccepted | ProductManagementAPI/ProductManagementAPI/Validators/PriceRangeAttribute.cs:25 | Both bounds are accepted: the range is inclusive |
| ProductMappings.FromProfileRequest | ProductManagementAPI/ProductManagementAPI/Mappings/AdvancedProductMappingProfile.cs:14-27 | The new product is available exactly when stock is positive; a Home product has no image; a positive price is never raised |
| ProductMappings.FromProfileRequestCopies | ProductManagementAPI/ProductManagementAPI/Mappings/AdvancedProductMappingProfile.cs:15-26 | Id is the fresh Guid, CreatedAt is now, and name, brand, SKU, category, release date and stock are copied |
| ProductMappings.HomeDiscountRule | ProductManagementAPI/ProductManagementAPI/Mappings/AdvancedProductMappingProfile.cs:21-23 | Home products cost nine tenths of the requested price and lose the image; others keep both |
| ProductMappings.DiscountLowersOnlyHome | ProductManagementAPI/ProductManagementAPI/Mappings/AdvancedProductMappingProfile.cs:21 | A positive price is lowered exactly for Home products |
| ProductMappings.HomeHundredStoredAtNinety | ProductManagementAPI/ProductManagementAPI/Tests/CreateProductHandlerIntegrationTests.cs:191-192 | A Home product requested at 100 is stored at 90 |
| ProductMappings.CreateRequestRoundTrip | ProductManagementAPI/ProductManagementAPI/Mappings/ProductMappingProfile.cs:11-26 | Request to product to request returns the request |
| ProductMappings.ProductRoundTrip | ProductManagementAPI/ProductManagementAPI/Mappings/ProductMappingProfile.cs:11-26 | Product to request to product keeps every field but the id, and makes the availability an explicit override |
| ProductMappings.ApplyUpdate | ProductManagementAPI/ProductManagementAPI/Mappings/ProductMappingProfile.cs:28-29 | Mapping an update onto a product keeps its CreatedAt and its availability override |
| ProductMappings.ApplyUpdateTakesRequestFields | ProductManagementAPI/ProductManagementAPI/Mappings/ProductMappingProfile.cs:28-29 | Every other member comes from the request, the id included |
| ProductMappings.ApplyUpdateIdempotent | ProductManagementAPI/ProductManagementAPI/Mappings/ProductMappingProfile.cs:28-29 | Applying an update twice is applying it once |
| ProductMappings.ApplyUpdateDependsOnlyOnKeptFields | ProductManagementAPI/ProductManagementAPI/Mappings/ProductMappingProfile.cs:28-29 | The result depends on the stored product only through CreatedAt and the override |
| Resolvers.AvailabilityTiers | ProductManagementAPI/ProductManagementAPI/Mappings/Resolvers/AvailabilityStatusResolver.cs:9-16 | Each of the five statuses is returned exactly under its own condition |
| Resolvers.NoOverrideNeverUnavailable | ProductManagementAPI/ProductManagementAPI/Mappings/Resolvers/AvailabilityStatusResolver.cs:12 | Without an override "Unavailable" never appears, and "Out of Stock" means stock at or below zero |
| Resolvers.BrandInitialsAsWritten | ProductManagementAPI/ProductManagementAPI/Mappings/Resolvers/BrandInitialsResolver.cs:12-26 | The resolver as written throws exactly when the brand is not blank yet splits into no part |
| Resolvers.BrandInitials | ProductManagementAPI/ProductManagementAPI/Mappings/Resolvers/BrandInitialsResolver.cs:12-26 | The corrected initials are one or two characters |
| Resolvers.BrandInitialsAgreesWhereSourceReturns | ProductManagementAPI/ProductManagementAPI/Mappings/Resolvers/BrandInitialsResolver.cs:12-26 | Wherever the source returns, the corrected resolver returns the same string |
| Resolvers.BrandInitialsRule | ProductManagementAPI/ProductManagementAPI/Mappings/Resolvers/BrandInitialsResolver.cs:15-25 | "?" for a blank, null or separator-only brand; otherwise the upper-cased first character of the first word, plus that of the last word exactly when there are two or more words |
| Resolvers.BrandInitialsNoSeparator | ProductManagementAPI/ProductManagementAPI/Mappings/Resolvers/BrandInitialsResolver.cs:17 | No initial is a separator |
| Resolvers.SeparatorOnlyBrandCrashes | ProductManagementAPI/ProductManagementAPI/Mappings/Resolvers/BrandInitialsResolver.cs:25 | The brand "--" passes the creation validator's brand rules, yet the resolver as written throws on it |
| Resolvers.ProductAgeBuckets | ProductManagementAPI/ProductManagementAPI/Mappings/Resolvers/ProductAgeResolver.cs:17-33 | In whole days d: under 30 is "New Release"; under 365 is d/30 months (1 to 12); exactly 1825 is "Classic"; otherwise d/365 years (at least 1) |
| Resolvers.JustCreatedIsNewRelease | ProductManagementAPI/ProductManagementAPI/Mappings/Resolvers/ProductAgeResolver.cs:14 | A CreatedAt now or in the future is a new release |
| Resolvers.AgeTextPlural | ProductManagementAPI/ProductManagementAPI/Mappings/Resolvers/ProductAgeResolver.cs:21-33 | The count leads the text, and the plural "s" is there exactly when the count is above one |
| Resolvers.FloorOfQuotient | ProductManagementAPI/ProductManagementAPI/Mappings/Resolvers/ProductAgeResolver.cs:20-28 | Math.Floor(totalDays / n) is the whole days divided by n |
| ProductHandlers.ProductStore.CreateProduct | ProductManagementAPI/ProductManagementAPI/Features/Products/CreateProductHandler.cs:65-170 | A validator fault is rethrown. A failure or a taken SKU throws ValidationException with the failures' "Property: Message" lines and then the SKU line, and changes nothing. A fresh id that is already stored throws DuplicateKeyException and changes nothing. Otherwise the mapped product is appended and "all_products" is evicted. Then the DTO mapping runs: a brand the initials resolver throws on (such as "--") makes the handler throw with the product saved; any other brand gives Created naming "/products/{id}" |
| ProductHandlers.ProductStore.UpdateProduct | ProductManagementAPI/ProductManagementAPI/Features/Products/UpdateProductHandler.cs:23-46 | Validation failures give a BadRequest with VALIDATION_ERROR and the details; an unknown id gives NotFound; otherwise only that row is overwritten with the mapped update, and Ok returns it. The cache is untouched and ids stay unique |
| ProductHandlers.ProductStore.DeleteProduct | ProductManagementAPI/ProductManagementAPI/Features/Products/DeleteProductHandler.cs:7-21 | An unknown id gives NotFound and changes nothing; otherwise exactly that row is removed and Ok carries the deletion message |
| ProductHandlers.IndexOfId | ProductManagementAPI/ProductManagementAPI/Features/Products/UpdateProductHandler.cs:33 | FindAsync: the first row with the id, and None exactly when no row has it |
| ProductHandlers.CreationDetails | ProductManagementAPI/ProductManagementAPI/Features/Products/CreateProductHandler.cs:81-82 | The details are the failures' lines in order, followed by the duplicate-SKU line exactly when the SKU is taken |
| ProductHandlers.CreationDetailsOrder | ProductManagementAPI/ProductManagementAPI/Features/Products/CreateProductHandler.cs:81 | The k-th detail is the k-th failure as "Property: Message" |
| ProductHandlers.DuplicateSkuNeverCreated | ProductManagementAPI/ProductManagementAPI/Tests/CreateProductHandlerIntegrationTests.cs:119-153 | When the SKU is taken, the thrown details contain "SKU: {sku} already exists." |
| ProductHandlers.RemoveAtDropsId | ProductManagementAPI/ProductManagementAPI/Features/Products/DeleteProductHandler.cs:16-17 | After removal no product has the id, and ids stay unique |
| ProductHandlers.RemoveAtKeepsOthers | ProductManagementAPI/ProductManagementAPI/Features/Products/DeleteProductHandler.cs:16-17 | Removal keeps every other product and adds none |
| ProductHandlers.UpdatedRowCarriesRequest | ProductManagementAPI/ProductManagementAPI/Features/Products/UpdateProductHandler.cs:40-45 | After an update the row is still found by its id, carries the request's fields and the old CreatedAt, and every other row is unchanged |
| BookListing.AuthorFilter | Lab3/BookManagement/BookManagement/Features/Books/GetAllBookHandler.cs:14-16 | No filter exactly for a null or blank author; otherwise a non-empty trimmed, lowered filter |
| BookListing.FilterByAuthor | Lab3/BookManagement/BookManagement/Features/Books/GetAllBookHandler.cs:17 | Each book is kept as often as it is stored when its lowered author contains the filter, and dropped otherwise |
| BookListing.SortKeyChoice | Lab3/BookManagement/BookManagement/Features/Books/GetAllBookHandler.cs:20-23 | The year is the key exactly for "year" or "yearpublished" after trimming and lowering; a null SortBy sorts by title |
| BookListing.SortOrderChoice | Lab3/BookManagement/BookManagement/Features/Books/GetAllBookHandler.cs:21-33 | The order is descending exactly for "desc" after trimming and lowering; a null SortOrder is ascending |
| BookListing.TitleIsNormal | Lab3/BookManagement/BookManagement/Features/Books/GetAllBookHandler.cs:20 | The fallback "title" is unchanged by Trim and ToLower |
| BookListing.AscIsNormal | Lab3/BookManagement/BookManagement/Features/Books/GetAllBookHandler.cs:21 | The fallback "asc" is unchanged by Trim and ToLower |
| BookListing.SortBooksSorted | Lab3/BookManagement/BookManagement/Features/Books/GetAllBookHandler.cs:23-34 | The ordering is sorted by the chosen key and direction (SortBooks's ensures adds that it is a permutation) |
| BookListing.InsertSorted | Lab3/BookManagement/BookManagement/Features/Books/GetAllBookHandler.cs:23-34 | Inserting into a sorted sequence keeps it sorted |
| BookListing.EffectivePageNumber | Lab3/BookManagement/BookManagement/Features/Books/GetAllBookHandler.cs:36 | The page number is at least 1 and a positive request value is kept |
| BookListing.EffectivePageSize | Lab3/BookManagement/BookManagement/Features/Books/GetAllBookHandler.cs:37 | The page size is at least 1 and a positive request value is kept |
| BookListing.SkipTake | Lab3/BookManagement/BookManagement/Features/Books/GetAllBookHandler.cs:40-41 | Skip then Take gives at most `take` consecutive books from the clamped start |
| BookListing.PageIsSliceOfListing | Lab3/BookManagement/BookManagement/Features/Books/GetAllBookHandler.cs:36-42 | The page is the listing's window at (p-1)*s, with at most s books (10 when the size is not positive), full when the listing is long enough, and empty past the end |
| BookListing.PageBooksMatchFilter | Lab3/BookManagement/BookManagement/Features/Books/GetAllBookHandler.cs:14-42 | Every book on the page is stored and passes the author filter |
| BookListing.ListingIsFilteredPermutation | Lab3/BookManagement/BookManagement/Features/Books/GetAllBookHandler.cs:14-34 | The listing holds exactly the stored books that pass the filter, each as often as it is stored |
| BookListing.PageIsOrdered | Lab3/BookManagement/BookManagement/Features/Books/GetAllBookHandler.cs:23-42 | The page is ordered by the chosen key and direction |
| BookListing.NoFilterListsAll | Lab3/BookManagement/BookManagement/Features/Books/GetAllBookHandler.cs:14 | A null or blank author lists every stored book |
| BookListing.DefaultRequestFirstPage | Lab3/BookManagement/BookManagement/Features/Books/GetAllBookRequest.cs:3 | The declared defaults list the first hundred books |
| BookListing.BookOnItsPage | Lab3/BookManagement/BookManagement/Features/Books/GetAllBookHandler.cs:39-42 | The book at position k is on page k/s+1 at position k%s |
| BookListing.PagesDisjoint | Lab3/BookManagement/BookManagement/Features/Books/GetAllBookHandler.cs:40 | Different pages cover disjoint ranges of the listing |
| BookListing.PastTheEndIsEmpty | Lab3/BookManagement/BookManagement/Features/Books/GetAllBookHandler.cs:39-42 | A page starting past the listing is empty |
| BookListing.OffsetAsWritten | Lab3/BookManagement/BookManagement/Features/Books/GetAllBookHandler.cs:40 | The 32-bit offset equals the exact one whenever the exact one fits |
| BookListing.HandleAsWrittenAgrees | Lab3/BookManagement/BookManagement/Features/Books/GetAllBookHandler.cs:40-42 | When the exact offset fits in 32 bits, the code as written returns the same page as the corrected handler |
| BookListing.HandleAsWrittenIsOrdered | Lab3/BookManagement/BookManagement/Features/Books/GetAllBookHandler.cs:23-42 | Whatever the wrapped offset, the page the code as written returns is ordered by the chosen key and direction |
| BookListing.OffsetWrapReturnsFirstPage | Lab3/BookManagement/BookManagement/Features/Books/GetAllBookHandler.cs:40 | Page 65537 of size 65536 wraps to offset 0, so the code returns the first page where the exact offset gives none |
| CreateBookValidator.ValidIff | Lab3/BookManagement/BookManagement/Validators/CreateBookValidator.cs:10-12 | A book is valid exactly when the title is non-blank, the author is non-blank with at least 3 characters, and 1450 <= year <= the current year |
| CreateBookValidator.TitleRule | Lab3/BookManagement/BookManagement/Validators/CreateBookValidator.cs:10 | The title passes exactly when non-blank; its length check fires only for the empty title |
| CreateBookValidator.EmptyTitleFailures | Lab3/BookManagement/BookManagement/Validators/CreateBookValidator.cs:10 | The empty title fails NotEmpty with the default message and then the length check with the custom one |
| CreateBookValidator.NullAuthorFailures | Lab3/BookManagement/BookManagement/Validators/CreateBookValidator.cs:11 | A null author fails NotNull and NotEmpty with the default message |
| CreateBookValidator.ShortAuthorFailure | Lab3/BookManagement/BookManagement/Validators/CreateBookValidator.cs:11 | A non-blank author under 3 characters fails only the length check, with the custom message |
| CreateBookValidator.YearBounds | Lab3/BookManagement/BookManagement/Validators/CreateBookValidator.cs:12 | 1450 and the current year pass; 1449 and the next year fail with the range message |
| CreateBookValidator.FailuresInRuleOrder | Lab3/BookManagement/BookManagement/Validators/CreateBookValidator.cs:10-12 | Failures come grouped: title, then author, then year |
| CreateBookValidator.Validate | Lab3/BookManagement/BookManagement/Validators/CreateBookValidator.cs:10-12 | Every failure concerns Title, Author or YearPublished |
| ExceptionHandling.StatusTable | Lab3/BookManagement/BookManagement/Middleware/ExceptionHandlingMiddleware.cs:19-24 | 404 exactly for KeyNotFoundException; 400 exactly for ArgumentException and its subtypes; 500 for everything else |
| ExceptionHandling.ArgumentSubtypesAreBadRequest | Lab3/BookManagement/BookManagement/Middleware/ExceptionHandlingMiddleware.cs:22 | ArgumentNullException and ArgumentOutOfRangeException map to 400 |
| ExceptionHandling.StatusIgnoresMessage | Lab3/BookManagement/BookManagement/Middleware/ExceptionHandlingMiddleware.cs:19-24 | The status depends on the type alone |
| ExceptionHandling.InvokeAsync | Lab3/BookManagement/BookManagement/Middleware/ExceptionHandlingMiddleware.cs:8-28 | A completed request leaves the response alone. An exception sets the mapped status, appends `{"error":"<message>"}`, and goes no further. The final content type is the one WriteAsJsonAsync sets, "application/json; charset=utf-8", which replaces the catch block's "application/json" |
| ExceptionHandling.WriteAsJson | Lab3/BookManagement/BookManagement/Middleware/ExceptionHandlingMiddleware.cs:26 | Writing JSON with no content type argument sets "application/json; charset=utf-8", appends the JSON text and keeps the status |
| ExceptionHandling.ErrorJsonCarriesMessage | Lab3/BookManagement/BookManagement/Middleware/ExceptionHandlingMiddleware.cs:26 | The body carries the message between fixed delimiters |

## Left out

- Logging, metrics and stopwatches feed nothing back into the results, so they are not modelled. This covers the `ProductCreationMetrics` values and `LogProductCreationMetrics`.
- Async and concurrency are not modelled. Each handler is one atomic step on the store, and `SaveChangesAsync` is the field assignment.
- The cache is modelled only as the map entry the creation handler evicts. The `_cache is null` branch is not modelled, because the cache is always there.
- ProductHandlers.ProductStore.CreateProduct returns the stored product in `Created`, not the `ProductProfileDto`. That DTO's category display and formatted price come from a resolver that is not part of this model, and from culture-dependent currency formatting. Of the DTO resolvers, only the brand initials resolver is taken to throw; `CategoryDisplayResolver` is not part of this model and is taken not to throw. The throw is reported as `MappingException`, carrying the resolver's IndexOutOfRangeException; AutoMapper's wrapping exception type is not modelled.
- Calendar arithmetic is not modelled. `DateTime.UtcNow.AddYears(-5)` is the `fiveYearsAgo` reading of the `Clock`, and `Year >= 1900` is a tick comparison.
- DateTime.UtcNow is read when a validator is constructed. The model reads it at validation time.
- Resolvers.ProductAge: `TotalDays` is the exact quotient, with no double rounding.
- Decimal is `real`. The model does not capture 28-digit rounding or the `double` → `decimal` conversion of the PriceRange bounds.
- The PriceRange error message uses culture-dependent currency formatting, so it is not modelled.
- PriceRangeAttribute.ParseDecimal accepts optional white space, one sign and a plain decimal. The model does not capture thousands separators or a trailing sign, which NumberStyles.Number also admits. Values are seen through their invariant text.
- ProductCategoryAttribute: Enum.TryParse is modelled for exact member names only. Numeric strings, surrounding white space and comma-separated flag lists are not modelled. The overload used is case-sensitive, as the model is.
- SkuValidation.IsValidCharacterisation: the SKU pattern's IgnoreCase is modelled in a culture without special casing, where [A-Za-z] matches the ASCII letters and the Kelvin sign. What some cultures add is not modelled: under a Turkish or Azerbaijani culture, U+0130 and U+0131 also match, and the model rejects them. The same holds for `CreateProductProfileValidator.BeValidSku`, which uses the same pattern.
- SkuValidation.ValidSkuShape: its letters are those of the culture-independent matching stated above, so the culture-dependent extras are not among them.
- Case mapping and white space: `ToLower` and `ToUpperInvariant` are modelled on ASCII letters only, as is SQLite's `lower()`. Strings are sequences of Unicode scalar values, not UTF-16 code units.
- CreateProductProfileValidator.ImageUrlRule: `Uri.TryCreate` is modelled by stripping white space from both ends, then splitting off the scheme, a non-empty authority and the path. The authority's syntax is not checked. Host names, IPv4 and IPv6 literals, user information and the port are not validated, so a URL such as "http://a b/x.jpg" or "http://x.com:abc/a.jpg", which .NET rejects, is accepted by the model. Percent-decoding, IDN hosts and back-slash normalisation are not modelled either.
- JSON escaping of the middleware's message is not modelled. ErrorJson is exact only for messages without characters that JSON escapes.
- Setting the status after the response has started throws in ASP.NET. That case is not modelled.
- UpdateProductValidator: the rules on `IsAvailable` and `CreatedAt` (UpdateProductValidator.cs:17-18) are not modelled. The first is a NotNull on a `bool`, which always holds. The second names a member the request record does not have.
- BookListing.SortBooks: the source leaves the order of books with equal keys to the database. The model uses a stable insertion order, and its lemmas promise only sortedness and permutation.
- Products.ProductCategory: the enum's declaration is not part of this model. It is taken to have exactly the three members the code names, Electronics, Clothing and Home; any other declared member would be an `Undefined` value here, which `IsInEnum` rejects although .NET would accept it.
- The `CreateProductRequest` and `CreateProductProfileRequest` records are not part of this model. Their members are taken from the mapping profiles, the validator and the tests.
- The `Book` and `CreateBookRequest` records are not part of this model. Their members are taken from the handler and the validator. `Author` is taken to be non-null in stored books.
- ProductHandlers.ProductStore.CreateProduct: a new id that is already stored gives `DuplicateKeyException`. The model does not distinguish EF's tracking error from the database's key violation.
- The product store holds only the products themselves. The EF change tracker, and the aliasing between `existing` and the tracked row, are not modelled: the update writes the mapped product back at the row's index.

## Findings

| source | as written | input that shows it | evidently intended | confidence | as-written member | corrected member |
|---|---|---|---|---|---|---|
| ProductManagementAPI/ProductManagementAPI/Mappings/Resolvers/BrandInitialsResolver.cs:25 | `parts[0][0]` on an empty split throws IndexOutOfRangeException | Brand "--", which passes the brand rules of the creation validator (non-blank, length 2-100, allowed characters) | answer "?" as for a blank brand | high (not executed) | Resolvers.BrandInitialsAsWritten (with Resolvers.SeparatorOnlyBrandCrashes) | Resolvers.BrandInitials |
| Lab3/BookManagement/BookManagement/Features/Books/GetAllBookHandler.cs:40 | `(pageNumber - 1) * pageSize` in unchecked 32-bit arithmetic | PageNumber 65537, PageSize 65536: the offset wraps from 2^32 to 0 | skip (p-1)*s books, so that such a page is empty | medium, not executed | BookListing.HandleAsWritten (with BookListing.OffsetWrapReturnsFirstPage) | BookListing.Handle |
