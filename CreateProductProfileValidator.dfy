/**
 * Validators/CreateProductProfileValidator.cs: the rule set that a product
 * creation request must pass. The three database queries of the validator
 * (same name and brand, same cleaned SKU, products created today) read the
 * sequence `existing` of stored products.
 */
module CreateProductProfileValidator {
  import opened Wrappers
  import opened Text
  import opened Runtime
  import opened Products
  import opened Validation
  import SkuValidation

  datatype CreateProductProfileRequest = CreateProductProfileRequest(
    name: NullableString,
    brand: NullableString,
    sku: NullableString,
    category: ProductCategory,
    price: real,
    releaseDate: Ticks,
    imageUrl: NullableString,
    stockQuantity: Int32)

  const InappropriateWords: seq<string> := ["badword1", "badword2", "restricted1"]
  const HomeRestrictedWords: seq<string> := ["hazard", "flammable"]
  const TechnologyKeywords: seq<string> := ["smart", "AI", "processor", "chip", "wireless", "bluetooth", "wifi", "usb"]
  const ImageExtensions: seq<string> := [".jpg", ".jpeg", ".png", ".gif", ".webp"]
  const DailyProductLimit: nat := 500

  // ---------------------------------------------------------------------------
  // Field predicates

  /** BeValidName: not blank, and no inappropriate word in the lowered name. */
  predicate BeValidName(name: NullableString) {
    !IsNullOrWhiteSpace(name) && !ContainsAnyLowered(ToLower(name.value), InappropriateWords)
  }

  /** BeUniqueName: no stored product has this name together with this brand. */
  predicate BeUniqueName(req: CreateProductProfileRequest, existing: seq<Product>) {
    !exists p | p in existing :: p.name == req.name && p.brand == req.brand
  }

  /** A character of the class [A-Za-z0-9\s\-\.'] */
  predicate IsBrandChar(c: char) {
    IsAsciiLetter(c) || IsAsciiDigit(c) || IsWhiteSpace(c) || c == '-' || c == '.' || c == '\''
  }

  /** BeValidBrandName: not blank, and matching ^[A-Za-z0-9\s\-\.']+$ */
  predicate BeValidBrandName(brand: NullableString) {
    !IsNullOrWhiteSpace(brand) && forall i | 0 <= i < |brand.value| :: IsBrandChar(brand.value[i])
  }

  /** BeValidSKU: not null, and the SKU without its spaces matches the SKU pattern. */
  predicate BeValidSku(sku: NullableString) {
    sku.Some? && SkuValidation.MatchesSkuPattern(SkuValidation.CleanSku(sku.value))
  }

  /** The SKU the uniqueness query looks for: spaces removed, "" for null. */
  function CleanedSkuOrEmpty(sku: NullableString): string {
    if sku.None? then "" else SkuValidation.CleanSku(sku.value)
  }

  /** BeUniqueSKU: no stored product has the cleaned SKU. */
  predicate BeUniqueSku(sku: NullableString, existing: seq<Product>) {
    !exists p | p in existing :: p.sku == Some(CleanedSkuOrEmpty(sku))
  }

  /** ContainTechnologyKeywords: not blank, and some keyword (lowered) occurs in the lowered name. */
  predicate ContainTechnologyKeywords(name: NullableString) {
    !IsNullOrWhiteSpace(name) && ContainsAnyLowered(ToLower(name.value), TechnologyKeywords)
  }

  /** BeAppropriateForHome: not blank, and no inappropriate word (the InappropriateWords list) in the lowered name. */
  predicate BeAppropriateForHome(name: NullableString) {
    !IsNullOrWhiteSpace(name) && !ContainsAnyLowered(ToLower(name.value), InappropriateWords)
  }

  // ---------------------------------------------------------------------------
  // Image URLs

  /**
   * The AbsolutePath of `url` when Uri.TryCreate(url, UriKind.Absolute) gives
   * a URI with scheme http or https (compared case-insensitively), and None
   * otherwise: the text before the first ':' is the scheme, "//" and a
   * non-empty authority follow it, and the path runs up to the query or
   * fragment ("/" when it is empty).
   */
  function HttpAbsolutePath(url: string): (r: Option<string>)
    ensures r.Some? ==> |r.value| > 0 && r.value[0] == '/'
  {
    var colon := WordLength(url, {':'});
    if colon == |url| then None
    else
      var scheme := ToLower(url[..colon]);
      var rest := url[colon + 1..];
      if (scheme != "http" && scheme != "https") || |rest| < 2 || rest[..2] != "//" then None
      else
        var afterSlashes := rest[2..];
        var hostLength := WordLength(afterSlashes, {'/', '?', '#'});
        if hostLength == 0 then None
        else
          var tail := afterSlashes[hostLength..];
          var path := tail[..WordLength(tail, {'?', '#'})];
          Some(if path == "" then "/" else path)
  }

  /** The extension scan of Path.GetExtension, looking at path[..i] from its end. */
  function ExtensionFrom(path: string, i: nat): (ext: string)
    requires i <= |path|
    requires forall j | i <= j < |path| :: path[j] != '/' && path[j] != '.'
    ensures ext == "" || (2 <= |ext| <= |path| && ext[0] == '.' && ext == path[|path| - |ext|..])
    ensures forall j | 0 <= j < |ext| :: ext[j] != '/' && (j > 0 ==> ext[j] != '.')
    decreases i
  {
    if i == 0 then ""
    else if path[i - 1] == '.' then (if i == |path| then "" else path[i - 1..])
    else if path[i - 1] == '/' then ""
    else ExtensionFrom(path, i - 1)
  }

  /**
   * Path.GetExtension (Unix separators): from the last '.' of the last path
   * segment to the end, or "" when there is no such '.' or it ends the path.
   */
  function Extension(path: string): (ext: string)
    ensures ext == "" || (2 <= |ext| <= |path| && ext[0] == '.' && ext == path[|path| - |ext|..])
    ensures forall j | 0 <= j < |ext| :: ext[j] != '/' && (j > 0 ==> ext[j] != '.')
  {
    ExtensionFrom(path, |path|)
  }

  /** The characters Uri.TryCreate strips from both ends of its input: space, tab, line feed and carriage return. */
  const UriWhiteSpace: set<char> := {' ', '\t', '\n', '\r'}

  /** The input without its leading UriWhiteSpace. */
  function UriTrimStart(s: string): (r: string)
    ensures |r| <= |s| && r == s[|s| - |r|..]
    ensures forall i | 0 <= i < |s| - |r| :: s[i] in UriWhiteSpace
    ensures r == [] || r[0] !in UriWhiteSpace
    decreases |s|
  {
    if s != [] && s[0] in UriWhiteSpace then UriTrimStart(s[1..]) else s
  }

  /** The input without its trailing UriWhiteSpace. */
  function UriTrimEnd(s: string): (r: string)
    ensures |r| <= |s| && r == s[..|r|]
    ensures forall i | |r| <= i < |s| :: s[i] in UriWhiteSpace
    ensures r == [] || r[|r| - 1] !in UriWhiteSpace
    decreases |s|
  {
    if s != [] && s[|s| - 1] in UriWhiteSpace then UriTrimEnd(s[..|s| - 1]) else s
  }

  /** The text Uri.TryCreate parses: its input with UriWhiteSpace stripped from both ends. */
  function UriTrim(s: string): string {
    UriTrimEnd(UriTrimStart(s))
  }

  /** The AbsolutePath Uri.TryCreate would give `url`, when it gives an http or https URI. */
  function ImageUrlPath(url: string): Option<string> {
    HttpAbsolutePath(UriTrim(url))
  }

  /** BeValidImageUrl: blank is fine; otherwise an http(s) URL whose lowered path extension is an image one. */
  predicate BeValidImageUrl(url: NullableString) {
    || IsNullOrWhiteSpace(url)
    || (var path := ImageUrlPath(url.value);
        path.Some? && ToLower(Extension(path.value)) in ImageExtensions)
  }

  /**
   * A blank or missing URL is always accepted; any other is accepted exactly
   * when, after the ends are stripped, it is an http(s) URL whose path has an
   * image extension.
   */
  lemma ImageUrlRule(url: NullableString)
    ensures IsNullOrWhiteSpace(url) ==> BeValidImageUrl(url)
    ensures BeValidImageUrl(url) && !IsNullOrWhiteSpace(url) ==>
      && ImageUrlPath(url.value).Some?
      && var ext := Extension(ImageUrlPath(url.value).value);
         |ext| >= 4 && ext[0] == '.' && ToLower(ext) in ImageExtensions
    ensures url.Some? && ImageUrlPath(url.value).Some? && ToLower(Extension(ImageUrlPath(url.value).value)) in ImageExtensions ==>
      BeValidImageUrl(url)
  {
  }

  /** White space before or after a URL does not change what Uri.TryCreate makes of it. */
  lemma ImageUrlIgnoresSurroundingSpace(url: string, pad: string)
    requires forall i | 0 <= i < |pad| :: pad[i] in UriWhiteSpace
    ensures ImageUrlPath(pad + url) == ImageUrlPath(url)
    ensures ImageUrlPath(url + pad) == ImageUrlPath(url)
  {
    UriTrimStartPrefix(pad, url);
    var t := UriTrimStart(url);
    if t != [] {
      UriTrimStartAppend(url, pad);
      UriTrimEndSuffix(t, pad);
    } else {
      assert forall i | 0 <= i < |url| :: url[i] in UriWhiteSpace;
      UriTrimStartPrefix(url, pad);
      UriTrimStartBlank(pad);
    }
  }

  /** Leading UriWhiteSpace is stripped whatever follows it. */
  lemma {:induction false} UriTrimStartPrefix(pad: string, s: string)
    requires forall i | 0 <= i < |pad| :: pad[i] in UriWhiteSpace
    ensures UriTrimStart(pad + s) == UriTrimStart(s)
    decreases |pad|
  {
    if pad != [] {
      assert (pad + s)[1..] == pad[1..] + s;
      assert (pad + s)[0] == pad[0];
      UriTrimStartPrefix(pad[1..], s);
    } else {
      assert pad + s == s;
    }
  }

  /** Once a non-white character has been reached, what follows is kept as it is. */
  lemma {:induction false} UriTrimStartAppend(s: string, t: string)
    requires UriTrimStart(s) != []
    ensures UriTrimStart(s + t) == UriTrimStart(s) + t
    decreases |s|
  {
    assert (s + t)[0] == s[0];
    if s[0] in UriWhiteSpace {
      assert (s + t)[1..] == s[1..] + t;
      UriTrimStartAppend(s[1..], t);
    }
  }

  /** A string of UriWhiteSpace only is stripped to nothing. */
  lemma UriTrimStartBlank(s: string)
    requires forall i | 0 <= i < |s| :: s[i] in UriWhiteSpace
    ensures UriTrimStart(s) == []
  {
  }

  /** Trailing UriWhiteSpace is stripped whatever precedes it. */
  lemma {:induction false} UriTrimEndSuffix(s: string, pad: string)
    requires forall i | 0 <= i < |pad| :: pad[i] in UriWhiteSpace
    ensures UriTrimEnd(s + pad) == UriTrimEnd(s)
    decreases |pad|
  {
    if pad != [] {
      var shorter := pad[..|pad| - 1];
      assert (s + pad)[..|s + pad| - 1] == s + shorter;
      assert (s + pad)[|s + pad| - 1] == pad[|pad| - 1];
      UriTrimEndSuffix(s, shorter);
    } else {
      assert s + pad == s;
    }
  }

  // ---------------------------------------------------------------------------
  // PassBusinessRules

  /** The exception PassBusinessRules throws: `req.Name.ToLowerInvariant()` on a null name. */
  datatype Fault = NullReference

  /** The daily-limit query: products whose CreatedAt falls on the day that starts at `dayStart`. */
  function CountCreatedOn(products: seq<Product>, dayStart: int): (n: nat)
    ensures n <= |products|
  {
    if products == [] then 0
    else (if dayStart <= products[0].createdAt < dayStart + TicksPerDay then 1 else 0)
         + CountCreatedOn(products[1..], dayStart)
  }

  /** Some home-restricted word occurs, as written, in the lowered name. */
  predicate HasHomeRestrictedWord(lower: string) {
    exists k | 0 <= k < |HomeRestrictedWords| :: Contains(lower, HomeRestrictedWords[k])
  }

  /** PassBusinessRules: four rules, in order; the first one violated makes it return false. */
  function PassBusinessRules(req: CreateProductProfileRequest, dailyCount: nat): Result<bool, Fault> {
    if dailyCount >= DailyProductLimit then Success(false)
    else if req.category == Electronics && req.price < 50.0 then Success(false)
    else if req.category == Home && req.name.None? then Failure(NullReference)
    else if req.category == Home && HasHomeRestrictedWord(ToLower(req.name.value)) then Success(false)
    else if req.price > 500.0 && req.stockQuantity > 10 then Success(false)
    else Success(true)
  }

  /** The business rules, by name, as an ordered list. */
  datatype BusinessRule = DailyLimit | ElectronicsMinimumPrice | HomeContent | HighValueStock

  const BusinessRuleOrder: seq<BusinessRule> := [DailyLimit, ElectronicsMinimumPrice, HomeContent, HighValueStock]

  /** Whether one rule is violated (true), or evaluating it throws. */
  function Violated(rule: BusinessRule, req: CreateProductProfileRequest, dailyCount: nat): Result<bool, Fault> {
    match rule
    case DailyLimit => Success(dailyCount >= DailyProductLimit)
    case ElectronicsMinimumPrice => Success(req.category == Electronics && req.price < 50.0)
    case HomeContent =>
      if req.category != Home then Success(false)
      else if req.name.None? then Failure(NullReference)
      else Success(HasHomeRestrictedWord(ToLower(req.name.value)))
    case HighValueStock => Success(req.price > 500.0 && req.stockQuantity > 10)
  }

  /** Reference semantics of an ordered short-circuit rule chain. */
  function EvaluateRules(rules: seq<BusinessRule>, req: CreateProductProfileRequest, dailyCount: nat): Result<bool, Fault> {
    if rules == [] then Success(true)
    else match Violated(rules[0], req, dailyCount)
      case Failure(e) => Failure(e)
      case Success(true) => Success(false)
      case Success(false) => EvaluateRules(rules[1..], req, dailyCount)
  }

  /** A chain fails exactly at a violated rule all of whose predecessors passed; it passes when every rule passes. */
  lemma {:induction false} EvaluateRulesFirstViolation(rules: seq<BusinessRule>, req: CreateProductProfileRequest, dailyCount: nat)
    ensures EvaluateRules(rules, req, dailyCount) == Success(false) <==>
      exists k | 0 <= k < |rules| :: Violated(rules[k], req, dailyCount) == Success(true)
        && forall j | 0 <= j < k :: Violated(rules[j], req, dailyCount) == Success(false)
    ensures EvaluateRules(rules, req, dailyCount) == Success(true) <==>
      forall j | 0 <= j < |rules| :: Violated(rules[j], req, dailyCount) == Success(false)
    decreases |rules|
  {
    if rules != [] {
      EvaluateRulesFirstViolation(rules[1..], req, dailyCount);
      var head := Violated(rules[0], req, dailyCount);
      if head == Success(false) {
        if EvaluateRules(rules, req, dailyCount) == Success(false) {
          var k :| 0 <= k < |rules[1..]| && Violated(rules[1..][k], req, dailyCount) == Success(true)
            && forall j | 0 <= j < k :: Violated(rules[1..][j], req, dailyCount) == Success(false);
          assert Violated(rules[k + 1], req, dailyCount) == Success(true);
          forall j | 0 <= j < k + 1 ensures Violated(rules[j], req, dailyCount) == Success(false) {
            if j > 0 { assert rules[j] == rules[1..][j - 1]; }
          }
        }
        if exists k | 0 <= k < |rules| :: Violated(rules[k], req, dailyCount) == Success(true)
             && forall j | 0 <= j < k :: Violated(rules[j], req, dailyCount) == Success(false) {
          var k :| 0 <= k < |rules| && Violated(rules[k], req, dailyCount) == Success(true)
            && forall j | 0 <= j < k :: Violated(rules[j], req, dailyCount) == Success(false);
          assert k > 0;
          assert Violated(rules[1..][k - 1], req, dailyCount) == Success(true);
          forall j | 0 <= j < k - 1 ensures Violated(rules[1..][j], req, dailyCount) == Success(false) {
            assert rules[1..][j] == rules[j + 1];
          }
        }
        if forall j | 0 <= j < |rules[1..]| :: Violated(rules[1..][j], req, dailyCount) == Success(false) {
          forall j | 0 <= j < |rules| ensures Violated(rules[j], req, dailyCount) == Success(false) {
            if j > 0 { assert rules[j] == rules[1..][j - 1]; }
          }
        }
        if forall j | 0 <= j < |rules| :: Violated(rules[j], req, dailyCount) == Success(false) {
          forall j | 0 <= j < |rules[1..]| ensures Violated(rules[1..][j], req, dailyCount) == Success(false) {
            assert rules[1..][j] == rules[j + 1];
          }
        }
      } else if head == Success(true) {
        assert Violated(rules[0], req, dailyCount) == Success(true);
      } else {
        assert Violated(rules[0], req, dailyCount) != Success(false);
      }
    }
  }

  /** The straight-line chain of the source is the ordered evaluation of the four rules. */
  lemma PassBusinessRulesIsOrderedChain(req: CreateProductProfileRequest, dailyCount: nat)
    ensures PassBusinessRules(req, dailyCount) == EvaluateRules(BusinessRuleOrder, req, dailyCount)
  {
    var r0 := BusinessRuleOrder;
    var r1 := [ElectronicsMinimumPrice, HomeContent, HighValueStock];
    var r2 := [HomeContent, HighValueStock];
    var r3 := [HighValueStock];
    assert r0[0] == DailyLimit && r0[1..] == r1;
    assert r1[0] == ElectronicsMinimumPrice && r1[1..] == r2;
    assert r2[0] == HomeContent && r2[1..] == r3;
    assert r3[0] == HighValueStock && r3[1..] == [];
    assert EvaluateRules(r3, req, dailyCount) == Success(!(req.price > 500.0 && req.stockQuantity > 10));
    assert EvaluateRules(r2, req, dailyCount) ==
      (if req.category == Home && req.name.None? then Failure(NullReference)
       else if req.category == Home && HasHomeRestrictedWord(ToLower(req.name.value)) then Success(false)
       else EvaluateRules(r3, req, dailyCount));
    assert EvaluateRules(r1, req, dailyCount) ==
      (if req.category == Electronics && req.price < 50.0 then Success(false) else EvaluateRules(r2, req, dailyCount));
    assert EvaluateRules(r0, req, dailyCount) ==
      (if dailyCount >= DailyProductLimit then Success(false) else EvaluateRules(r1, req, dailyCount));
  }

  /** Reaching the daily limit fails the rules whatever the other fields are. */
  lemma DailyLimitDominates(req: CreateProductProfileRequest, dailyCount: nat)
    requires dailyCount >= DailyProductLimit
    ensures PassBusinessRules(req, dailyCount) == Success(false)
  {
  }

  /** The rules pass exactly when none of the four conditions holds; they throw only for a Home product without a name. */
  lemma PassBusinessRulesIff(req: CreateProductProfileRequest, dailyCount: nat)
    ensures PassBusinessRules(req, dailyCount) == Success(true) <==>
      && dailyCount < DailyProductLimit
      && !(req.category == Electronics && req.price < 50.0)
      && !(req.category == Home && (req.name.None? || Contains(ToLower(req.name.value), "hazard") || Contains(ToLower(req.name.value), "flammable")))
      && !(req.price > 500.0 && req.stockQuantity > 10)
    ensures PassBusinessRules(req, dailyCount).Failure? <==>
      dailyCount < DailyProductLimit && req.category == Home && req.name.None?
  {
    PassBusinessRulesIsOrderedChain(req, dailyCount);
    EvaluateRulesFirstViolation(BusinessRuleOrder, req, dailyCount);
    if req.name.Some? {
      var n := ToLower(req.name.value);
      assert HasHomeRestrictedWord(n) <==> (Contains(n, "hazard") || Contains(n, "flammable")) by {
        assert HomeRestrictedWords[0] == "hazard" && HomeRestrictedWords[1] == "flammable";
      }
    }
  }

  // ---------------------------------------------------------------------------
  // The rule set

  const NameRequired := "Product name is required."
  const NameLength := "Product name must be between 1 and 200 characters."
  const NameInappropriate := "Product name contains inappropriate content."
  const NameNotUnique := "Product name must be unique for the same brand."
  const BrandRequired := "Brand is required."
  const BrandLength := "Brand must be between 2 and 100 characters."
  const BrandInvalid := "Brand contains invalid characters."
  const SkuRequired := "SKU is required."
  const SkuInvalid := "SKU must be 5-20 characters, alphanumeric and may include hyphens."
  const SkuNotUnique := "SKU must be unique in the system."
  const CategoryInvalid := "Category must be a valid ProductCategory."
  const PriceNotPositive := "Price must be greater than 0."
  const PriceTooHigh := "Price must be less than $10,000."
  const ReleaseDateFuture := "Release Date cannot be in the future."
  const ReleaseDateTooOld := "Release Date cannot be before year 1900."
  const StockNegative := "Stock Quantity cannot be negative."
  const StockTooHigh := "Stock Quantity cannot exceed 100,000."
  const ImageUrlInvalid := "ImageUrl must be a valid HTTP/HTTPS image URL ending with .jpg/.png/.gif/.webp/.jpeg"
  const BusinessRulesFailed := "Business rules validation failed."
  const ElectronicsMinimumPriceMessage := "Electronics must have a minimum price of $50.00."
  const ElectronicsKeywordsMessage := "Electronics product name must contain technology keywords."
  const ElectronicsRecentMessage := "Electronics must be released within the last 5 years."
  const HomeMaximumPriceMessage := "Home products must have a price of $200.00 or less."
  const HomeContentMessage := "Home product name contains restricted content."
  const ClothingBrandMessage := "Clothing brand must be at least 3 characters long."
  const ExpensiveStockMessage := "Expensive products (>$100) must have stock \U{2264} 20 units."

  function NameRules(req: CreateProductProfileRequest, existing: seq<Product>): seq<ValidationFailure> {
    Rule(NotEmpty(req.name), "Name", NameRequired)
    + Rule(LengthBetween(req.name, 1, 200), "Name", NameLength)
    + Rule(BeValidName(req.name), "Name", NameInappropriate)
    + Rule(BeUniqueName(req, existing), "Name", NameNotUnique)
  }

  function BrandRules(req: CreateProductProfileRequest): seq<ValidationFailure> {
    Rule(NotEmpty(req.brand), "Brand", BrandRequired)
    + Rule(LengthBetween(req.brand, 2, 100), "Brand", BrandLength)
    + Rule(BeValidBrandName(req.brand), "Brand", BrandInvalid)
  }

  function SkuRules(req: CreateProductProfileRequest, existing: seq<Product>): seq<ValidationFailure> {
    Rule(NotEmpty(req.sku), "SKU", SkuRequired)
    + Rule(BeValidSku(req.sku), "SKU", SkuInvalid)
    + Rule(BeUniqueSku(req.sku, existing), "SKU", SkuNotUnique)
  }

  /** Category, Price, ReleaseDate, StockQuantity and ImageUrl, in the order the rules are declared. */
  function FieldRules(req: CreateProductProfileRequest, clock: Clock): seq<ValidationFailure> {
    Rule(IsInEnum(req.category), "Category", CategoryInvalid)
    + Rule(req.price > 0.0, "Price", PriceNotPositive)
    + Rule(req.price < 10000.0, "Price", PriceTooHigh)
    + Rule(req.releaseDate <= clock.now, "ReleaseDate", ReleaseDateFuture)
    + Rule(req.releaseDate >= Year1900Start, "ReleaseDate", ReleaseDateTooOld)
    + Rule(req.stockQuantity >= 0, "StockQuantity", StockNegative)
    + Rule(req.stockQuantity <= 100_000, "StockQuantity", StockTooHigh)
    + Rule(BeValidImageUrl(req.imageUrl), "ImageUrl", ImageUrlInvalid)
  }

  /** The three When(...) blocks and the cross-field rule. */
  function ConditionalRules(req: CreateProductProfileRequest, clock: Clock): seq<ValidationFailure> {
    (if req.category == Electronics then
       Rule(req.price >= 50.0, "Price", ElectronicsMinimumPriceMessage)
       + Rule(ContainTechnologyKeywords(req.name), "Name", ElectronicsKeywordsMessage)
       + Rule(req.releaseDate >= clock.fiveYearsAgo, "ReleaseDate", ElectronicsRecentMessage)
     else [])
    + (if req.category == Home then
         Rule(req.price <= 200.0, "Price", HomeMaximumPriceMessage)
         + Rule(BeAppropriateForHome(req.name), "Name", HomeContentMessage)
       else [])
    + (if req.category == Clothing then Rule(MinimumLength(req.brand, 3), "Brand", ClothingBrandMessage) else [])
    + Rule(!(req.price > 100.0 && req.stockQuantity > 20), "", ExpensiveStockMessage)
  }

  /**
   * ValidateAsync: every rule runs (FluentValidation's default cascade) and
   * the failures come in declaration order; the RuleFor(x => x) rules have
   * an empty property name. It throws when PassBusinessRules does.
   */
  function Validate(req: CreateProductProfileRequest, existing: seq<Product>, clock: Clock): Result<seq<ValidationFailure>, Fault> {
    match PassBusinessRules(req, CountCreatedOn(existing, StartOfDay(clock.now)))
    case Failure(e) => Failure(e)
    case Success(passed) =>
      Success(NameRules(req, existing) + BrandRules(req) + SkuRules(req, existing) + FieldRules(req, clock)
              + Rule(passed, "", BusinessRulesFailed) + ConditionalRules(req, clock))
  }

  // ---------------------------------------------------------------------------
  // What the rule set accepts

  /** Reference statement of everything a creation request must satisfy. */
  predicate Acceptable(req: CreateProductProfileRequest, existing: seq<Product>, clock: Clock) {
    var name, brand := req.name, req.brand;
    && name.Some? && !IsBlank(name.value) && |name.value| <= 200
    && !ContainsAnyLowered(ToLower(name.value), InappropriateWords)
    && (forall p | p in existing :: !(p.name == name && p.brand == brand))
    && brand.Some? && !IsBlank(brand.value) && 2 <= |brand.value| <= 100
    && (forall i | 0 <= i < |brand.value| :: IsBrandChar(brand.value[i]))
    && BeValidSku(req.sku)
    && (forall p | p in existing :: p.sku != Some(SkuValidation.CleanSku(req.sku.value)))
    && IsInEnum(req.category)
    && 0.0 < req.price < 10000.0
    && Year1900Start <= req.releaseDate <= clock.now
    && 0 <= req.stockQuantity <= 100_000
    && BeValidImageUrl(req.imageUrl)
    && PassBusinessRules(req, CountCreatedOn(existing, StartOfDay(clock.now))) == Success(true)
    && (req.category == Electronics ==>
          req.price >= 50.0 && ContainTechnologyKeywords(name) && req.releaseDate >= clock.fiveYearsAgo)
    && (req.category == Home ==> req.price <= 200.0)
    && (req.category == Clothing ==> |brand.value| >= 3)
    && !(req.price > 100.0 && req.stockQuantity > 20)
  }

  lemma NameRulesPass(req: CreateProductProfileRequest, existing: seq<Product>)
    ensures NameRules(req, existing) == [] <==>
      && req.name.Some? && !IsBlank(req.name.value) && |req.name.value| <= 200
      && !ContainsAnyLowered(ToLower(req.name.value), InappropriateWords)
      && (forall p | p in existing :: !(p.name == req.name && p.brand == req.brand))
  {
  }

  lemma BrandRulesPass(req: CreateProductProfileRequest)
    ensures BrandRules(req) == [] <==>
      && req.brand.Some? && !IsBlank(req.brand.value) && 2 <= |req.brand.value| <= 100
      && (forall i | 0 <= i < |req.brand.value| :: IsBrandChar(req.brand.value[i]))
  {
  }

  lemma SkuRulesPass(req: CreateProductProfileRequest, existing: seq<Product>)
    ensures SkuRules(req, existing) == [] <==>
      && BeValidSku(req.sku)
      && (forall p | p in existing :: p.sku != Some(SkuValidation.CleanSku(req.sku.value)))
  {
    if BeValidSku(req.sku) {
      var c := SkuValidation.CleanSku(req.sku.value);
      assert SkuValidation.IsSkuChar(c[0]);
      RemoveCharsKeepsOthers(req.sku.value, {' '});
      assert c[0] in multiset(c);
      var i :| 0 <= i < |req.sku.value| && req.sku.value[i] == c[0];
      assert !IsWhiteSpace(req.sku.value[i]);
    }
  }

  lemma FieldRulesPass(req: CreateProductProfileRequest, clock: Clock)
    ensures FieldRules(req, clock) == [] <==>
      && IsInEnum(req.category)
      && 0.0 < req.price < 10000.0
      && Year1900Start <= req.releaseDate <= clock.now
      && 0 <= req.stockQuantity <= 100_000
      && BeValidImageUrl(req.imageUrl)
  {
  }

  lemma ConditionalRulesPass(req: CreateProductProfileRequest, clock: Clock)
    ensures ConditionalRules(req, clock) == [] <==>
      && (req.category == Electronics ==>
            req.price >= 50.0 && ContainTechnologyKeywords(req.name) && req.releaseDate >= clock.fiveYearsAgo)
      && (req.category == Home ==> req.price <= 200.0 && BeAppropriateForHome(req.name))
      && (req.category == Clothing ==> MinimumLength(req.brand, 3))
      && !(req.price > 100.0 && req.stockQuantity > 20)
  {
  }

  /** The validator reports no failure exactly for the acceptable requests. */
  lemma ValidateAcceptsExactly(req: CreateProductProfileRequest, existing: seq<Product>, clock: Clock)
    ensures Validate(req, existing, clock) == Success([]) <==> Acceptable(req, existing, clock)
  {
    NameRulesPass(req, existing);
    BrandRulesPass(req);
    SkuRulesPass(req, existing);
    FieldRulesPass(req, clock);
    ConditionalRulesPass(req, clock);
  }

  /** Some failure with this property and message is reported (or the validator throws). */
  predicate Reports(r: Result<seq<ValidationFailure>, Fault>, propertyName: string, message: string) {
    r.Failure? || ValidationFailure(propertyName, message) in r.value
  }

  /** Price above 100 with stock above 20 always fails, whatever the category. */
  lemma ExpensiveOverstockRejected(req: CreateProductProfileRequest, existing: seq<Product>, clock: Clock)
    requires req.price > 100.0 && req.stockQuantity > 20
    ensures Reports(Validate(req, existing, clock), "", ExpensiveStockMessage)
  {
  }

  /** Reaching 500 creations today fails the business-rules check, whatever the other fields are. */
  lemma DailyLimitRejected(req: CreateProductProfileRequest, existing: seq<Product>, clock: Clock)
    requires CountCreatedOn(existing, StartOfDay(clock.now)) >= DailyProductLimit
    ensures Validate(req, existing, clock).Success?
    ensures ValidationFailure("", BusinessRulesFailed) in Validate(req, existing, clock).value
  {
  }

  /** The Electronics rules: minimum price, a technology keyword, a release within five years. */
  lemma ElectronicsRules(req: CreateProductProfileRequest, existing: seq<Product>, clock: Clock)
    requires req.category == Electronics
    ensures req.price < 50.0 ==> Reports(Validate(req, existing, clock), "Price", ElectronicsMinimumPriceMessage)
    ensures !ContainTechnologyKeywords(req.name) ==> Reports(Validate(req, existing, clock), "Name", ElectronicsKeywordsMessage)
    ensures req.releaseDate < clock.fiveYearsAgo ==> Reports(Validate(req, existing, clock), "ReleaseDate", ElectronicsRecentMessage)
  {
  }

  /** The Home rules: maximum price and the inappropriate-word list (not the home-restricted one). */
  lemma HomeRules(req: CreateProductProfileRequest, existing: seq<Product>, clock: Clock)
    requires req.category == Home
    ensures req.price > 200.0 ==> Reports(Validate(req, existing, clock), "Price", HomeMaximumPriceMessage)
    ensures !BeAppropriateForHome(req.name) ==> Reports(Validate(req, existing, clock), "Name", HomeContentMessage)
  {
  }

  /** The Clothing rule: a brand of fewer than three characters fails. */
  lemma ClothingRule(req: CreateProductProfileRequest, existing: seq<Product>, clock: Clock)
    requires req.category == Clothing && req.brand.Some? && |req.brand.value| < 3
    ensures Reports(Validate(req, existing, clock), "Brand", ClothingBrandMessage)
  {
  }

  /** Uniqueness: the same name for the same brand, or the same cleaned SKU, fails. */
  lemma UniquenessRules(req: CreateProductProfileRequest, existing: seq<Product>, clock: Clock, p: Product)
    requires p in existing
    ensures p.name == req.name && p.brand == req.brand ==> Reports(Validate(req, existing, clock), "Name", NameNotUnique)
    ensures p.sku == Some(CleanedSkuOrEmpty(req.sku)) ==> Reports(Validate(req, existing, clock), "SKU", SkuNotUnique)
  {
  }

  lemma InappropriateWordLowerCase(k: nat)
    requires k < |InappropriateWords|
    ensures ToLower(InappropriateWords[k]) == InappropriateWords[k]
  {
    ToLowerOfLowerCase(InappropriateWords[k]);
  }

  /** The name rule: a name passes exactly when it is not blank and no inappropriate word occurs in it, in any ASCII case. */
  lemma NameRule(name: NullableString)
    ensures BeValidName(name) <==>
      && !IsNullOrWhiteSpace(name)
      && forall k | 0 <= k < |InappropriateWords| :: !Contains(ToLower(name.value), InappropriateWords[k])
  {
    forall k | 0 <= k < |InappropriateWords| ensures ToLower(InappropriateWords[k]) == InappropriateWords[k] {
      InappropriateWordLowerCase(k);
    }
  }

  /** BeValidSKU and the ValidSKU attribute accept the same strings. */
  lemma SkuChecksAgree(s: NullableString)
    ensures BeValidSku(s) == SkuValidation.IsValid(s)
  {
  }

  /** BeAppropriateForHome and BeValidName are the same test. */
  lemma HomeNameCheckIsNameCheck(name: NullableString)
    ensures BeAppropriateForHome(name) == BeValidName(name)
  {
  }
}
