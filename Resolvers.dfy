/**
 * The display resolvers of the product profile DTO:
 * Mappings/Resolvers/AvailabilityStatusResolver.cs, BrandInitialsResolver.cs
 * and ProductAgeResolver.cs. DateTime.UtcNow is a parameter.
 */
module Resolvers {
  import opened Wrappers
  import opened Text
  import opened Runtime
  import opened Products
  import CreateProductProfileValidator
  import Validation

  // ---------------------------------------------------------------------------
  // Availability

  const OutOfStock := "Out of Stock"
  const Unavailable := "Unavailable"
  const LastItem := "Last Item"
  const LimitedStock := "Limited Stock"
  const InStock := "In Stock"

  /** AvailabilityStatusResolver.Resolve */
  function AvailabilityStatus(p: Product): (r: string)
    ensures r in {OutOfStock, Unavailable, LastItem, LimitedStock, InStock}
  {
    if !p.IsAvailable() then OutOfStock
    else if p.IsAvailable() && p.stockQuantity == 0 then Unavailable
    else if p.IsAvailable() && p.stockQuantity == 1 then LastItem
    else if p.IsAvailable() && p.stockQuantity <= 5 then LimitedStock
    else InStock
  }

  /** The tiers, by availability and stock; each status is reached by exactly its own condition. */
  lemma AvailabilityTiers(p: Product)
    ensures AvailabilityStatus(p) == OutOfStock <==> !p.IsAvailable()
    ensures AvailabilityStatus(p) == Unavailable <==> p.IsAvailable() && p.stockQuantity == 0
    ensures AvailabilityStatus(p) == LastItem <==> p.IsAvailable() && p.stockQuantity == 1
    ensures AvailabilityStatus(p) == LimitedStock <==>
      p.IsAvailable() && p.stockQuantity <= 5 && p.stockQuantity != 0 && p.stockQuantity != 1
    ensures AvailabilityStatus(p) == InStock <==> p.IsAvailable() && p.stockQuantity > 5
  {
  }

  /** Without an override, "Unavailable" never shows: availability then means stock above zero. */
  lemma NoOverrideNeverUnavailable(p: Product)
    requires p.isAvailableOverride.None?
    ensures AvailabilityStatus(p) != Unavailable
    ensures AvailabilityStatus(p) == OutOfStock <==> p.stockQuantity <= 0
  {
  }

  // ---------------------------------------------------------------------------
  // Brand initials

  const BrandSeparators: set<char> := {' ', '-', '_'}

  /** `parts[0]` on an empty array. */
  datatype IndexOutOfRange = IndexOutOfRangeException

  /** BrandInitialsResolver.Resolve as written: it throws when the split leaves no part. */
  function BrandInitialsAsWritten(brand: NullableString): (r: Result<string, IndexOutOfRange>)
    ensures r.Failure? <==> !IsNullOrWhiteSpace(brand) && SplitRemoveEmpty(brand.value, BrandSeparators) == []
  {
    if IsNullOrWhiteSpace(brand) then Success("?")
    else
      var parts := SplitRemoveEmpty(brand.value, BrandSeparators);
      if |parts| >= 2 then Success([ToUpperChar(parts[0][0]), ToUpperChar(parts[|parts| - 1][0])])
      else if |parts| == 0 then Failure(IndexOutOfRangeException)
      else Success([ToUpperChar(parts[0][0])])
  }

  /** BrandInitialsResolver.Resolve with the empty split answered like a blank brand, by "?". */
  function BrandInitials(brand: NullableString): (r: string)
    ensures |r| == 1 || |r| == 2
  {
    if IsNullOrWhiteSpace(brand) then "?"
    else
      var parts := SplitRemoveEmpty(brand.value, BrandSeparators);
      if |parts| >= 2 then [ToUpperChar(parts[0][0]), ToUpperChar(parts[|parts| - 1][0])]
      else if |parts| == 0 then "?"
      else [ToUpperChar(parts[0][0])]
  }

  /** Wherever the source returns, the corrected resolver returns the same string. */
  lemma BrandInitialsAgreesWhereSourceReturns(brand: NullableString)
    ensures BrandInitialsAsWritten(brand).Success? ==> BrandInitialsAsWritten(brand).value == BrandInitials(brand)
  {
  }

  /** The shape of the initials: "?" for no words; first word's initial; last word's initial when there are two or more words. */
  lemma {:induction false} BrandInitialsRule(brand: NullableString)
    ensures IsNullOrWhiteSpace(brand) ==> BrandInitials(brand) == "?"
    ensures brand.Some? && (forall i | 0 <= i < |brand.value| :: brand.value[i] in BrandSeparators) ==> BrandInitials(brand) == "?"
    ensures brand.Some? && (exists i | 0 <= i < |brand.value| :: brand.value[i] !in BrandSeparators) && !IsBlank(brand.value) ==>
      && var parts := SplitRemoveEmpty(brand.value, BrandSeparators);
      && BrandInitials(brand)[0] == ToUpperChar(parts[0][0])
      && (exists k | 0 <= k < |brand.value| :: brand.value[k] !in BrandSeparators
            && (forall j | 0 <= j < k :: brand.value[j] in BrandSeparators)
            && BrandInitials(brand)[0] == ToUpperChar(brand.value[k]))
      && (|parts| >= 2 <==> |BrandInitials(brand)| == 2)
      && (|parts| >= 2 ==> BrandInitials(brand)[1] == ToUpperChar(parts[|parts| - 1][0]))
  {
    if brand.Some? && (exists i | 0 <= i < |brand.value| :: brand.value[i] !in BrandSeparators) {
      var parts := SplitRemoveEmpty(brand.value, BrandSeparators);
      assert parts != [];
      SplitFirstPart(brand.value, BrandSeparators);
    }
  }

  /** Initials are never separators: every character comes from a word of the brand or is '?'. */
  lemma BrandInitialsNoSeparator(brand: NullableString)
    ensures forall i | 0 <= i < |BrandInitials(brand)| :: BrandInitials(brand)[i] !in BrandSeparators
  {
    var r := BrandInitials(brand);
    if !IsNullOrWhiteSpace(brand) {
      var parts := SplitRemoveEmpty(brand.value, BrandSeparators);
      if |parts| > 0 {
        assert parts[0][0] !in BrandSeparators;
        assert parts[|parts| - 1][0] !in BrandSeparators;
      }
    }
  }

  /**
   * A brand of separators only, such as "--", passes every brand rule of the
   * creation validator, yet the resolver as written throws on it.
   */
  lemma SeparatorOnlyBrandCrashes()
    ensures CreateProductProfileValidator.BeValidBrandName(Some("--"))
    ensures Validation.LengthBetween(Some("--"), 2, 100)
    ensures BrandInitialsAsWritten(Some("--")).Failure?
    ensures BrandInitials(Some("--")) == "?"
  {
    var b := "--";
    assert !IsWhiteSpace(b[0]);
    assert forall i | 0 <= i < |b| :: b[i] in BrandSeparators;
  }

  // ---------------------------------------------------------------------------
  // Product age

  /** Ticks elapsed since CreatedAt; a CreatedAt in the future counts as now. */
  function ElapsedTicks(createdAt: Ticks, now: Ticks): (d: nat)
    ensures createdAt >= now ==> d == 0
    ensures createdAt < now ==> d == now - createdAt
  {
    if createdAt > now then 0 else now - createdAt
  }

  /** "{n} {unit}" with the plural "s" exactly when n > 1, then " old". */
  function AgeText(n: nat, unit: string): string {
    NatToString(n) + " " + unit + (if n > 1 then "s" else "") + " old"
  }

  /** (now - created).TotalDays, taken exactly. */
  function TotalDays(createdAt: Ticks, now: Ticks): (t: real)
    ensures t >= 0.0
  {
    ElapsedTicks(createdAt, now) as real / TicksPerDay as real
  }

  /** ProductAgeResolver.Resolve; Math.Floor and the (int) cast of a non-negative value are both .Floor. */
  function ProductAge(createdAt: Ticks, now: Ticks): string {
    var totalDays := TotalDays(createdAt, now);
    if totalDays < 30.0 then "New Release"
    else if totalDays < 365.0 then AgeText((totalDays / 30.0).Floor, "month")
    else if totalDays.Floor == 1825 then "Classic"
    else if totalDays < 1825.0 then AgeText((totalDays / 365.0).Floor, "year")
    else AgeText((totalDays / 365.0).Floor, "year")
  }

  lemma MultiplyMonotone(x: real, y: real, c: real)
    requires c > 0.0 && x < y
    ensures x * c < y * c
  {
  }

  /** Dividing the day count and then flooring is flooring and then dividing in whole numbers. */
  lemma FloorOfQuotient(t: real, c: nat)
    requires t >= 0.0 && c > 0
    ensures (t / c as real).Floor == t.Floor / c
  {
    var k := t.Floor;
    var q := k / c;
    var r := k % c;
    assert k == c * q + r && 0 <= r < c;
    var cr := c as real;
    assert (q as real) * cr == (c * q) as real;
    assert (q as real + 1.0) * cr == (c * q + c) as real;
    assert (c * q) as real <= t;
    assert t < (c * q + c) as real;
    var u := t / cr;
    assert t == u * cr;
    if u < q as real {
      MultiplyMonotone(u, q as real, cr);
    }
    if u >= q as real + 1.0 {
      if u > q as real + 1.0 {
        MultiplyMonotone(q as real + 1.0, u, cr);
      }
    }
  }

  /**
   * The age buckets in whole days d: under 30 days a new release; then whole
   * months under a year, 1 to 12; exactly 1825 days "Classic"; otherwise
   * whole years, at least 1.
   */
  lemma ProductAgeBuckets(createdAt: Ticks, now: Ticks)
    ensures var d := ElapsedTicks(createdAt, now) / TicksPerDay;
      && (d < 30 ==> ProductAge(createdAt, now) == "New Release")
      && (30 <= d < 365 ==> ProductAge(createdAt, now) == AgeText(d / 30, "month") && 1 <= d / 30 <= 12)
      && (d == 1825 ==> ProductAge(createdAt, now) == "Classic")
      && (d >= 365 && d != 1825 ==> ProductAge(createdAt, now) == AgeText(d / 365, "year") && d / 365 >= 1)
  {
    var t := TotalDays(createdAt, now);
    var elapsed := ElapsedTicks(createdAt, now);
    assert t.Floor == elapsed / TicksPerDay by {
      var d := elapsed / TicksPerDay;
      assert elapsed == TicksPerDay * d + elapsed % TicksPerDay;
      assert d as real <= t < d as real + 1.0;
    }
    FloorOfQuotient(t, 30);
    FloorOfQuotient(t, 365);
  }

  /** A product created now, or dated in the future, is a new release. */
  lemma JustCreatedIsNewRelease(createdAt: Ticks, now: Ticks)
    requires createdAt >= now
    ensures ProductAge(createdAt, now) == "New Release"
  {
  }

  /** The plural "s" is there exactly when the count is above one. */
  lemma AgeTextPlural(n: nat, unit: string)
    ensures AgeText(n, unit)[..|NatToString(n)|] == NatToString(n)
    ensures n > 1 <==> AgeText(n, unit) == NatToString(n) + " " + unit + "s old"
    ensures n <= 1 ==> AgeText(n, unit) == NatToString(n) + " " + unit + " old"
  {
    if n <= 1 {
      var a := NatToString(n) + " " + unit + " old";
      var b := NatToString(n) + " " + unit + "s old";
      assert |a| != |b|;
    }
  }
}
