/**
 * Validators/PriceRangeAttribute.cs: a value must read as a decimal within
 * inclusive bounds.
 */
module PriceRangeAttribute {
  import opened Wrappers
  import opened Text

  /** The attribute's readonly bounds. */
  datatype PriceRangeAttribute = PriceRangeAttribute(min: real, max: real)

  /** The white space NumberStyles.AllowLeadingWhite and AllowTrailingWhite skip: U+0009..U+000D and U+0020. */
  predicate IsNumberWhite(c: char) {
    c == ' ' || ('\t' <= c <= '\r')
  }

  /** Number of leading characters that are number white space. */
  function LeadingWhite(s: string): (n: nat)
    ensures n <= |s|
    ensures forall i | 0 <= i < n :: IsNumberWhite(s[i])
    ensures n == |s| || !IsNumberWhite(s[n])
    decreases |s|
  {
    if s == [] || !IsNumberWhite(s[0]) then 0 else 1 + LeadingWhite(s[1..])
  }

  /** Number of trailing characters that are number white space. */
  function TrailingWhite(s: string): (n: nat)
    ensures n <= |s|
    ensures forall i | |s| - n <= i < |s| :: IsNumberWhite(s[i])
    ensures n == |s| || !IsNumberWhite(s[|s| - n - 1])
    decreases |s|
  {
    if s == [] || !IsNumberWhite(s[|s| - 1]) then 0 else 1 + TrailingWhite(s[..|s| - 1])
  }

  /** Length of the run of decimal digits that starts `s`. */
  function DigitRun(s: string): (n: nat)
    ensures n <= |s|
    ensures forall i | 0 <= i < n :: IsAsciiDigit(s[i])
    ensures n == |s| || !IsAsciiDigit(s[n])
    decreases |s|
  {
    if s == [] || !IsAsciiDigit(s[0]) then 0 else 1 + DigitRun(s[1..])
  }

  function Pow10(n: nat): (p: nat)
    ensures p >= 1
  {
    if n == 0 then 1 else 10 * Pow10(n - 1)
  }

  /** digits, or digits '.' digits, with at least one digit in all: the value it denotes. */
  function ParseUnsigned(s: string): (r: Option<real>)
    ensures r.Some? ==> r.value >= 0.0
  {
    var n := DigitRun(s);
    var whole := s[..n];
    if n == |s| then
      (if n == 0 then None else Some(DecimalValue(whole) as real))
    else if s[n] != '.' then None
    else
      var rest := s[n + 1..];
      var m := DigitRun(rest);
      var fraction := rest[..m];
      if m != |rest| || n + m == 0 then None
      else Some(DecimalValue(whole) as real + DecimalValue(fraction) as real / Pow10(m) as real)
  }

  /**
   * decimal.TryParse(text, NumberStyles.Number, CultureInfo.InvariantCulture):
   * optional white space around an optionally signed plain decimal.
   */
  function ParseDecimal(text: string): Option<real> {
    ParseSigned(TrimNumberWhite(text))
  }

  /** The text without its leading and trailing number white space. */
  function TrimNumberWhite(text: string): string {
    var body := text[LeadingWhite(text)..];
    body[..|body| - TrailingWhite(body)]
  }

  /** An optional leading sign, then an unsigned decimal. */
  function ParseSigned(t: string): Option<real> {
    if |t| > 0 && t[0] == '-' then
      match ParseUnsigned(t[1..])
      case Some(v) => Some(-v)
      case None => None
    else if |t| > 0 && t[0] == '+' then ParseUnsigned(t[1..])
    else ParseUnsigned(t)
  }

  /**
   * IsValid(value). The object is seen through Convert.ToString(value,
   * CultureInfo.InvariantCulture): None is a null value, Some(text) any other.
   */
  predicate IsValid(a: PriceRangeAttribute, value: Option<string>) {
    match value
    case None => false
    case Some(text) =>
      match ParseDecimal(text)
      case Some(dec) => a.min <= dec <= a.max
      case None => false
  }

  /** Null and unparsable values fail; a parsed value passes exactly when it lies in [min, max], both ends included. */
  lemma IsValidRule(a: PriceRangeAttribute, value: Option<string>)
    ensures value.None? ==> !IsValid(a, value)
    ensures value.Some? && ParseDecimal(value.value).None? ==> !IsValid(a, value)
    ensures value.Some? && ParseDecimal(value.value).Some? ==>
      (IsValid(a, value) <==> a.min <= ParseDecimal(value.value).value <= a.max)
  {
  }

  /** Values strictly below min or above max are rejected, whatever their text. */
  lemma OutsideRangeRejected(a: PriceRangeAttribute, text: string)
    requires ParseDecimal(text).Some?
    requires ParseDecimal(text).value < a.min || ParseDecimal(text).value > a.max
    ensures !IsValid(a, Some(text))
  {
  }

  lemma {:induction false} DigitRunAllDigits(s: string)
    requires forall i | 0 <= i < |s| :: IsAsciiDigit(s[i])
    ensures DigitRun(s) == |s|
    decreases |s|
  {
    if s != [] {
      DigitRunAllDigits(s[1..]);
    }
  }

  /** The invariant text of an integer reads back as that integer. */
  lemma IntegerTextRoundTrip(x: int)
    ensures ParseDecimal(IntToString(x)) == Some(x as real)
  {
    var n: nat := if x < 0 then -x else x;
    DigitsReadBack(n);
    var text := IntToString(x);
    TrimNumberWhiteNoop(text);
    if x < 0 {
      assert text[1..] == NatToString(n);
    }
  }

  lemma DigitsReadBack(n: nat)
    ensures ParseUnsigned(NatToString(n)) == Some(n as real)
  {
    var digits := NatToString(n);
    DigitRunAllDigits(digits);
    NatToStringRoundTrip(n);
    assert digits[..|digits|] == digits;
  }

  lemma TrimNumberWhiteNoop(t: string)
    requires |t| > 0 && !IsNumberWhite(t[0]) && !IsNumberWhite(t[|t| - 1])
    ensures TrimNumberWhite(t) == t
  {
    assert LeadingWhite(t) == 0;
    assert t[0..] == t;
    assert TrailingWhite(t) == 0;
  }

  /** A bound written as an integer is itself accepted: both ends are inclusive. */
  lemma BoundsAccepted(a: PriceRangeAttribute, x: int)
    requires a.min <= a.max && (x as real == a.min || x as real == a.max)
    ensures IsValid(a, Some(IntToString(x)))
  {
    IntegerTextRoundTrip(x);
  }
}
