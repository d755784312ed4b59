/** Validators/ValidSKUAttribute.cs, and the SKU pattern it shares with the profile validator. */
module SkuValidation {
  import opened Wrappers
  import opened Text

  /** U+212A KELVIN SIGN, whose lower case is 'k'. */
  const KelvinSign: char := '\U{212A}'

  /**
   * A character the class [A-Za-z0-9\-] matches under RegexOptions.IgnoreCase
   * in a culture without special casing: the ASCII letters, digits and '-',
   * and the Kelvin sign, which .NET's case-insensitive matching treats as
   * 'k' and 'K'.
   */
  predicate IsSkuChar(c: char) {
    IsAsciiLetter(c) || IsAsciiDigit(c) || c == '-' || c == KelvinSign
  }

  /** 5 to 20 characters from [A-Za-z0-9-], case-insensitively. */
  predicate IsSkuBody(s: string) {
    5 <= |s| <= 20 && forall i | 0 <= i < |s| :: IsSkuChar(s[i])
  }

  /**
   * The .NET regex ^[A-Za-z0-9\-]{5,20}$ with IgnoreCase: without the
   * Multiline option `$` also matches just before a final '\n', so one
   * trailing newline is accepted.
   */
  predicate MatchesSkuPattern(s: string) {
    IsSkuBody(s) || (|s| > 0 && s[|s| - 1] == '\n' && IsSkuBody(s[..|s| - 1]))
  }

  /** sku.Replace(" ", string.Empty) */
  function CleanSku(s: string): string {
    RemoveChars(s, {' '})
  }

  const DefaultErrorMessage: string := "SKU must be 5-20 characters, alphanumeric and may include hyphens."
  const ClientPattern: string := "^[A-Za-z0-9\\-]{5,20}$"

  /** ArgumentNullException(nameof(context)) */
  datatype ArgumentNull = ArgumentNullException(paramName: string)

  /**
   * IsValid(object? value), with `value` given as null or as the text of its
   * ToString(): null is rejected; otherwise the text with its spaces removed
   * must match the SKU pattern.
   */
  predicate IsValid(value: NullableString) {
    value.Some? && MatchesSkuPattern(CleanSku(value.value))
  }

  /** A valid SKU has no spaces left once cleaned and is 5 to 21 characters long. */
  lemma ValidSkuShape(s: string)
    requires IsValid(Some(s))
    ensures ' ' !in CleanSku(s) && 5 <= |CleanSku(s)| <= 21
    ensures forall i | 0 <= i < |CleanSku(s)| - 1 :: IsSkuChar(CleanSku(s)[i])
  {
    var c := CleanSku(s);
    if !IsSkuBody(c) {
      assert forall i | 0 <= i < |c| - 1 :: c[..|c| - 1][i] == c[i];
    }
  }

  /** Case-insensitive matching lets the Kelvin sign stand for a letter k. */
  lemma KelvinSignAccepted()
    ensures IsValid(Some("ABCD" + [KelvinSign]))
    ensures IsValid(Some("ABCDk"))
  {
    var s := "ABCD" + [KelvinSign];
    RemoveCharsNoop(s, {' '});
    RemoveCharsNoop("ABCDk", {' '});
  }

  /** Spaces do not matter: a string and its cleaned form are accepted alike. */
  lemma IsValidIgnoresSpaces(s: string)
    ensures IsValid(Some(s)) == IsValid(Some(CleanSku(s)))
  {
    RemoveCharsIdempotent(s, {' '});
  }

  /** Chars of a SKU body, a trailing newline or spaces anywhere: accepted exactly in these shapes. */
  lemma IsValidCharacterisation(s: string)
    ensures IsValid(Some(s)) <==>
      (IsSkuBody(CleanSku(s)) || exists body :: IsSkuBody(body) && CleanSku(s) == body + "\n")
  {
    var c := CleanSku(s);
    if |c| > 0 && c[|c| - 1] == '\n' {
      assert c == c[..|c| - 1] + "\n";
    }
    if exists body :: IsSkuBody(body) && c == body + "\n" {
      var body :| IsSkuBody(body) && c == body + "\n";
      assert c[..|c| - 1] == body;
    }
  }

  /** The form element that ASP.NET's client-side validation reads. */
  class ClientModelValidationContext {
    var attributes: map<string, string>

    constructor (attributes: map<string, string>)
      ensures this.attributes == attributes
    {
      this.attributes := attributes;
    }
  }

  /** The attribute object: ErrorMessage is set by its constructor and may be reassigned. */
  class ValidSkuAttribute {
    var errorMessage: NullableString

    constructor ()
      ensures errorMessage == Some(DefaultErrorMessage)
    {
      errorMessage := Some(DefaultErrorMessage);
    }

    /**
     * AddValidation: throws for a null context; otherwise sets data-val,
     * data-val-validsku and data-val-validsku-pattern and leaves every other
     * attribute as it was.
     */
    method AddValidation(context: ClientModelValidationContext?) returns (r: Result<(), ArgumentNull>)
      modifies context
      ensures context == null <==> r == Failure(ArgumentNullException("context"))
      ensures r.Success? <==> context != null
      ensures context != null ==>
        context.attributes == old(context.attributes)
          ["data-val" := "true"]
          ["data-val-validsku" := if errorMessage.Some? then errorMessage.value else "Invalid SKU."]
          ["data-val-validsku-pattern" := ClientPattern]
    {
      if context == null {
        return Failure(ArgumentNullException("context"));
      }
      var attributes := context.attributes;
      attributes := attributes["data-val" := "true"];
      attributes := attributes["data-val-validsku" := if errorMessage.Some? then errorMessage.value else "Invalid SKU."];
      attributes := attributes["data-val-validsku-pattern" := ClientPattern];
      context.attributes := attributes;
      return Success(());
    }
  }
}
