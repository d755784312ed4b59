/**
 * The parts of FluentValidation's result that the handlers read: an ordered
 * list of failures, each naming the property and carrying its message.
 */
module Validation {
  import opened Text

  datatype ValidationFailure = ValidationFailure(propertyName: string, errorMessage: string)

  /** One validator of a rule: no failure when it holds, its failure when it does not. */
  function Rule(holds: bool, propertyName: string, errorMessage: string): (r: seq<ValidationFailure>)
    ensures r == [] <==> holds
    ensures !holds ==> r == [ValidationFailure(propertyName, errorMessage)]
  {
    if holds then [] else [ValidationFailure(propertyName, errorMessage)]
  }

  /** The default message of NotNull() and NotEmpty(). */
  function MustNotBeEmpty(displayName: string): string {
    "'" + displayName + "' must not be empty."
  }

  /** NotNull(): fails on null only. */
  predicate NotNull(s: NullableString) {
    s.Some?
  }

  /** NotEmpty() on a string: fails on null, empty and whitespace-only values. */
  predicate NotEmpty(s: NullableString) {
    !IsNullOrWhiteSpace(s)
  }

  /** Length(min, max) and MinimumLength(min): a null value passes. */
  predicate LengthBetween(s: NullableString, min: nat, max: nat) {
    s.None? || min <= |s.value| <= max
  }

  predicate MinimumLength(s: NullableString, min: nat) {
    s.None? || min <= |s.value|
  }

  /** The text the handlers put in their error details: "{PropertyName}: {ErrorMessage}". */
  function Detail(f: ValidationFailure): string {
    f.propertyName + ": " + f.errorMessage
  }

  function Details(fs: seq<ValidationFailure>): (r: seq<string>)
    ensures |r| == |fs|
    ensures forall i | 0 <= i < |fs| :: r[i] == Detail(fs[i])
  {
    if fs == [] then [] else [Detail(fs[0])] + Details(fs[1..])
  }
}
