/**
 * Validators/CreateBookValidator.cs of the book service. The current year,
 * which the rule reads from DateTime.Now when the validator is built, is a
 * parameter.
 */
module CreateBookValidator {
  import opened Wrappers
  import opened Text
  import opened Runtime
  import opened Validation

  /** The members of CreateBookRequest the validator reads. */
  datatype CreateBookRequest = CreateBookRequest(title: NullableString, author: NullableString, yearPublished: Int32)

  const FirstPrintingYear := 1450

  const TitleTooShort := "Title must be at least 1 character long."
  const AuthorTooShort := "Author must be at least 3 characters long."

  function YearOutOfRange(currentYear: int): string {
    "YearPublished must be between 1450 and " + IntToString(currentYear) + "."
  }

  /** RuleFor(x => x.Title).NotNull().NotEmpty().MinimumLength(1).WithMessage(...) */
  function TitleRules(title: NullableString): seq<ValidationFailure> {
    Rule(NotNull(title), "Title", MustNotBeEmpty("Title"))
    + Rule(NotEmpty(title), "Title", MustNotBeEmpty("Title"))
    + Rule(MinimumLength(title, 1), "Title", TitleTooShort)
  }

  /** RuleFor(x => x.Author).NotNull().NotEmpty().MinimumLength(3).WithMessage(...) */
  function AuthorRules(author: NullableString): seq<ValidationFailure> {
    Rule(NotNull(author), "Author", MustNotBeEmpty("Author"))
    + Rule(NotEmpty(author), "Author", MustNotBeEmpty("Author"))
    + Rule(MinimumLength(author, 3), "Author", AuthorTooShort)
  }

  /** RuleFor(x => x.YearPublished).InclusiveBetween(1450, currentYear).WithMessage(...) */
  function YearRules(year: int, currentYear: int): seq<ValidationFailure> {
    Rule(FirstPrintingYear <= year <= currentYear, "YearPublished", YearOutOfRange(currentYear))
  }

  /** The failures of the whole rule set, rule by rule; every validator of every rule runs. */
  function Validate(req: CreateBookRequest, currentYear: int): (r: seq<ValidationFailure>)
    ensures forall i | 0 <= i < |r| :: r[i].propertyName in {"Title", "Author", "YearPublished"}
  {
    TitleRules(req.title) + AuthorRules(req.author) + YearRules(req.yearPublished, currentYear)
  }

  /** A request is valid exactly when the title is non-blank, the author is non-blank with at least 3 characters, and the year lies in [1450, currentYear]. */
  lemma ValidIff(req: CreateBookRequest, currentYear: int)
    ensures Validate(req, currentYear) == [] <==>
      && req.title.Some? && !IsBlank(req.title.value)
      && req.author.Some? && !IsBlank(req.author.value) && |req.author.value| >= 3
      && FirstPrintingYear <= req.yearPublished <= currentYear
  {
    if req.title.Some? && !IsBlank(req.title.value) {
      assert |req.title.value| >= 1;
    }
  }

  /** The title passes exactly when it is non-blank; the length check fires only for the empty title. */
  lemma TitleRule(title: NullableString)
    ensures TitleRules(title) == [] <==> NotEmpty(title)
    ensures MinimumLength(title, 1) <==> title != Some("")
  {
  }

  /** The empty title fails NotEmpty with the default message, then the length check with the custom one. */
  lemma EmptyTitleFailures()
    ensures TitleRules(Some("")) == [ValidationFailure("Title", MustNotBeEmpty("Title")), ValidationFailure("Title", TitleTooShort)]
  {
  }

  /** A null author fails NotNull and NotEmpty, with the default message; the length check lets null through. */
  lemma NullAuthorFailures()
    ensures AuthorRules(None) == [ValidationFailure("Author", MustNotBeEmpty("Author")), ValidationFailure("Author", MustNotBeEmpty("Author"))]
  {
  }

  /** A non-blank author shorter than 3 characters fails the length check alone, with the custom message. */
  lemma ShortAuthorFailure(author: string)
    requires !IsBlank(author) && |author| < 3
    ensures AuthorRules(Some(author)) == [ValidationFailure("Author", AuthorTooShort)]
  {
  }

  /** Both ends of the year range are accepted; the years just outside are rejected, with the range in the message. */
  lemma YearBounds(currentYear: int)
    requires currentYear >= FirstPrintingYear
    ensures YearRules(FirstPrintingYear, currentYear) == [] && YearRules(currentYear, currentYear) == []
    ensures YearRules(FirstPrintingYear - 1, currentYear) == [ValidationFailure("YearPublished", YearOutOfRange(currentYear))]
    ensures YearRules(currentYear + 1, currentYear) == [ValidationFailure("YearPublished", YearOutOfRange(currentYear))]
  {
  }

  /** The failures come grouped by property: title, then author, then year. */
  lemma FailuresInRuleOrder(req: CreateBookRequest, currentYear: int)
    ensures var r := Validate(req, currentYear);
      var t := |TitleRules(req.title)|;
      var a := |AuthorRules(req.author)|;
      && t + a <= |r|
      && r[..t] == TitleRules(req.title)
      && r[t..t + a] == AuthorRules(req.author)
      && r[t + a..] == YearRules(req.yearPublished, currentYear)
  {
    var tr, ar, yr := TitleRules(req.title), AuthorRules(req.author), YearRules(req.yearPublished, currentYear);
    var r := tr + ar + yr;
    assert r[..|tr|] == tr;
    assert r[|tr|..|tr| + |ar|] == ar;
    assert r[|tr| + |ar|..] == yr;
  }
}
