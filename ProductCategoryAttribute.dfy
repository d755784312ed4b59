/** Validators/ProductCategoryAttribute.cs: a category must be one of an allowed list. */
module ProductCategoryAttribute {
  import opened Wrappers
  import opened Text
  import opened Products

  /** The attribute after construction: its `_allowed` array and its ErrorMessage. */
  datatype ProductCategoryAttribute = ProductCategoryAttribute(allowed: seq<ProductCategory>, errorMessage: string)

  /** The object handed to IsValid: null, a boxed ProductCategory, or anything else, seen through its ToString(). */
  datatype AttributeValue = NullValue | CategoryValue(category: ProductCategory) | OtherValue(text: string)

  const MessagePrefix := "Category must be one of: "

  function CategoryNames(cs: seq<ProductCategory>): (names: seq<string>)
    ensures |names| == |cs|
    ensures forall i | 0 <= i < |cs| :: names[i] == CategoryName(cs[i])
  {
    if cs == [] then [] else [CategoryName(cs[0])] + CategoryNames(cs[1..])
  }

  /** The constructor: a null `params` array is treated as empty. */
  function New(allowed: Option<seq<ProductCategory>>): (a: ProductCategoryAttribute)
    ensures a.allowed == (if allowed.Some? then allowed.value else [])
    ensures a.errorMessage == MessagePrefix + Join(", ", CategoryNames(a.allowed))
  {
    var list := if allowed.Some? then allowed.value else [];
    ProductCategoryAttribute(list, MessagePrefix + Join(", ", CategoryNames(list)))
  }

  /** The message names every allowed category, after the fixed prefix. */
  lemma MessageNamesEveryAllowed(allowed: Option<seq<ProductCategory>>, k: nat)
    requires allowed.Some? && k < |allowed.value|
    ensures var m := New(allowed).errorMessage;
      m[..|MessagePrefix|] == MessagePrefix
      && exists i :: OccursAt(m, CategoryName(allowed.value[k]), i)
  {
    var names := CategoryNames(allowed.value);
    JoinContainsItems(", ", names, k);
    var i :| OccursAt(Join(", ", names), names[k], i);
    var m := New(allowed).errorMessage;
    assert m == MessagePrefix + Join(", ", names);
    assert OccursAt(m, names[k], |MessagePrefix| + i) by {
      assert m[|MessagePrefix| + i..|MessagePrefix| + i + |names[k]|] == Join(", ", names)[i..i + |names[k]|];
    }
  }

  /** With no allowed category given, the message is the bare prefix. */
  lemma EmptyListMessage()
    ensures New(None).errorMessage == MessagePrefix
    ensures New(Some([])).errorMessage == MessagePrefix
  {
  }

  /** The allowed-list test of both branches: an empty list allows everything. */
  predicate Allows(a: ProductCategoryAttribute, c: ProductCategory) {
    |a.allowed| == 0 || c in a.allowed
  }

  /** IsValid: null fails; a category is checked directly; anything else is parsed as a member name first. */
  predicate IsValid(a: ProductCategoryAttribute, value: AttributeValue) {
    match value
    case NullValue => false
    case CategoryValue(pc) => Allows(a, pc)
    case OtherValue(text) =>
      match ParseCategoryName(text)
      case Some(parsed) => Allows(a, parsed)
      case None => false
  }

  /** The category a value stands for, if any. */
  predicate Denotes(value: AttributeValue, c: ProductCategory) {
    value == CategoryValue(c) || (value.OtherValue? && ParseCategoryName(value.text) == Some(c))
  }

  /** A value passes exactly when it stands for a category the list allows. */
  lemma IsValidIff(a: ProductCategoryAttribute, value: AttributeValue)
    ensures IsValid(a, value) <==> exists c :: Denotes(value, c) && Allows(a, c)
  {
    if value.OtherValue? && ParseCategoryName(value.text).Some? {
      assert Denotes(value, ParseCategoryName(value.text).value);
    }
    if value.CategoryValue? {
      assert Denotes(value, value.category);
    }
  }

  /** Null, and text that names no member, are always rejected. */
  lemma RejectsNullAndUnparsable(a: ProductCategoryAttribute, text: string)
    requires ParseCategoryName(text).None?
    ensures !IsValid(a, NullValue) && !IsValid(a, OtherValue(text))
  {
  }

  /** With an empty list every category and every member name passes; with a non-empty one, exactly the listed ones. */
  lemma AllowedListRule(a: ProductCategoryAttribute, c: ProductCategory)
    ensures |a.allowed| == 0 ==> IsValid(a, CategoryValue(c))
    ensures |a.allowed| > 0 ==> (IsValid(a, CategoryValue(c)) <==> c in a.allowed)
    ensures IsInEnum(c) ==> IsValid(a, OtherValue(CategoryName(c))) == IsValid(a, CategoryValue(c))
  {
    if IsInEnum(c) {
      ParseCategoryNameRoundTrip(c);
    }
  }
}
