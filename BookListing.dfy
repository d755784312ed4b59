/**
 * Features/Books/GetAllBookHandler.cs of the book service: filter the books
 * by author, order them by title or year, then cut out one page. The
 * database query is a function over the sequence of stored books.
 */
module BookListing {
  import opened Wrappers
  import opened Text
  import opened Runtime

  /** A stored book, with the members the listing reads. */
  datatype Book = Book(id: Guid, title: string, author: string, yearPublished: Int32)

  /** GetAllBookRequest: an optional author filter, the sort choice, and the page. */
  datatype GetAllBookRequest = GetAllBookRequest(
    author: NullableString,
    sortBy: NullableString,
    sortOrder: NullableString,
    pageNumber: Int32,
    pageSize: Int32)

  /** The request with the record's declared defaults: "title", "asc", page 1 of 100. */
  function DefaultRequest(author: NullableString): GetAllBookRequest {
    GetAllBookRequest(author, Some("title"), Some("asc"), 1, 100)
  }

  // ---------------------------------------------------------------------------
  // Author filter

  /** The filter text a request asks for: none for a null or blank author, else the trimmed, lowered author. */
  function AuthorFilter(author: NullableString): (f: Option<string>)
    ensures f.None? <==> IsNullOrWhiteSpace(author)
    ensures f.Some? ==> |f.value| > 0
  {
    if IsNullOrWhiteSpace(author) then None
    else
      TrimProperties(author.value);
      Some(ToLower(Trim(author.value)))
  }

  /** b.Author.ToLower().Contains(filter) */
  predicate MatchesAuthor(b: Book, filter: string) {
    Contains(ToLower(b.author), filter)
  }

  /** The Where clause: the matching books, in their order. */
  function FilterByAuthor(books: seq<Book>, filter: string): (r: seq<Book>)
    ensures |r| <= |books|
    ensures forall b :: multiset(r)[b] == if MatchesAuthor(b, filter) then multiset(books)[b] else 0
    decreases |books|
  {
    if books == [] then []
    else
      assert books == [books[0]] + books[1..];
      (if MatchesAuthor(books[0], filter) then [books[0]] else []) + FilterByAuthor(books[1..], filter)
  }

  /** The query after the optional Where. */
  function Filtered(request: GetAllBookRequest, books: seq<Book>): (r: seq<Book>)
    ensures AuthorFilter(request.author).None? ==> r == books
    ensures AuthorFilter(request.author).Some? ==> r == FilterByAuthor(books, AuthorFilter(request.author).value)
  {
    match AuthorFilter(request.author)
    case None => books
    case Some(filter) => FilterByAuthor(books, filter)
  }

  // ---------------------------------------------------------------------------
  // Sort choice

  datatype SortKey = ByTitle | ByYear

  /** (text ?? fallback).Trim().ToLower(), for a fallback that trimming and lowering leave alone (TitleIsNormal, AscIsNormal). */
  function Normalized(text: NullableString, fallback: string): string {
    if text.Some? then ToLower(Trim(text.value)) else fallback
  }

  /** "year" or "yearpublished", once normalized, picks the year. */
  function SortKeyOf(sortBy: NullableString): SortKey {
    var s := Normalized(sortBy, "title");
    if s == "year" || s == "yearpublished" then ByYear else ByTitle
  }

  /** (SortOrder ?? "asc").Trim().ToLower() == "desc" */
  predicate IsDescending(sortOrder: NullableString) {
    Normalized(sortOrder, "asc") == "desc"
  }

  /** The key comparison: ordinal for titles (SQLite's binary collation), numeric for years. */
  predicate KeyLe(key: SortKey, a: Book, b: Book) {
    match key
    case ByTitle => OrdinalLe(a.title, b.title)
    case ByYear => a.yearPublished <= b.yearPublished
  }

  /** `a` may come before `b` in the chosen key and direction. */
  predicate InOrder(key: SortKey, desc: bool, a: Book, b: Book) {
    if desc then KeyLe(key, b, a) else KeyLe(key, a, b)
  }

  lemma InOrderTotal(key: SortKey, desc: bool, a: Book, b: Book)
    ensures InOrder(key, desc, a, b) || InOrder(key, desc, b, a)
  {
    if key == ByTitle {
      OrdinalLeTotal(a.title, b.title);
    }
  }

  lemma InOrderTransitive(key: SortKey, desc: bool, a: Book, b: Book, c: Book)
    requires InOrder(key, desc, a, b) && InOrder(key, desc, b, c)
    ensures InOrder(key, desc, a, c)
  {
    if key == ByTitle {
      if desc {
        OrdinalLeTransitive(c.title, b.title, a.title);
      } else {
        OrdinalLeTransitive(a.title, b.title, c.title);
      }
    }
  }

  predicate Sorted(key: SortKey, desc: bool, s: seq<Book>) {
    forall i, j | 0 <= i < j < |s| :: InOrder(key, desc, s[i], s[j])
  }

  /** Insert `b` before the first book it may precede. */
  function Insert(key: SortKey, desc: bool, b: Book, s: seq<Book>): (r: seq<Book>)
    ensures |r| == |s| + 1
    ensures multiset(r) == multiset(s) + multiset{b}
    ensures forall x | x in r :: x in s || x == b
    decreases |s|
  {
    if s == [] then [b]
    else if InOrder(key, desc, b, s[0]) then [b] + s
    else
      assert s == [s[0]] + s[1..];
      [s[0]] + Insert(key, desc, b, s[1..])
  }

  /** OrderBy / OrderByDescending on the chosen key; equal keys keep their stored order. */
  function SortBooks(key: SortKey, desc: bool, s: seq<Book>): (r: seq<Book>)
    ensures |r| == |s|
    ensures multiset(r) == multiset(s)
    decreases |s|
  {
    if s == [] then []
    else
      assert s == [s[0]] + s[1..];
      Insert(key, desc, s[0], SortBooks(key, desc, s[1..]))
  }

  /** A book that may precede `b` and every book of `s` may precede every book of the insertion. */
  lemma InsertKeepsLowerBound(key: SortKey, desc: bool, a: Book, b: Book, s: seq<Book>)
    requires InOrder(key, desc, a, b)
    requires forall j | 0 <= j < |s| :: InOrder(key, desc, a, s[j])
    ensures forall j | 0 <= j < |s| + 1 :: InOrder(key, desc, a, Insert(key, desc, b, s)[j])
  {
    var r := Insert(key, desc, b, s);
    forall j | 0 <= j < |r| ensures InOrder(key, desc, a, r[j]) {
      assert r[j] in r;
    }
  }

  lemma {:induction false} InsertSorted(key: SortKey, desc: bool, b: Book, s: seq<Book>)
    requires Sorted(key, desc, s)
    ensures Sorted(key, desc, Insert(key, desc, b, s))
    decreases |s|
  {
    if s == [] {
    } else if InOrder(key, desc, b, s[0]) {
      var r := [b] + s;
      forall j | 1 < j < |r| ensures InOrder(key, desc, b, r[j]) {
        InOrderTransitive(key, desc, b, s[0], s[j - 1]);
      }
      assert Insert(key, desc, b, s) == r;
    } else {
      InOrderTotal(key, desc, b, s[0]);
      var tail := s[1..];
      InsertSorted(key, desc, b, tail);
      InsertKeepsLowerBound(key, desc, s[0], b, tail);
      assert Insert(key, desc, b, s) == [s[0]] + Insert(key, desc, b, tail);
    }
  }

  lemma {:induction false} SortBooksSorted(key: SortKey, desc: bool, s: seq<Book>)
    ensures Sorted(key, desc, SortBooks(key, desc, s))
    decreases |s|
  {
    if s != [] {
      SortBooksSorted(key, desc, s[1..]);
      InsertSorted(key, desc, s[0], SortBooks(key, desc, s[1..]));
    }
  }

  // ---------------------------------------------------------------------------
  // Paging

  /** request.PageNumber <= 0 ? 1 : request.PageNumber */
  function EffectivePageNumber(pageNumber: Int32): (p: Int32)
    ensures p >= 1
    ensures pageNumber > 0 ==> p == pageNumber
  {
    if pageNumber <= 0 then 1 else pageNumber
  }

  /** request.PageSize <= 0 ? 10 : request.PageSize */
  function EffectivePageSize(pageSize: Int32): (s: Int32)
    ensures s >= 1
    ensures pageSize > 0 ==> s == pageSize
  {
    if pageSize <= 0 then 10 else pageSize
  }

  /** Skip(skip).Take(take): a negative skip counts as zero. */
  function SkipTake(s: seq<Book>, skip: int, take: nat): (r: seq<Book>)
    ensures |r| <= take
    ensures var from := if skip < 0 then 0 else if skip > |s| then |s| else skip;
      |r| == (if from + take <= |s| then take else |s| - from)
      && forall i | 0 <= i < |r| :: r[i] == s[from + i]
  {
    var from := if skip < 0 then 0 else if skip > |s| then |s| else skip;
    var to := if from + take > |s| then |s| else from + take;
    s[from..to]
  }

  /** The filtered books in the requested order. */
  function Listing(request: GetAllBookRequest, books: seq<Book>): seq<Book> {
    SortBooks(SortKeyOf(request.sortBy), IsDescending(request.sortOrder), Filtered(request, books))
  }

  /** The number of books before the requested page, computed without overflow. */
  function Offset(request: GetAllBookRequest): (n: nat) {
    (EffectivePageNumber(request.pageNumber) - 1) * EffectivePageSize(request.pageSize)
  }

  /** GetAllBookHandler.Handle with the page offset as the exact product. */
  function Handle(request: GetAllBookRequest, books: seq<Book>): seq<Book> {
    SkipTake(Listing(request, books), Offset(request), EffectivePageSize(request.pageSize))
  }

  /** The offset as written: `(pageNumber - 1) * pageSize` in unchecked 32-bit arithmetic. */
  function OffsetAsWritten(request: GetAllBookRequest): (n: Int32)
    ensures Offset(request) <= Int32Max ==> n == Offset(request)
  {
    Wrap32((EffectivePageNumber(request.pageNumber) - 1) * EffectivePageSize(request.pageSize))
  }

  /** GetAllBookHandler.Handle as written. */
  function HandleAsWritten(request: GetAllBookRequest, books: seq<Book>): seq<Book> {
    SkipTake(Listing(request, books), OffsetAsWritten(request), EffectivePageSize(request.pageSize))
  }

  /** Whenever the exact offset fits in 32 bits, the handler as written returns the corrected handler's page. */
  lemma HandleAsWrittenAgrees(request: GetAllBookRequest, books: seq<Book>)
    requires Offset(request) <= Int32Max
    ensures HandleAsWritten(request, books) == Handle(request, books)
  {
  }

  /** Whatever the offset becomes, the page the handler as written returns is ordered by the chosen key and direction. */
  lemma HandleAsWrittenIsOrdered(request: GetAllBookRequest, books: seq<Book>)
    ensures Sorted(SortKeyOf(request.sortBy), IsDescending(request.sortOrder), HandleAsWritten(request, books))
  {
    var key := SortKeyOf(request.sortBy);
    var desc := IsDescending(request.sortOrder);
    SortBooksSorted(key, desc, Filtered(request, books));
    SkipTakeSorted(key, desc, Listing(request, books), OffsetAsWritten(request), EffectivePageSize(request.pageSize));
  }

  // ---------------------------------------------------------------------------
  // What the listing promises

  /** The page holds at most PageSize books (10 when not positive), taken in order from the listing at the offset. */
  lemma PageIsSliceOfListing(request: GetAllBookRequest, books: seq<Book>)
    ensures var page := Handle(request, books);
      var listing := Listing(request, books);
      var size := EffectivePageSize(request.pageSize);
      var offset := Offset(request);
      && |page| <= size
      && (request.pageSize > 0 ==> |page| <= request.pageSize)
      && (request.pageSize <= 0 ==> |page| <= 10)
      && (offset + size <= |listing| ==> |page| == size)
      && (offset >= |listing| ==> page == [])
      && forall i | 0 <= i < |page| :: offset + i < |listing| && page[i] == listing[offset + i]
  {
    SkipTakeWindow(Listing(request, books), Offset(request), EffectivePageSize(request.pageSize));
  }

  lemma SkipTakeWindow(s: seq<Book>, skip: nat, take: nat)
    ensures var r := SkipTake(s, skip, take);
      && (skip + take <= |s| ==> |r| == take)
      && (skip >= |s| ==> r == [])
      && forall i | 0 <= i < |r| :: skip + i < |s| && r[i] == s[skip + i]
  {
  }

  /** Every book on the page is a stored book that passes the author filter. */
  lemma PageBooksMatchFilter(request: GetAllBookRequest, books: seq<Book>)
    ensures forall b | b in Handle(request, books) ::
      b in books && (AuthorFilter(request.author).Some? ==> MatchesAuthor(b, AuthorFilter(request.author).value))
  {
    var listing := Listing(request, books);
    var page := Handle(request, books);
    var filtered := Filtered(request, books);
    forall b | b in page
      ensures b in books && (AuthorFilter(request.author).Some? ==> MatchesAuthor(b, AuthorFilter(request.author).value))
    {
      var i :| 0 <= i < |page| && page[i] == b;
      assert b in listing;
      assert b in multiset(listing);
      assert b in multiset(filtered);
      if AuthorFilter(request.author).Some? {
        var f := AuthorFilter(request.author).value;
        assert multiset(filtered)[b] > 0;
        assert MatchesAuthor(b, f) && multiset(books)[b] > 0;
      }
    }
  }

  /** The listing holds each stored book as often as it is stored when it passes the filter, and never otherwise. */
  lemma ListingIsFilteredPermutation(request: GetAllBookRequest, books: seq<Book>)
    ensures var f := AuthorFilter(request.author);
      forall b :: multiset(Listing(request, books))[b] ==
        if f.None? || MatchesAuthor(b, f.value) then multiset(books)[b] else 0
  {
  }

  /** Any window of a sorted listing is sorted. */
  lemma SkipTakeSorted(key: SortKey, desc: bool, s: seq<Book>, skip: int, take: nat)
    requires Sorted(key, desc, s)
    ensures Sorted(key, desc, SkipTake(s, skip, take))
  {
    var r := SkipTake(s, skip, take);
    var from := if skip < 0 then 0 else if skip > |s| then |s| else skip;
    forall i, j | 0 <= i < j < |r| ensures InOrder(key, desc, r[i], r[j]) {
      assert r[i] == s[from + i] && r[j] == s[from + j];
    }
  }

  /** The page is ordered by the chosen key in the chosen direction. */
  lemma PageIsOrdered(request: GetAllBookRequest, books: seq<Book>)
    ensures Sorted(SortKeyOf(request.sortBy), IsDescending(request.sortOrder), Handle(request, books))
  {
    var key := SortKeyOf(request.sortBy);
    var desc := IsDescending(request.sortOrder);
    SortBooksSorted(key, desc, Filtered(request, books));
    SkipTakeSorted(key, desc, Listing(request, books), Offset(request), EffectivePageSize(request.pageSize));
  }

  /** A lower-case word without white space is unchanged by Trim and ToLower. */
  lemma DefaultIsFixed(t: string)
    requires |t| > 0 && forall i | 0 <= i < |t| :: 'a' <= t[i] <= 'z'
    ensures ToLower(Trim(t)) == t
  {
    assert !IsWhiteSpace(t[0]) && !IsWhiteSpace(t[|t| - 1]);
    assert TrimStart(t) == t;
    assert TrimEnd(t) == t;
    ToLowerOfLowerCase(t);
  }

  /** The two fallbacks are already trimmed and lower-case, so `?? fallback` may come after the normalization. */
  lemma TitleIsNormal()
    ensures ToLower(Trim("title")) == "title"
  {
    DefaultIsFixed("title");
  }

  lemma AscIsNormal()
    ensures ToLower(Trim("asc")) == "asc"
  {
    DefaultIsFixed("asc");
  }

  /** The year is the key exactly for "year" and "yearpublished", after trimming and lowering; a null SortBy sorts by title. */
  lemma SortKeyChoice(sortBy: NullableString)
    ensures SortKeyOf(sortBy) == ByYear <==>
      sortBy.Some? && (ToLower(Trim(sortBy.value)) == "year" || ToLower(Trim(sortBy.value)) == "yearpublished")
    ensures sortBy.None? ==> SortKeyOf(sortBy) == ByTitle
  {
  }

  /** The order is descending exactly for "desc", after trimming and lowering; a null SortOrder is ascending. */
  lemma SortOrderChoice(sortOrder: NullableString)
    ensures IsDescending(sortOrder) <==> sortOrder.Some? && ToLower(Trim(sortOrder.value)) == "desc"
    ensures sortOrder.None? ==> !IsDescending(sortOrder)
  {
  }

  /** A null or blank author lists every stored book. */
  lemma NoFilterListsAll(request: GetAllBookRequest, books: seq<Book>)
    requires IsNullOrWhiteSpace(request.author)
    ensures multiset(Listing(request, books)) == multiset(books)
  {
  }

  /** A request with the record's defaults gets the first hundred books of the listing. */
  lemma DefaultRequestFirstPage(author: NullableString, books: seq<Book>)
    ensures var listing := Listing(DefaultRequest(author), books);
      Handle(DefaultRequest(author), books) == listing[..if |listing| < 100 then |listing| else 100]
  {
  }

  /** The book at position k of the listing is on page k / size + 1, at position k % size. */
  lemma BookOnItsPage(request: GetAllBookRequest, books: seq<Book>, k: nat)
    requires request.pageSize > 0 && k < |Listing(request, books)|
    requires k / request.pageSize + 1 <= Int32Max
    ensures var onPage := request.(pageNumber := k / request.pageSize + 1);
      k % request.pageSize < |Handle(onPage, books)|
      && Handle(onPage, books)[k % request.pageSize] == Listing(request, books)[k]
  {
    var s := request.pageSize;
    var q := k / s;
    var listing := Listing(request, books);
    DivModParts(k, s);
    HandleOnPage(request, books, q + 1);
    SkipTakeWindow(listing, q * s, s);
  }

  /** Page p (positive) of a positive page size is the window of the listing at (p - 1) * size. */
  lemma HandleOnPage(request: GetAllBookRequest, books: seq<Book>, p: Int32)
    requires request.pageSize > 0 && p > 0
    ensures Handle(request.(pageNumber := p), books) == SkipTake(Listing(request, books), (p - 1) * request.pageSize, request.pageSize)
  {
    var onPage := request.(pageNumber := p);
    assert Listing(onPage, books) == Listing(request, books);
    assert Offset(onPage) == (p - 1) * request.pageSize;
  }

  lemma DivModParts(k: nat, s: int)
    requires s > 0
    ensures (k / s) * s + k % s == k && 0 <= k % s < s && 0 <= (k / s) * s <= k
  {
  }

  /** Pages never overlap: two different positive page numbers hold disjoint ranges of the listing. */
  lemma PagesDisjoint(request: GetAllBookRequest, p: Int32, q: Int32)
    requires 0 < p < q
    ensures Offset(request.(pageNumber := p)) + EffectivePageSize(request.pageSize) <= Offset(request.(pageNumber := q))
  {
    var s := EffectivePageSize(request.pageSize);
    MultiplyAtLeast(q - p, s);
    assert (q - 1) * s == (p - 1) * s + (q - p) * s;
  }

  lemma MultiplyAtLeast(n: int, s: int)
    requires n >= 1 && s >= 1
    ensures n * s >= s
  {
    assert n * s == (n - 1) * s + s;
  }

  /**
   * Page 65537 of size 65536 starts at book 2^32; as written the offset wraps
   * to 0 and the first page is returned, where the exact offset gives none.
   */
  lemma OffsetWrapReturnsFirstPage(b: Book)
    ensures var request := GetAllBookRequest(None, None, None, 65537, 65536);
      && OffsetAsWritten(request) == 0
      && Offset(request) == 0x1_0000_0000
      && HandleAsWritten(request, [b]) == [b]
      && Handle(request, [b]) == []
  {
    var request := GetAllBookRequest(None, None, None, 65537, 65536);
    assert Offset(request) == 65536 * 65536;
    assert (65536 * 65536) % 0x1_0000_0000 == 0;
  }

  /** With the exact offset, a page number past the listing yields nothing. */
  lemma PastTheEndIsEmpty(request: GetAllBookRequest, books: seq<Book>)
    requires Offset(request) >= |Listing(request, books)|
    ensures Handle(request, books) == []
  {
  }
}
