/**
 * The string operations of the .NET base library that the services rely on:
 * whitespace tests, ASCII case folding, ordinal substring search, trimming,
 * character removal, splitting, joining, decimal formatting and ordinal
 * comparison. Each one is a function with the property that callers use.
 */
module Text {
  import opened Wrappers

  /** A C# `string` that may be `null`. */
  type NullableString = Option<string>

  /** char.IsWhiteSpace: U+0009..U+000D, U+0020, U+0085, U+00A0 and the Unicode space, line and paragraph separators. */
  predicate IsWhiteSpace(c: char) {
    || c == ' ' || ('\t' <= c <= '\r') || c == '\U{0085}' || c == '\U{00A0}' || c == '\U{1680}'
    || ('\U{2000}' <= c <= '\U{200A}') || c == '\U{2028}' || c == '\U{2029}' || c == '\U{202F}'
    || c == '\U{205F}' || c == '\U{3000}'
  }

  /** Every character is whitespace (the empty string included). */
  predicate IsBlank(s: string) {
    forall i | 0 <= i < |s| :: IsWhiteSpace(s[i])
  }

  /** string.IsNullOrWhiteSpace */
  predicate IsNullOrWhiteSpace(s: NullableString) {
    s.None? || IsBlank(s.value)
  }

  /** string.IsNullOrEmpty */
  predicate IsNullOrEmpty(s: NullableString) {
    s.None? || |s.value| == 0
  }

  predicate IsAsciiLetter(c: char) {
    ('A' <= c <= 'Z') || ('a' <= c <= 'z')
  }

  predicate IsAsciiDigit(c: char) {
    '0' <= c <= '9'
  }

  function ToLowerChar(c: char): char {
    if 'A' <= c <= 'Z' then (c as int + 32) as char else c
  }

  function ToUpperChar(c: char): char {
    if 'a' <= c <= 'z' then (c as int - 32) as char else c
  }

  /** ToLowerInvariant restricted to ASCII case folding. */
  function ToLower(s: string): (r: string)
    ensures |r| == |s|
    ensures forall i | 0 <= i < |s| :: r[i] == ToLowerChar(s[i])
  {
    if s == [] then [] else [ToLowerChar(s[0])] + ToLower(s[1..])
  }

  /** Lowering twice is lowering once. */
  lemma ToLowerIdempotent(s: string)
    ensures ToLower(ToLower(s)) == ToLower(s)
  {
    assert forall i | 0 <= i < |s| :: ToLowerChar(ToLowerChar(s[i])) == ToLowerChar(s[i]);
  }

  /** A string without upper-case ASCII letters is its own lower-case form. */
  lemma ToLowerOfLowerCase(s: string)
    requires forall i | 0 <= i < |s| :: !('A' <= s[i] <= 'Z')
    ensures ToLower(s) == s
  {
  }

  // ---------------------------------------------------------------------------
  // Ordinal substring search

  /** `w` occurs in `s` starting at index `i`. */
  predicate OccursAt(s: string, w: string, i: int) {
    0 <= i && i + |w| <= |s| && s[i..i + |w|] == w
  }

  /** string.Contains(string) with ordinal comparison, scanning from the left. */
  predicate Contains(s: string, w: string)
    decreases |s|
  {
    if |w| > |s| then false
    else if s[..|w|] == w then true
    else Contains(s[1..], w)
  }

  /** The scan finds `w` exactly when `w` occurs somewhere in `s`. */
  lemma {:induction false} ContainsIff(s: string, w: string)
    ensures Contains(s, w) <==> exists i :: OccursAt(s, w, i)
  {
    if |w| > |s| {
    } else if s[..|w|] == w {
      assert OccursAt(s, w, 0);
    } else {
      ContainsIff(s[1..], w);
      if Contains(s[1..], w) {
        var i :| OccursAt(s[1..], w, i);
        assert s[1..][i..i + |w|] == s[i + 1..i + 1 + |w|];
        assert OccursAt(s, w, i + 1);
      } else {
        forall i | OccursAt(s, w, i) ensures false {
          if i > 0 {
            assert s[1..][i - 1..i - 1 + |w|] == s[i..i + |w|];
            assert OccursAt(s[1..], w, i - 1);
          }
        }
      }
    }
  }

  /** An occurrence is found by the scan. */
  lemma OccursAtContains(s: string, w: string, i: int)
    requires OccursAt(s, w, i)
    ensures Contains(s, w)
  {
    ContainsIff(s, w);
  }

  /** The scan finds nothing when `s` is shorter than `w`, and always finds the empty string. */
  lemma ContainsBounds(s: string, w: string)
    ensures Contains(s, w) ==> |w| <= |s|
    ensures w == [] ==> Contains(s, w)
  {
    ContainsIff(s, w);
    if w == [] {
      assert OccursAt(s, w, 0);
    }
  }

  /** Some word of the list, lowered, occurs in `lower`. */
  predicate ContainsAnyLowered(lower: string, words: seq<string>) {
    exists k | 0 <= k < |words| :: Contains(lower, ToLower(words[k]))
  }

  // ---------------------------------------------------------------------------
  // Trimming

  /** TrimStart(): drops the leading whitespace, and only that. */
  function TrimStart(s: string): (r: string)
    ensures |r| <= |s| && r == s[|s| - |r|..]
    ensures IsBlank(s[..|s| - |r|])
    ensures r == [] || !IsWhiteSpace(r[0])
    decreases |s|
  {
    if s != [] && IsWhiteSpace(s[0]) then TrimStart(s[1..]) else s
  }

  /** TrimEnd(): drops the trailing whitespace, and only that. */
  function TrimEnd(s: string): (r: string)
    ensures |r| <= |s| && r == s[..|r|]
    ensures IsBlank(s[|r|..])
    ensures r == [] || !IsWhiteSpace(r[|r| - 1])
    decreases |s|
  {
    if s != [] && IsWhiteSpace(s[|s| - 1]) then
      assert s[|TrimEnd(s[..|s| - 1])|..] == s[..|s| - 1][|TrimEnd(s[..|s| - 1])|..] + [s[|s| - 1]];
      TrimEnd(s[..|s| - 1])
    else s
  }

  /** string.Trim() */
  function Trim(s: string): string {
    TrimEnd(TrimStart(s))
  }

  /** Trimming leaves a substring that neither starts nor ends with whitespace, and it is empty exactly for blank strings. */
  lemma TrimProperties(s: string)
    ensures exists i :: OccursAt(s, Trim(s), i)
    ensures Trim(s) == [] || (!IsWhiteSpace(Trim(s)[0]) && !IsWhiteSpace(Trim(s)[|Trim(s)| - 1]))
    ensures Trim(s) == [] <==> IsBlank(s)
  {
    var t := TrimStart(s);
    var i := |s| - |t|;
    assert Trim(s) == TrimEnd(t);
    TrimOccursAt(s, t, i);
    if Trim(s) != [] {
      TrimStartsWithNonBlank(s, t);
      assert !IsWhiteSpace(s[i]);
    } else {
      TrimmedAwayIsBlank(s, t, i);
    }
  }

  /** The end-trimmed rest of `s` from `i` occurs in `s` at `i`. */
  lemma TrimOccursAt(s: string, t: string, i: nat)
    requires i <= |s| && t == s[i..]
    ensures OccursAt(s, TrimEnd(t), i)
  {
    var r := TrimEnd(t);
    assert s[i..i + |r|] == t[..|r|];
  }

  /** Trimming the end of a string that starts with non-whitespace keeps that first character. */
  lemma TrimStartsWithNonBlank(s: string, t: string)
    requires t == TrimStart(s) && Trim(s) != []
    ensures !IsWhiteSpace(Trim(s)[0]) && Trim(s)[0] == t[0]
  {
    var r := TrimEnd(t);
    assert r[0] == t[0];
  }

  /** A string whose leading part is blank and whose rest trims to nothing at the end is blank. */
  lemma TrimmedAwayIsBlank(s: string, t: string, i: nat)
    requires t == TrimStart(s) && i == |s| - |t| && TrimEnd(t) == []
    ensures IsBlank(s)
  {
    assert t[0..] == t;
    assert t == [];
    assert s[..i] == s;
  }

  // ---------------------------------------------------------------------------
  // Removing characters

  /** The string with every character of `drop` removed; string.Replace(" ", "") is RemoveChars(s, {' '}). */
  function RemoveChars(s: string, drop: set<char>): (r: string)
    ensures forall i | 0 <= i < |r| :: r[i] !in drop
    ensures |r| <= |s|
    decreases |s|
  {
    if s == [] then []
    else (if s[0] in drop then [] else [s[0]]) + RemoveChars(s[1..], drop)
  }

  /** Every character not in `drop` is kept, as often as it occurs. */
  lemma {:induction false} RemoveCharsKeepsOthers(s: string, drop: set<char>)
    ensures forall x | x !in drop :: multiset(RemoveChars(s, drop))[x] == multiset(s)[x]
    decreases |s|
  {
    if s != [] {
      RemoveCharsKeepsOthers(s[1..], drop);
      assert s == [s[0]] + s[1..];
    }
  }

  /** Nothing to remove leaves the string as it is. */
  lemma {:induction false} RemoveCharsNoop(s: string, drop: set<char>)
    requires forall i | 0 <= i < |s| :: s[i] !in drop
    ensures RemoveChars(s, drop) == s
    decreases |s|
  {
    if s != [] {
      RemoveCharsNoop(s[1..], drop);
    }
  }

  /** Removal is idempotent. */
  lemma RemoveCharsIdempotent(s: string, drop: set<char>)
    ensures RemoveChars(RemoveChars(s, drop), drop) == RemoveChars(s, drop)
  {
    RemoveCharsNoop(RemoveChars(s, drop), drop);
  }

  /** Removal distributes over concatenation. */
  lemma {:induction false} RemoveCharsAppend(a: string, b: string, drop: set<char>)
    ensures RemoveChars(a + b, drop) == RemoveChars(a, drop) + RemoveChars(b, drop)
    decreases |a|
  {
    if a != [] {
      var head := if a[0] in drop then [] else [a[0]];
      assert (a + b)[0] == a[0];
      assert (a + b)[1..] == a[1..] + b;
      assert RemoveChars(a + b, drop) == head + RemoveChars(a[1..] + b, drop);
      RemoveCharsAppend(a[1..], b, drop);
      assert RemoveChars(a, drop) == head + RemoveChars(a[1..], drop);
    } else {
      assert a + b == b;
    }
  }

  // ---------------------------------------------------------------------------
  // Splitting

  /** Length of the run of non-separators that starts `s`. */
  function WordLength(s: string, seps: set<char>): (n: nat)
    ensures n <= |s|
    ensures forall i | 0 <= i < n :: s[i] !in seps
    ensures n == |s| || s[n] in seps
    decreases |s|
  {
    if s == [] || s[0] in seps then 0 else 1 + WordLength(s[1..], seps)
  }

  /** string.Split(seps, StringSplitOptions.RemoveEmptyEntries): the maximal runs of non-separators, in order. */
  function SplitRemoveEmpty(s: string, seps: set<char>): (parts: seq<string>)
    ensures forall k | 0 <= k < |parts| :: |parts[k]| > 0
    ensures forall k, i | 0 <= k < |parts| && 0 <= i < |parts[k]| :: parts[k][i] !in seps
    ensures parts == [] <==> forall i | 0 <= i < |s| :: s[i] in seps
    decreases |s|
  {
    if s == [] then []
    else if s[0] in seps then
      var rest := SplitRemoveEmpty(s[1..], seps);
      assert rest == [] <==> forall i | 0 <= i < |s| :: s[i] in seps by {
        if rest == [] {
          forall i | 0 <= i < |s| ensures s[i] in seps {
            if i > 0 { assert s[1..][i - 1] == s[i]; }
          }
        } else {
          var j :| 0 <= j < |s[1..]| && s[1..][j] !in seps;
          assert s[j + 1] !in seps;
        }
      }
      rest
    else
      var n := WordLength(s, seps);
      [s[..n]] + SplitRemoveEmpty(s[n..], seps)
  }

  /** Concatenation of a sequence of strings. */
  function Concat(parts: seq<string>): string {
    if parts == [] then "" else parts[0] + Concat(parts[1..])
  }

  /** The parts, put back together, are the input with its separators removed. */
  lemma {:induction false} SplitConcat(s: string, seps: set<char>)
    ensures Concat(SplitRemoveEmpty(s, seps)) == RemoveChars(s, seps)
    decreases |s|
  {
    if s == [] {
    } else if s[0] in seps {
      SplitConcat(s[1..], seps);
    } else {
      var n := WordLength(s, seps);
      SplitConcat(s[n..], seps);
      assert s == s[..n] + s[n..];
      RemoveCharsAppend(s[..n], s[n..], seps);
      RemoveCharsNoop(s[..n], seps);
      assert SplitRemoveEmpty(s, seps)[1..] == SplitRemoveEmpty(s[n..], seps);
    }
  }

  /** The first part begins with the first character of `s` that is not a separator. */
  lemma {:induction false} SplitFirstPart(s: string, seps: set<char>)
    requires SplitRemoveEmpty(s, seps) != []
    ensures exists k :: 0 <= k < |s| && s[k] !in seps && (forall j | 0 <= j < k :: s[j] in seps)
                        && SplitRemoveEmpty(s, seps)[0][0] == s[k]
    decreases |s|
  {
    if s[0] in seps {
      SplitFirstPart(s[1..], seps);
      var k :| 0 <= k < |s[1..]| && s[1..][k] !in seps && (forall j | 0 <= j < k :: s[1..][j] in seps)
                && SplitRemoveEmpty(s[1..], seps)[0][0] == s[1..][k];
      forall j | 0 <= j < k + 1 ensures s[j] in seps {
        if j > 0 { assert s[1..][j - 1] == s[j]; }
      }
      assert s[k + 1] !in seps;
    } else {
      assert SplitRemoveEmpty(s, seps)[0][0] == s[0];
    }
  }

  // ---------------------------------------------------------------------------
  // Joining

  /** string.Join(sep, items) */
  function Join(sep: string, items: seq<string>): string {
    if items == [] then ""
    else if |items| == 1 then items[0]
    else items[0] + sep + Join(sep, items[1..])
  }

  /** Every item appears in the joined string. */
  lemma {:induction false} JoinContainsItems(sep: string, items: seq<string>, k: nat)
    requires k < |items|
    ensures exists i :: OccursAt(Join(sep, items), items[k], i)
    decreases |items|
  {
    if |items| == 1 {
      assert OccursAt(Join(sep, items), items[0], 0);
    } else if k == 0 {
      var j := Join(sep, items);
      assert j == items[0] + (sep + Join(sep, items[1..]));
      assert j[0..|items[0]|] == items[0];
      assert OccursAt(j, items[0], 0);
    } else {
      JoinContainsItems(sep, items[1..], k - 1);
      var rest := Join(sep, items[1..]);
      var i :| OccursAt(rest, items[1..][k - 1], i);
      var off := |items[0]| + |sep|;
      var j := Join(sep, items);
      assert j == (items[0] + sep) + rest;
      assert j[off + i..off + i + |items[k]|] == rest[i..i + |items[k]|];
      assert OccursAt(j, items[k], off + i);
    }
  }

  // ---------------------------------------------------------------------------
  // Decimal formatting of integers

  function DigitChar(d: nat): (c: char)
    requires d < 10
    ensures IsAsciiDigit(c) && c as int - '0' as int == d
  {
    ('0' as int + d) as char
  }

  /** The decimal digits of `n`, no leading zero (int.ToString() for a non-negative value). */
  function NatToString(n: nat): (s: string)
    ensures |s| >= 1 && forall i | 0 <= i < |s| :: IsAsciiDigit(s[i])
    ensures |s| > 1 ==> s[0] != '0'
    decreases n
  {
    if n < 10 then [DigitChar(n)] else NatToString(n / 10) + [DigitChar(n % 10)]
  }

  /** The number a string of decimal digits denotes. */
  function DecimalValue(s: string): nat
    requires forall i | 0 <= i < |s| :: IsAsciiDigit(s[i])
    decreases |s|
  {
    if s == [] then 0
    else
      assert IsAsciiDigit(s[|s| - 1]);
      DecimalValue(s[..|s| - 1]) * 10 + (s[|s| - 1] as int - '0' as int)
  }

  /** Reading the formatted digits back gives the number. */
  lemma {:induction false} NatToStringRoundTrip(n: nat)
    ensures DecimalValue(NatToString(n)) == n
    decreases n
  {
    if n >= 10 {
      NatToStringRoundTrip(n / 10);
      var s := NatToString(n);
      assert s[..|s| - 1] == NatToString(n / 10);
    }
  }

  /** int.ToString() with the invariant culture. */
  function IntToString(x: int): string {
    if x < 0 then "-" + NatToString(-x) else NatToString(x)
  }

  // ---------------------------------------------------------------------------
  // Ordinal comparison

  /** Ordinal (code-point) lexicographic order: `a` sorts before or equal to `b`. */
  predicate OrdinalLe(a: string, b: string)
    decreases |a|
  {
    if a == [] then true
    else if b == [] then false
    else if a[0] < b[0] then true
    else if a[0] > b[0] then false
    else OrdinalLe(a[1..], b[1..])
  }

  lemma {:induction false} OrdinalLeTotal(a: string, b: string)
    ensures OrdinalLe(a, b) || OrdinalLe(b, a)
    decreases |a|
  {
    if a != [] && b != [] && a[0] == b[0] {
      OrdinalLeTotal(a[1..], b[1..]);
    }
  }

  lemma {:induction false} OrdinalLeTransitive(a: string, b: string, c: string)
    requires OrdinalLe(a, b) && OrdinalLe(b, c)
    ensures OrdinalLe(a, c)
    decreases |a|
  {
    if a != [] && b != [] && c != [] && a[0] == b[0] && b[0] == c[0] {
      OrdinalLeTransitive(a[1..], b[1..], c[1..]);
    }
  }

  lemma {:induction false} OrdinalLeAntisymmetric(a: string, b: string)
    requires OrdinalLe(a, b) && OrdinalLe(b, a)
    ensures a == b
    decreases |a|
  {
    if a != [] && b != [] {
      OrdinalLeAntisymmetric(a[1..], b[1..]);
      assert a == [a[0]] + a[1..];
      assert b == [b[0]] + b[1..];
    }
  }
}
