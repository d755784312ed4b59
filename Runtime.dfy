/**
 * Value types of the .NET runtime that the services use: 32-bit integers with
 * unchecked wrap-around, DateTime as a tick count, Guid, and the clock readings
 * that the code takes from DateTime.UtcNow.
 */
module Runtime {
  import opened Text

  const Int32Min: int := -0x8000_0000
  const Int32Max: int := 0x7FFF_FFFF

  /** System.Int32 */
  type Int32 = x: int | -0x8000_0000 <= x <= 0x7FFF_FFFF

  /** The result of an unchecked 32-bit operation whose exact value is `x`. */
  function Wrap32(x: int): (r: Int32)
    ensures (r - x) % 0x1_0000_0000 == 0
    ensures Int32Min <= x <= Int32Max ==> r == x
  {
    var m := x % 0x1_0000_0000;
    if m <= Int32Max then m else m - 0x1_0000_0000
  }

  /** A DateTime, as its Ticks: 100-nanosecond intervals since 0001-01-01T00:00:00. */
  type Ticks = t: int | 0 <= t <= 3_155_378_975_999_999_999

  const TicksPerDay: int := 864_000_000_000

  /** 1900-01-01T00:00:00, so that `d.Year >= 1900` is `d >= Year1900Start`. */
  const Year1900Start: Ticks := 599_266_080_000_000_000

  /** DateTime.Date: midnight at the start of the day of `t`. */
  function StartOfDay(t: Ticks): (d: Ticks)
    ensures d <= t < d + TicksPerDay
    ensures d % TicksPerDay == 0
  {
    t - t % TicksPerDay
  }

  /**
   * The clock readings the code takes: DateTime.UtcNow, and
   * DateTime.UtcNow.AddYears(-5), whose calendar arithmetic is not modelled.
   */
  datatype Clock = Clock(now: Ticks, fiveYearsAgo: Ticks)

  predicate IsLowerHexDigit(c: char) {
    ('0' <= c <= '9') || ('a' <= c <= 'f')
  }

  /** A Guid, as the 32 hexadecimal digits of its "N" format. */
  type Guid = s: string | |s| == 32 && forall i | 0 <= i < |s| :: IsLowerHexDigit(s[i])
    witness "00000000000000000000000000000000"

  /** Guid.ToString(): the "D" format, 8-4-4-4-12 digits separated by hyphens. */
  function GuidToString(g: Guid): (r: string)
    ensures |r| == 36
    ensures r[8] == '-' && r[13] == '-' && r[18] == '-' && r[23] == '-'
  {
    g[..8] + "-" + g[8..12] + "-" + g[12..16] + "-" + g[16..20] + "-" + g[20..]
  }

  /** The "D" format loses nothing: dropping its hyphens gives the digits back. */
  lemma GuidToStringRoundTrip(g: Guid)
    ensures RemoveChars(GuidToString(g), {'-'}) == g
  {
    var a, b, c, e, f := g[..8], g[8..12], g[12..16], g[16..20], g[20..];
    HexDigitsKept(g, 0, 8);
    HexDigitsKept(g, 8, 12);
    HexDigitsKept(g, 12, 16);
    HexDigitsKept(g, 16, 20);
    HexDigitsKept(g, 20, 32);
    assert f == g[20..32];
    var s1 := a + "-" + b;
    HyphenDropped(a, b);
    var s2 := s1 + "-" + c;
    HyphenDropped(s1, c);
    var s3 := s2 + "-" + e;
    HyphenDropped(s2, e);
    var s4 := s3 + "-" + f;
    HyphenDropped(s3, f);
    assert s4 == GuidToString(g);
    assert RemoveChars(s1, {'-'}) == a + b;
    assert RemoveChars(s2, {'-'}) == a + b + c;
    assert RemoveChars(s3, {'-'}) == a + b + c + e;
    assert RemoveChars(s4, {'-'}) == a + b + c + e + f;
    assert a + b + c + e + f == g;
  }

  lemma HexDigitsKept(g: Guid, lo: nat, hi: nat)
    requires lo <= hi <= 32
    ensures RemoveChars(g[lo..hi], {'-'}) == g[lo..hi]
  {
    assert forall i | 0 <= i < hi - lo :: g[lo..hi][i] == g[lo + i];
    RemoveCharsNoop(g[lo..hi], {'-'});
  }

  lemma HyphenDropped(x: string, y: string)
    ensures RemoveChars(x + "-" + y, {'-'}) == RemoveChars(x, {'-'}) + RemoveChars(y, {'-'})
  {
    var h := ['-'];
    assert x + "-" + y == (x + h) + y;
    RemoveCharsAppend(x + h, y, {'-'});
    RemoveCharsAppend(x, h, {'-'});
    assert RemoveChars(h, {'-'}) == [] by {
      assert h[1..] == [];
    }
  }
}
