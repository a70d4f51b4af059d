/**
 * `DateTime` as the workflow uses it: UTC instants with 100-nanosecond ticks,
 * compared chronologically (the listings sort on `CreateAt`) and printed with
 * the seconds-precision custom format `yyyyMMddHHmmss` (payment references).
 */
module Time {
  import opened Wrappers
  import opened Text

  datatype DateTime = DateTime(year: int, month: int, day: int,
                               hour: int, minute: int, second: int, tick: int)

  const TicksPerSecond: int := 10_000_000

  predicate IsLeapYear(y: int) {
    y % 4 == 0 && (y % 100 != 0 || y % 400 == 0)
  }

  function DaysInMonth(y: int, m: int): int {
    if m == 2 then (if IsLeapYear(y) then 29 else 28)
    else if m == 4 || m == 6 || m == 9 || m == 11 then 30
    else 31
  }

  /** The calendar range of .NET's `DateTime`: years 1 to 9999. */
  predicate Valid(t: DateTime) {
    && 1 <= t.year <= 9999
    && 1 <= t.month <= 12
    && 1 <= t.day <= DaysInMonth(t.year, t.month)
    && 0 <= t.hour < 24
    && 0 <= t.minute < 60
    && 0 <= t.second < 60
    && 0 <= t.tick < TicksPerSecond
  }

  type Instant = t: DateTime | Valid(t) witness DateTime(1, 1, 1, 0, 0, 0, 0)

  /** The instant with its sub-second part dropped. */
  function WholeSecond(t: Instant): Instant {
    t.(tick := 0)
  }

  /* ---------------- chronological order ---------------- */

  /** The fields of an instant, most significant first. */
  function Fields(t: DateTime): seq<int> {
    [t.year, t.month, t.day, t.hour, t.minute, t.second, t.tick]
  }

  /** An exclusive upper bound for each field of a valid instant. */
  const Radices: seq<int> := [10000, 13, 32, 24, 60, 60, TicksPerSecond]

  /** Strict lexicographic order on equally long sequences of fields. */
  predicate LexLess(xs: seq<int>, ys: seq<int>)
    requires |xs| == |ys|
  {
    |xs| > 0 && (xs[0] < ys[0] || (xs[0] == ys[0] && LexLess(xs[1..], ys[1..])))
  }

  /** Chronological order: `a` lies strictly before `b` on the calendar. */
  predicate Earlier(a: DateTime, b: DateTime) {
    LexLess(Fields(a), Fields(b))
  }

  predicate WithinRadices(xs: seq<int>, rs: seq<int>) {
    |xs| == |rs| && forall i :: 0 <= i < |xs| ==> 0 <= xs[i] < rs[i]
  }

  function Weight(rs: seq<int>): int {
    if |rs| == 0 then 1 else rs[0] * Weight(rs[1..])
  }

  /** The mixed-radix number the fields spell. */
  function Mixed(xs: seq<int>, rs: seq<int>): int
    requires |xs| == |rs|
  {
    if |xs| == 0 then 0 else xs[0] * Weight(rs[1..]) + Mixed(xs[1..], rs[1..])
  }

  /** A single integer that orders instants the way the database orders `CreateAt`. */
  function OrderKey(t: DateTime): int {
    Mixed(Fields(t), Radices)
  }

  lemma {:induction false} MixedBounds(xs: seq<int>, rs: seq<int>)
    requires WithinRadices(xs, rs)
    ensures 0 <= Mixed(xs, rs) < Weight(rs)
    decreases |xs|
  {
    if |xs| > 0 {
      MixedBounds(xs[1..], rs[1..]);
      var w := Weight(rs[1..]);
      var m := Mixed(xs[1..], rs[1..]);
      assert Mixed(xs, rs) == xs[0] * w + m;
      assert Weight(rs) == rs[0] * w;
      MultiplyMonotone(0, xs[0], w);
      MultiplyMonotone(xs[0] + 1, rs[0], w);
    }
  }

  lemma MultiplyMonotone(a: int, b: int, w: int)
    requires a <= b && 0 <= w
    ensures a * w <= b * w
  {
  }

  /** Comparing `x * w + d` with `y * w + e` when the low parts stay below `w`. */
  lemma CompareDigit(x: int, d: int, y: int, e: int, w: int)
    requires 0 <= d < w && 0 <= e < w
    ensures x * w + d < y * w + e <==> x < y || (x == y && d < e)
    ensures x * w + d == y * w + e <==> x == y && d == e
  {
    if x < y {
      assert (x + 1) * w <= y * w;
    } else if y < x {
      assert (y + 1) * w <= x * w;
    }
  }

  /** Mixed-radix numbers compare the way their digit sequences compare lexicographically. */
  lemma {:induction false} MixedIsLexicographic(xs: seq<int>, ys: seq<int>, rs: seq<int>)
    requires WithinRadices(xs, rs) && WithinRadices(ys, rs)
    ensures Mixed(xs, rs) < Mixed(ys, rs) <==> LexLess(xs, ys)
    ensures Mixed(xs, rs) == Mixed(ys, rs) <==> xs == ys
    decreases |xs|
  {
    if |xs| > 0 {
      MixedIsLexicographic(xs[1..], ys[1..], rs[1..]);
      MixedBounds(xs[1..], rs[1..]);
      MixedBounds(ys[1..], rs[1..]);
      CompareDigit(xs[0], Mixed(xs[1..], rs[1..]), ys[0], Mixed(ys[1..], rs[1..]), Weight(rs[1..]));
      assert xs == [xs[0]] + xs[1..];
      assert ys == [ys[0]] + ys[1..];
    }
  }

  /** The sort key is faithful to the calendar: smaller key means earlier, and
      equal keys mean the same instant. */
  lemma OrderKeyIsChronological(a: Instant, b: Instant)
    ensures OrderKey(a) < OrderKey(b) <==> Earlier(a, b)
    ensures OrderKey(a) == OrderKey(b) <==> a == b
  {
    assert WithinRadices(Fields(a), Radices);
    assert WithinRadices(Fields(b), Radices);
    MixedIsLexicographic(Fields(a), Fields(b), Radices);
  }

  /* ---------------- the yyyyMMddHHmmss format ---------------- */

  /** `t.ToString("yyyyMMddHHmmss")`. */
  function Stamp(t: Instant): (s: string)
    ensures |s| == 14 && AllDigits(s)
  {
    Digits(t.year, 4) + Digits(t.month, 2) + Digits(t.day, 2)
      + Digits(t.hour, 2) + Digits(t.minute, 2) + Digits(t.second, 2)
  }

  /** Reads a `yyyyMMddHHmmss` stamp back into calendar fields (sub-second part zero). */
  function ParseStamp(s: string): Option<DateTime> {
    if |s| == 14 && AllDigits(s) then
      Some(DateTime(NumberValue(s[0..4]), NumberValue(s[4..6]), NumberValue(s[6..8]),
                    NumberValue(s[8..10]), NumberValue(s[10..12]), NumberValue(s[12..14]), 0))
    else None
  }

  /** Where the six fields sit in a stamp. */
  lemma StampLayout(y: string, mo: string, d: string, h: string, mi: string, se: string)
    requires |y| == 4 && |mo| == 2 && |d| == 2 && |h| == 2 && |mi| == 2 && |se| == 2
    ensures var s := y + mo + d + h + mi + se;
            && s[0..4] == y && s[4..6] == mo && s[6..8] == d
            && s[8..10] == h && s[10..12] == mi && s[12..14] == se
  {
    var p4 := y + mo + d + h;
    var s := p4 + mi + se;
    assert s[8..10] == p4[8..10] && p4[8..10] == h;
    assert s[6..8] == p4[6..8] && p4[6..8] == d;
    assert s[4..6] == p4[4..6] && p4[4..6] == mo;
    assert s[0..4] == p4[0..4] && p4[0..4] == y;
  }

  /** A stamp records the instant to the second: parsing it gives back the instant
      with its ticks dropped. */
  lemma StampRoundTrip(t: Instant)
    ensures ParseStamp(Stamp(t)) == Some(WholeSecond(t))
  {
    var y, mo, d := Digits(t.year, 4), Digits(t.month, 2), Digits(t.day, 2);
    var h, mi, se := Digits(t.hour, 2), Digits(t.minute, 2), Digits(t.second, 2);
    var s := y + mo + d + h + mi + se;
    assert s == Stamp(t);
    StampLayout(y, mo, d, h, mi, se);
    DigitsRoundTrip(t.year, 4);
    DigitsRoundTrip(t.month, 2);
    DigitsRoundTrip(t.day, 2);
    DigitsRoundTrip(t.hour, 2);
    DigitsRoundTrip(t.minute, 2);
    DigitsRoundTrip(t.second, 2);
    assert ParseStamp(s) == Some(DateTime(t.year, t.month, t.day, t.hour, t.minute, t.second, 0));
  }

  /** Two instants print the same stamp exactly when they fall in the same second. */
  lemma StampIdentifiesSecond(a: Instant, b: Instant)
    ensures Stamp(a) == Stamp(b) <==> WholeSecond(a) == WholeSecond(b)
  {
    StampRoundTrip(a);
    StampRoundTrip(b);
  }
}
