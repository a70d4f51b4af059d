/**
 * The handful of string facilities the controllers lean on: .NET's notion of
 * white space (`char.IsWhiteSpace`, `string.Trim`, `string.IsNullOrWhiteSpace`),
 * substring search for the reviewers' name filter, invariant lower-casing of a
 * file extension, and fixed-width decimal digits for payment references.
 */
module Text {
  import opened Wrappers

  /** The characters `char.IsWhiteSpace` accepts: the Unicode space, line and
      paragraph separators plus the control characters U+0009..U+000D and U+0085. */
  predicate IsWhiteSpace(c: char) {
    || ('\U{9}' <= c <= '\U{D}')
    || c == ' '
    || c == '\U{85}'
    || c == '\U{A0}'
    || c == '\U{1680}'
    || ('\U{2000}' <= c <= '\U{200A}')
    || c == '\U{2028}'
    || c == '\U{2029}'
    || c == '\U{202F}'
    || c == '\U{205F}'
    || c == '\U{3000}'
  }

  predicate AllWhiteSpace(s: string) {
    forall i :: 0 <= i < |s| ==> IsWhiteSpace(s[i])
  }

  /** `string.IsNullOrWhiteSpace`: absent, empty, or white space throughout. */
  predicate IsNullOrWhiteSpace(s: Option<string>) {
    s.None? || AllWhiteSpace(s.value)
  }

  /** `string.TrimStart()`: the longest suffix that does not start with white space. */
  function TrimStart(s: string): (r: string)
    ensures |r| <= |s| && r == s[|s| - |r|..]
    ensures AllWhiteSpace(s[..|s| - |r|])
    ensures r == [] || !IsWhiteSpace(r[0])
  {
    if |s| > 0 && IsWhiteSpace(s[0]) then
      var r := TrimStart(s[1..]);
      assert s[..|s| - |r|] == [s[0]] + s[1..][..|s| - 1 - |r|];
      WhiteSpaceJoin([s[0]], s[1..][..|s| - 1 - |r|]);
      r
    else s
  }

  /** `string.TrimEnd()`: the longest prefix that does not end with white space. */
  function TrimEnd(s: string): (r: string)
    ensures |r| <= |s| && r == s[..|r|]
    ensures AllWhiteSpace(s[|r|..])
    ensures r == [] || !IsWhiteSpace(r[|r| - 1])
  {
    if |s| > 0 && IsWhiteSpace(s[|s| - 1]) then
      var r := TrimEnd(s[..|s| - 1]);
      assert s[|r|..] == s[..|s| - 1][|r|..] + [s[|s| - 1]];
      WhiteSpaceJoin(s[..|s| - 1][|r|..], [s[|s| - 1]]);
      r
    else s
  }

  /** Two runs of white space make one. */
  lemma WhiteSpaceJoin(a: string, b: string)
    requires AllWhiteSpace(a) && AllWhiteSpace(b)
    ensures AllWhiteSpace(a + b)
  {
    forall i | 0 <= i < |a + b| ensures IsWhiteSpace((a + b)[i]) {
      if i < |a| {
        assert (a + b)[i] == a[i];
      } else {
        assert (a + b)[i] == b[i - |a|];
      }
    }
  }

  /** `r` is what is left of `s` once the first `k` characters and everything
      after `k + |r|` are cut off, and all that is cut off is white space. */
  predicate StripsTo(s: string, r: string, k: int) {
    && 0 <= k && k + |r| <= |s| && r == s[k..k + |r|]
    && AllWhiteSpace(s[..k]) && AllWhiteSpace(s[k + |r|..])
  }

  /** `string.Trim()`: the infix of `s` left once white space is stripped from
      both ends; everything stripped is white space. */
  function Trim(s: string): (r: string)
    ensures r == [] || (!IsWhiteSpace(r[0]) && !IsWhiteSpace(r[|r| - 1]))
    ensures exists k :: StripsTo(s, r, k)
  {
    var front := TrimStart(s);
    TrimLayout(s, front, TrimEnd(front));
    TrimEnd(front)
  }

  /** A white-space-free start cut from the front of `s`, then a white-space
      tail cut from its end, leave an infix of `s` stripped at both ends. */
  lemma TrimLayout(s: string, front: string, r: string)
    requires |front| <= |s| && front == s[|s| - |front|..] && AllWhiteSpace(s[..|s| - |front|])
    requires front == [] || !IsWhiteSpace(front[0])
    requires |r| <= |front| && r == front[..|r|] && AllWhiteSpace(front[|r|..])
    ensures StripsTo(s, r, |s| - |front|)
    ensures r == [] || !IsWhiteSpace(r[0])
  {
    var k := |s| - |front|;
    assert r == s[k..k + |r|];
    assert s[k + |r|..] == front[|r|..];
  }

  /** A string is white space throughout exactly when trimming empties it, so
      `IsNullOrWhiteSpace(reason)` and "the trimmed reason is empty" agree. */
  lemma BlankIffTrimmedEmpty(s: string)
    ensures AllWhiteSpace(s) <==> Trim(s) == []
  {
    var r := Trim(s);
    var k :| StripsTo(s, r, k);
    if r == [] {
      assert s[k + |r|..] == s[k..];
      forall i | 0 <= i < |s| ensures IsWhiteSpace(s[i]) {
        if i < k {
          assert s[..k][i] == s[i];
        } else {
          assert s[k..][i - k] == s[i];
        }
      }
    } else {
      assert s[k] == r[0];
      assert !IsWhiteSpace(s[k]);
    }
  }

  /** A string with no white space at either end trims to itself. */
  lemma TrimKeepsTrimmed(s: string)
    requires s == [] || (!IsWhiteSpace(s[0]) && !IsWhiteSpace(s[|s| - 1]))
    ensures Trim(s) == s
  {
  }

  /** `t` occurs in `s` starting at position `i`. */
  predicate OccursAt(s: string, t: string, i: int) {
    0 <= i <= |s| - |t| && s[i..i + |t|] == t
  }

  /** `t` occurs in `s` as a contiguous run of characters. */
  predicate Contains(s: string, t: string) {
    exists i :: 0 <= i <= |s| - |t| && OccursAt(s, t, i)
  }

  /** `char.ToLowerInvariant` restricted to the ASCII letters. */
  function LowerChar(c: char): char {
    if 'A' <= c <= 'Z' then (c as int - 'A' as int + 'a' as int) as char else c
  }

  /** `string.ToLowerInvariant` restricted to the ASCII letters. */
  function ToLower(s: string): string {
    seq(|s|, i requires 0 <= i < |s| => LowerChar(s[i]))
  }

  predicate EndsWith(s: string, t: string) {
    |t| <= |s| && s[|s| - |t|..] == t
  }

  predicate IsDigit(c: char) {
    '0' <= c <= '9'
  }

  predicate AllDigits(s: string) {
    forall i :: 0 <= i < |s| ==> IsDigit(s[i])
  }

  function Pow10(n: nat): nat {
    if n == 0 then 1 else 10 * Pow10(n - 1)
  }

  /** The decimal numeral of `n`, left-padded with zeros to `width` characters,
      as the `yyyy`/`MM`/... custom format specifiers and `{n}` print it. */
  function Digits(n: nat, width: nat): (s: string)
    requires n < Pow10(width)
    ensures |s| == width && AllDigits(s)
    decreases width
  {
    if width == 0 then []
    else Digits(n / 10, width - 1) + [('0' as int + n % 10) as char]
  }

  /** The number a string of decimal digits denotes. */
  function NumberValue(s: string): nat
    requires AllDigits(s)
    decreases |s|
  {
    if |s| == 0 then 0
    else 10 * NumberValue(s[..|s| - 1]) + (s[|s| - 1] as int - '0' as int)
  }

  /** Reading back a padded numeral gives the number that was printed. */
  lemma {:induction false} DigitsRoundTrip(n: nat, width: nat)
    requires n < Pow10(width)
    ensures NumberValue(Digits(n, width)) == n
    decreases width
  {
    if width > 0 {
      var s := Digits(n, width);
      DigitsRoundTrip(n / 10, width - 1);
      assert s[..|s| - 1] == Digits(n / 10, width - 1);
    }
  }
}
