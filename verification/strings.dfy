/** The few pieces of Python string behaviour the pipeline relies on:
    `str.isspace`, `str.strip()`, `str.lower()` (ASCII part), the `in`
    substring test, and decimal rendering of integers. */
module Strings {

  /** Python's `str.isspace()`: the characters whose bidirectional class is
      WS, B or S, or whose category is Zs. */
  predicate IsSpace(c: char) {
    var n := c as int;
    || 0x09 <= n <= 0x0D
    || 0x1C <= n <= 0x20
    || n == 0x85
    || n == 0xA0
    || n == 0x1680
    || 0x2000 <= n <= 0x200A
    || n == 0x2028
    || n == 0x2029
    || n == 0x202F
    || n == 0x205F
    || n == 0x3000
  }

  /** A string made of whitespace only (the empty string included). */
  predicate IsBlank(s: string) {
    forall i :: 0 <= i < |s| ==> IsSpace(s[i])
  }

  predicate IsDigit(c: char) {
    '0' <= c <= '9'
  }

  /** Every character of `s` from index `lo` up to (not including) `hi` is
      whitespace. */
  predicate SpacesBetween(s: string, lo: nat, hi: nat)
    requires lo <= hi <= |s|
  {
    forall i :: lo <= i < hi ==> IsSpace(s[i])
  }

  /** Index of the first non-whitespace character of `s` at or after `lo`
      (`|s|` when there is none). */
  function FirstNonSpace(s: string, lo: nat): (n: nat)
    requires lo <= |s|
    ensures lo <= n <= |s|
    ensures SpacesBetween(s, lo, n)
    ensures n < |s| ==> !IsSpace(s[n])
    decreases |s| - lo
  {
    if lo == |s| || !IsSpace(s[lo]) then lo else FirstNonSpace(s, lo + 1)
  }

  /** The end of `s[lo..hi]` once its trailing whitespace is dropped. */
  function LastNonSpace(s: string, lo: nat, hi: nat): (n: nat)
    requires lo <= hi <= |s|
    ensures lo <= n <= hi
    ensures SpacesBetween(s, n, hi)
    ensures lo < n ==> !IsSpace(s[n - 1])
    decreases hi - lo
  {
    if hi == lo || !IsSpace(s[hi - 1]) then hi else LastNonSpace(s, lo, hi - 1)
  }

  /** Python's `str.strip()` without argument: `s` with its leading and
      trailing whitespace removed, and nothing else. */
  function Trim(s: string): (r: string)
    ensures r == "" <==> IsBlank(s)
    ensures r != "" ==> !IsSpace(r[0]) && !IsSpace(r[|r| - 1])
    ensures exists i :: 0 <= i <= |s| - |r| && r == s[i..i + |r|]
                        && SpacesBetween(s, 0, i) && SpacesBetween(s, i + |r|, |s|)
  {
    var a := FirstNonSpace(s, 0);
    var e := LastNonSpace(s, a, |s|);
    TrimEmpty(s, a, e);
    s[a..e]
  }

  lemma TrimEmpty(s: string, a: nat, e: nat)
    requires a == FirstNonSpace(s, 0) && e == LastNonSpace(s, a, |s|)
    ensures a == e <==> IsBlank(s)
  {
    if a < |s| {
      assert !IsSpace(s[a]);
    } else {
      assert SpacesBetween(s, 0, |s|);
    }
  }

  predicate IsAsciiUpper(c: char) {
    'A' <= c <= 'Z'
  }

  /** `a` and `b` are the same character once ASCII letter case is ignored. */
  predicate SameIgnoringCase(a: char, b: char) {
    || a == b
    || (IsAsciiUpper(a) && b as int == a as int + 32)
    || (IsAsciiUpper(b) && a as int == b as int + 32)
  }

  function LowerChar(c: char): char {
    if IsAsciiUpper(c) then (c as int + 32) as char else c
  }

  /** Python's `str.lower()` restricted to the ASCII capitals: every
      character is kept up to letter case, and no ASCII capital remains. */
  function Lower(s: string): (r: string)
    ensures |r| == |s|
    ensures forall i :: 0 <= i < |s| ==> SameIgnoringCase(s[i], r[i]) && !IsAsciiUpper(r[i])
  {
    seq(|s|, i requires 0 <= i < |s| => LowerChar(s[i]))
  }

  /** A text without ASCII capitals lowers to itself. */
  lemma LowerOfLowercase(s: string)
    requires forall i :: 0 <= i < |s| ==> !IsAsciiUpper(s[i])
    ensures Lower(s) == s
  {
    assert forall i :: 0 <= i < |s| ==> Lower(s)[i] == s[i];
  }

  /** Lowering is idempotent. */
  lemma LowerIdempotent(s: string)
    ensures Lower(Lower(s)) == Lower(s)
  {
    var l := Lower(s);
    forall i | 0 <= i < |l|
      ensures Lower(l)[i] == l[i]
    {
      assert !IsAsciiUpper(l[i]);
    }
  }

  /** `needle` occurs in `hay` at position `i` once ASCII letter case is
      ignored. */
  predicate OccursIgnoringCaseAt(hay: string, needle: string, i: int) {
    && 0 <= i && i + |needle| <= |hay|
    && forall k :: 0 <= k < |needle| ==> SameIgnoringCase(hay[i + k], needle[k])
  }

  /** The case-insensitive substring test: a needle without ASCII capitals
      occurs in the lowered text exactly where it occurs in the original
      text ignoring ASCII letter case. */
  lemma LowerOccursAt(hay: string, needle: string, i: int)
    requires forall k :: 0 <= k < |needle| ==> !IsAsciiUpper(needle[k])
    ensures OccursAt(Lower(hay), needle, i) <==> OccursIgnoringCaseAt(hay, needle, i)
  {
    var l := Lower(hay);
    if 0 <= i && i + |needle| <= |hay| {
      if OccursAt(l, needle, i) {
        forall k | 0 <= k < |needle|
          ensures SameIgnoringCase(hay[i + k], needle[k])
        {
          assert l[i..i + |needle|][k] == needle[k];
        }
      }
      if OccursIgnoringCaseAt(hay, needle, i) {
        forall k | 0 <= k < |needle|
          ensures l[i..i + |needle|][k] == needle[k]
        {
          assert SameIgnoringCase(hay[i + k], needle[k]);
        }
      }
    }
  }

  /** `needle` occurs in `hay` starting at position `i`. */
  predicate OccursAt(hay: string, needle: string, i: int) {
    0 <= i && i + |needle| <= |hay| && hay[i..i + |needle|] == needle
  }

  /** Python's `needle in hay` on strings. */
  predicate Contains(hay: string, needle: string) {
    exists i :: 0 <= i <= |hay| && OccursAt(hay, needle, i)
  }

  function DigitChar(n: nat): (c: char)
    requires n < 10
    ensures IsDigit(c)
  {
    ('0' as int + n) as char
  }

  function DigitValue(c: char): (n: nat)
    requires IsDigit(c)
    ensures n < 10 && DigitChar(n) == c
  {
    c as int - '0' as int
  }

  /** Decimal rendering of a natural number, as Python's `str(n)`. */
  function Decimal(n: nat): (r: string)
    ensures |r| >= 1 && IsDigit(r[|r| - 1])
    decreases n
  {
    if n < 10 then [DigitChar(n)] else Decimal(n / 10) + [DigitChar(n % 10)]
  }

  /** Decimal rendering of an integer, as Python's f"{n}". */
  function IntText(n: int): (r: string)
    ensures |r| >= 1 && IsDigit(r[|r| - 1])
  {
    if n < 0 then "-" + Decimal(-n) else Decimal(n)
  }

  /** Exactly two digits for `0 <= n < 100`. */
  function TwoDigits(n: nat): (r: string)
    requires n < 100
    ensures |r| == 2 && IsDigit(r[0]) && IsDigit(r[1])
    ensures 10 * DigitValue(r[0]) + DigitValue(r[1]) == n
  {
    [DigitChar(n / 10), DigitChar(n % 10)]
  }

  /** Python's f"{n:02d}". */
  function Pad2(n: int): (r: string)
    ensures |r| >= 1 && IsDigit(r[|r| - 1])
  {
    if 0 <= n < 100 then TwoDigits(n) else IntText(n)
  }
}
