/**
 The two pieces of Python string behaviour the color counter relies on:
 `str.strip()` with no argument, and the decimal rendering of an `int`
 that `"{}".format(n)` produces.
 */
module PyStr {
  import opened Wrappers

  /** The characters for which Python's `str.isspace()` holds; these are the
      characters `str.strip()` removes when given no argument. */
  const WHITESPACE: set<char> := {
    '\U{0009}', '\U{000A}', '\U{000B}', '\U{000C}', '\U{000D}', '\U{001C}',
    '\U{001D}', '\U{001E}', '\U{001F}', '\U{0020}', '\U{0085}', '\U{00A0}',
    '\U{1680}', '\U{2000}', '\U{2001}', '\U{2002}', '\U{2003}', '\U{2004}',
    '\U{2005}', '\U{2006}', '\U{2007}', '\U{2008}', '\U{2009}', '\U{200A}',
    '\U{2028}', '\U{2029}', '\U{202F}', '\U{205F}', '\U{3000}'
  }

  predicate IsSpace(c: char)
  {
    c in WHITESPACE
  }

  predicate AllSpace(s: string)
  {
    forall i :: 0 <= i < |s| ==> IsSpace(s[i])
  }

  /** The position of the first character at or after `i` that is not
      whitespace, or `|s|` when there is none. */
  function SkipSpace(s: string, i: nat): (k: nat)
    requires i <= |s|
    ensures i <= k <= |s|
    decreases |s| - i
  {
    if i < |s| && IsSpace(s[i]) then SkipSpace(s, i + 1) else i
  }

  /** `SkipSpace` passes over whitespace only, and stops at the first
      character that is not whitespace. */
  lemma {:induction false} SkipSpaceSpec(s: string, i: nat)
    requires i <= |s|
    ensures forall m :: i <= m < SkipSpace(s, i) ==> IsSpace(s[m])
    ensures SkipSpace(s, i) < |s| ==> !IsSpace(s[SkipSpace(s, i)])
    decreases |s| - i
  {
    if i < |s| && IsSpace(s[i]) {
      SkipSpaceSpec(s, i + 1);
    }
  }

  /** The position just after the last character before `j`, and not before
      `lo`, that is not whitespace, or `lo` when there is none. */
  function SkipSpaceBack(s: string, lo: nat, j: nat): (k: nat)
    requires lo <= j <= |s|
    ensures lo <= k <= j
    decreases j
  {
    if lo < j && IsSpace(s[j - 1]) then SkipSpaceBack(s, lo, j - 1) else j
  }

  /** `SkipSpaceBack` passes back over whitespace only, and stops after the
      last character that is not whitespace. */
  lemma {:induction false} SkipSpaceBackSpec(s: string, lo: nat, j: nat)
    requires lo <= j <= |s|
    ensures forall m :: SkipSpaceBack(s, lo, j) <= m < j ==> IsSpace(s[m])
    ensures lo < SkipSpaceBack(s, lo, j) ==> !IsSpace(s[SkipSpaceBack(s, lo, j) - 1])
    decreases j
  {
    if lo < j && IsSpace(s[j - 1]) {
      SkipSpaceBackSpec(s, lo, j - 1);
    }
  }

  /** Where the stripped text starts. */
  function StripStart(s: string): nat
  {
    SkipSpace(s, 0)
  }

  /** Where the stripped text ends. */
  function StripEnd(s: string): nat
  {
    SkipSpaceBack(s, StripStart(s), |s|)
  }

  /** `s.strip()`: a start index moves forward over whitespace, an end index
      moves back over whitespace, and the text between them is the result. */
  function Strip(s: string): string
  {
    s[StripStart(s)..StripEnd(s)]
  }

  /** `strip` removes whitespace and only whitespace: everything before the
      kept text and everything after it is whitespace, and the kept text is
      empty or starts and ends with a character that is not. */
  lemma StripSpec(s: string)
    ensures StripStart(s) <= StripEnd(s) <= |s|
    ensures forall m :: 0 <= m < StripStart(s) ==> IsSpace(s[m])
    ensures forall m :: StripEnd(s) <= m < |s| ==> IsSpace(s[m])
    ensures StripStart(s) < StripEnd(s) ==> !IsSpace(s[StripStart(s)]) && !IsSpace(s[StripEnd(s) - 1])
    ensures var r := Strip(s); r == [] || (!IsSpace(r[0]) && !IsSpace(r[|r| - 1]))
  {
    var i := StripStart(s);
    var j := StripEnd(s);
    SkipSpaceSpec(s, 0);
    SkipSpaceBackSpec(s, i, |s|);
  }

  /** Stripping is determined by the padding: a text with non-blank ends,
      surrounded by any whitespace, strips to exactly that text. */
  lemma StripPadded(pre: string, t: string, post: string)
    requires AllSpace(pre) && AllSpace(post)
    requires t == [] || (!IsSpace(t[0]) && !IsSpace(t[|t| - 1]))
    ensures Strip(pre + t + post) == t
  {
    var s := pre + t + post;
    var i, j := StripStart(s), StripEnd(s);
    StripSpec(s);
    if t == [] {
      assert forall m :: 0 <= m < |s| ==> IsSpace(s[m]);
      assert i == j;
    } else {
      assert !IsSpace(s[|pre|]) && !IsSpace(s[|pre| + |t| - 1]);
      assert forall m :: 0 <= m < |pre| ==> IsSpace(s[m]);
      assert forall m :: |pre| + |t| <= m < |s| ==> IsSpace(s[m]);
      assert i == |pre|;
      assert j == |pre| + |t|;
      assert s[i..j] == t;
    }
  }

  /** Stripping twice is stripping once. */
  lemma StripIdempotent(s: string)
    ensures Strip(Strip(s)) == Strip(s)
  {
    var t := Strip(s);
    StripSpec(s);
    StripPadded([], t, []);
    assert [] + t + [] == t;
  }

  // ---------------------------------------------------------------------
  // Decimal rendering of integers, as `"{}".format(n)` writes them.

  predicate IsDigit(c: char)
  {
    '0' <= c <= '9'
  }

  predicate AllDigits(s: string)
  {
    forall i :: 0 <= i < |s| ==> IsDigit(s[i])
  }

  function DigitChar(d: nat): (c: char)
    requires d < 10
    ensures IsDigit(c) && (c as int) - ('0' as int) == d
  {
    (('0' as int) + d) as char
  }

  /** The number a string of decimal digits denotes (most significant first). */
  function DigitsValue(s: string): nat
    requires AllDigits(s)
  {
    if s == [] then 0
    else 10 * DigitsValue(s[..|s| - 1]) + ((s[|s| - 1] as int) - ('0' as int))
  }

  /** The shortest decimal digit string of `n`: never empty, no leading zero. */
  function Digits(n: nat): (r: string)
    ensures |r| >= 1 && AllDigits(r)
    ensures r[0] == '0' ==> r == "0"
    ensures DigitsValue(r) == n
  {
    if n < 10 then [DigitChar(n)]
    else
      var p := Digits(n / 10);
      var r := p + [DigitChar(n % 10)];
      assert r[..|r| - 1] == p;
      r
  }

  /** `"{}".format(n)` for an `int`: a minus sign for negatives, then the digits. */
  function FormatInt(n: int): string
  {
    if n < 0 then "-" + Digits(-n) else Digits(n)
  }

  /** Python's `int(s)` restricted to what `FormatInt` can produce: an optional
      minus sign and at least one digit; anything else is rejected. */
  function ParseInt(s: string): Option<int>
  {
    if |s| >= 2 && s[0] == '-' && AllDigits(s[1..]) then Some(0 - DigitsValue(s[1..]) as int)
    else if |s| >= 1 && AllDigits(s) then Some(DigitsValue(s))
    else None
  }

  /** Reading back what `FormatInt` wrote gives the number it started from. */
  lemma FormatIntRoundTrip(n: int)
    ensures ParseInt(FormatInt(n)) == Some(n)
  {
    var f := FormatInt(n);
    if n < 0 {
      assert f[1..] == Digits(-n);
      assert !IsDigit(f[0]);
    }
  }

  /** Distinct numbers are written differently. */
  lemma FormatIntInjective(n: int, m: int)
    requires FormatInt(n) == FormatInt(m)
    ensures n == m
  {
    FormatIntRoundTrip(n);
    FormatIntRoundTrip(m);
  }
}
