/**
 * The pieces of .NET string handling that the store relies on:
 * `int.TryParse` / `int.Parse` with the default `NumberStyles.Integer`,
 * `int.ToString()` for non-negative values, `string.IsNullOrEmpty` and
 * `string.Equals(..., StringComparison.OrdinalIgnoreCase)` restricted to the
 * case pairs of Basic Latin and Latin-1 Supplement.
 */
module Text {
  import opened Wrappers

  /** Bounds of the C# `int` (System.Int32). */
  const Int32Min: int := -0x8000_0000
  const Int32Max: int := 0x7FFF_FFFF

  /** The values of a C# `int`. */
  type Int32 = x: int | Int32Min <= x <= Int32Max

  predicate IsDigit(c: char) { '0' <= c <= '9' }

  /** White space accepted around a number: U+0009 to U+000D and U+0020. */
  predicate IsWhite(c: char) { c == ' ' || '\t' <= c <= '\r' }

  predicate AllDigits(s: string) { forall i :: 0 <= i < |s| ==> IsDigit(s[i]) }

  /** Position `i` of `s` holds a decimal digit. */
  predicate DigitAt(s: string, i: nat)
  {
    i < |s| && IsDigit(s[i])
  }

  /** The characters of `s` from `lo` up to `hi` are decimal digits. */
  predicate DigitsIn(s: string, lo: nat, hi: nat)
    requires lo <= hi <= |s|
  {
    forall i :: lo <= i < hi ==> DigitAt(s, i)
  }

  /** The value of the digits of `s` from `lo` up to `hi`, most significant first. */
  function RangeValue(s: string, lo: nat, hi: nat): nat
    requires lo <= hi <= |s| && DigitsIn(s, lo, hi)
    decreases hi - lo
  {
    if hi == lo then 0 else assert DigitAt(s, hi - 1); RangeValue(s, lo, hi - 1) * 10 + (s[hi - 1] - '0') as int
  }

  /** The value of a string of decimal digits. */
  function DigitsValue(s: string): nat
    requires AllDigits(s)
  {
    RangeValue(s, 0, |s|)
  }

  /** The first position at or after `i` that does not hold white space. */
  function SkipWhite(s: string, i: nat): (k: nat)
    requires i <= |s|
    ensures i <= k <= |s| && (k < |s| ==> !IsWhite(s[k]))
    decreases |s| - i
  {
    if i < |s| && IsWhite(s[i]) then SkipWhite(s, i + 1) else i
  }

  /** The position just after the last character before `j` that is not white space. */
  function SkipWhiteBack(s: string, j: nat): (k: nat)
    requires j <= |s|
    ensures k <= j && (k > 0 ==> !IsWhite(s[k - 1]))
  {
    if j > 0 && IsWhite(s[j - 1]) then SkipWhiteBack(s, j - 1) else j
  }

  /**
   * `int.TryParse(s, out n)`: optional surrounding white space, an optional
   * leading '+' or '-', one or more decimal digits, and a value that fits an
   * Int32. `None` is the `false` result (and the exception of `int.Parse`).
   * The text between the surrounding white space runs from `lo` to `hi`.
   */
  function TryParseInt(s: string): (r: Option<int>)
    ensures r.Some? ==> Int32Min <= r.value <= Int32Max
  {
    var lo, hi := SkipWhite(s, 0), SkipWhiteBack(s, |s|);
    if hi <= lo then None
    else
      var negative := s[lo] == '-';
      var d := if s[lo] == '-' || s[lo] == '+' then lo + 1 else lo;
      if d == hi || !DigitsIn(s, d, hi) then None
      else
        var v: int := if negative then 0 - RangeValue(s, d, hi) as int else RangeValue(s, d, hi);
        if Int32Min <= v <= Int32Max then Some(v) else None
  }

  /** `n.ToString()` for a non-negative `n`: decimal digits, no leading zero. */
  function NatToString(n: nat): (s: string)
    ensures s != [] && AllDigits(s)
    ensures |s| > 1 ==> s[0] != '0'
  {
    if n < 10 then [('0' as int + n) as char]
    else NatToString(n / 10) + [('0' as int + n % 10) as char]
  }

  /** Digits appended after a range do not change the value of that range. */
  lemma {:induction false} RangeValueAppend(p: string, d: string, n: nat)
    requires AllDigits(p) && AllDigits(p + d) && n <= |p|
    ensures RangeValue(p + d, 0, n) == RangeValue(p, 0, n)
  {
    if n > 0 {
      RangeValueAppend(p, d, n - 1);
      assert (p + d)[n - 1] == p[n - 1];
    }
  }

  lemma {:induction false} NatToStringValue(n: nat)
    ensures DigitsValue(NatToString(n)) == n
  {
    if n >= 10 {
      var p, d := NatToString(n / 10), [('0' as int + n % 10) as char];
      NatToStringValue(n / 10);
      RangeValueAppend(p, d, |p|);
      var s := p + d;
      assert NatToString(n) == s;
      assert RangeValue(s, 0, |s|) == RangeValue(s, 0, |p|) * 10 + n % 10;
    } else {
      assert RangeValue(NatToString(n), 0, 0) == 0;
    }
  }

  /** Printing a count and parsing it back gives the count: the round trip that
    * `AddRequest` relies on when it invents an IssueID. */
  lemma ParseNatToString(n: nat)
    requires n <= Int32Max
    ensures TryParseInt(NatToString(n)) == Some(n)
  {
    var s := NatToString(n);
    assert SkipWhite(s, 0) == 0 by { assert !IsWhite(s[0]); }
    assert SkipWhiteBack(s, |s|) == |s| by { assert !IsWhite(s[|s| - 1]); }
    NatToStringValue(n);
  }

  predicate IsNullOrEmpty(s: string) { s == [] }

  /**
   * Ordinal upper-casing of one UTF-16 unit, for the letters of Basic Latin
   * and Latin-1 Supplement: `a`-`z` and U+00E0-U+00FE (except U+00F7, the
   * division sign) move down by 0x20, and U+00FF becomes U+0178.
   */
  function Upper(c: char): char
  {
    if 'a' <= c <= 'z' || (0xE0 <= c as int <= 0xFE && c as int != 0xF7) then (c as int - 0x20) as char
    else if c as int == 0xFF then 0x178 as char
    else c
  }

  /** Upper-casing a capital (or a character without case) leaves it alone. */
  lemma UpperIdempotent(c: char)
    ensures Upper(Upper(c)) == Upper(c)
  {
  }

  /** A lower-case letter and its capital are the same unit after upper-casing. */
  lemma UpperFoldsPairs(c: char)
    requires 'A' <= c <= 'Z' || (0xC0 <= c as int <= 0xDE && c as int != 0xD7)
    ensures Upper(c) == c && Upper((c as int + 0x20) as char) == c
  {
  }

  /**
   * `a.Equals(b, StringComparison.OrdinalIgnoreCase)`, compared unit by unit
   * from the front once both are upper-cased.
   */
  predicate EqualsIgnoreCase(a: string, b: string)
    decreases |a|
  {
    |a| == |b| && (|a| == 0 || (Upper(a[0]) == Upper(b[0]) && EqualsIgnoreCase(a[1..], b[1..])))
  }

  /** Equal ignoring case means the same length and the same upper-cased unit at each position. */
  lemma {:induction false} EqualsIgnoreCaseMeaning(a: string, b: string)
    ensures EqualsIgnoreCase(a, b) <==> |a| == |b| && forall i :: 0 <= i < |a| ==> Upper(a[i]) == Upper(b[i])
    decreases |a|
  {
    if |a| == |b| && |a| > 0 {
      EqualsIgnoreCaseMeaning(a[1..], b[1..]);
      assert forall i :: 1 <= i < |a| ==> a[i] == a[1..][i - 1] && b[i] == b[1..][i - 1];
    }
  }

  /** Accented Latin-1 letters compare equal whatever their case. */
  lemma EqualsIgnoreCaseLatin1()
    ensures EqualsIgnoreCase("\U{C9}lan St", "\U{E9}lan st")
    ensures !EqualsIgnoreCase("\U{C9}lan St", "Elan St")
  {
    var a, b, e := "\U{C9}lan St", "\U{E9}lan st", "Elan St";
    EqualsIgnoreCaseMeaning(a, b);
    assert a[0] == '\U{C9}' && e[0] == 'E';
    assert Upper(a[0]) != Upper(e[0]);
  }
}
