/**
 * Digit strings: the decimal rendering of a natural number (Python's `str`
 * on a non-negative int) and the value of a string of hexadecimal digits
 * (Python's `int('0x' + p, 16)` on a well-formed p).
 */
module Numerals {

  predicate IsDecimalDigit(c: char)
  {
    '0' <= c <= '9'
  }

  predicate IsHexDigit(c: char)
  {
    '0' <= c <= '9' || 'a' <= c <= 'f' || 'A' <= c <= 'F'
  }

  predicate AllHexDigits(p: string)
  {
    forall i :: 0 <= i < |p| ==> IsHexDigit(p[i])
  }

  predicate AllDecimalDigits(s: string)
  {
    forall i :: 0 <= i < |s| ==> IsDecimalDigit(s[i])
  }

  /** A non-empty string of hexadecimal digits, either case. */
  predicate IsHexString(p: string)
  {
    |p| > 0 && AllHexDigits(p)
  }

  predicate IsDecimalString(s: string)
  {
    |s| > 0 && AllDecimalDigits(s)
  }

  function DigitChar(d: nat): (c: char)
    requires d < 10
    ensures IsDecimalDigit(c)
  {
    ('0' as int + d) as char
  }

  function DecimalDigitValue(c: char): nat
    requires IsDecimalDigit(c)
  {
    c as int - '0' as int
  }

  function HexDigitValue(c: char): (d: nat)
    requires IsHexDigit(c)
    ensures d < 16
  {
    if '0' <= c <= '9' then c as int - '0' as int
    else if 'a' <= c <= 'f' then c as int - 'a' as int + 10
    else c as int - 'A' as int + 10
  }

  /** The value of a digit string read in base 10, most significant digit first. */
  function DecimalValue(s: string): nat
    requires AllDecimalDigits(s)
  {
    if s == [] then 0
    else DecimalValue(s[..|s| - 1]) * 10 + DecimalDigitValue(s[|s| - 1])
  }

  /**
   * The value of a digit string read in base 16, most significant digit
   * first; k digits are worth less than 16^k.
   */
  function HexValue(p: string): (r: nat)
    requires AllHexDigits(p)
    ensures r < Pow16(|p|)
  {
    if p == [] then 0
    else HexValue(p[..|p| - 1]) * 16 + HexDigitValue(p[|p| - 1])
  }

  /** The decimal rendering of n with no leading zeros, as `str(n)` gives it. */
  function DecimalString(n: nat): (s: string)
    ensures IsDecimalString(s)
    ensures |s| > 1 ==> s[0] != '0'
  {
    if n < 10 then [DigitChar(n)]
    else DecimalString(n / 10) + [DigitChar(n % 10)]
  }

  /** Reading back the decimal rendering gives the number. */
  lemma {:induction false} DecimalRoundTrip(n: nat)
    ensures DecimalValue(DecimalString(n)) == n
  {
    var s := DecimalString(n);
    if n >= 10 {
      DecimalRoundTrip(n / 10);
      assert s[..|s| - 1] == DecimalString(n / 10);
    }
  }

  /** Distinct numbers have distinct decimal renderings. */
  lemma DecimalStringInjective(m: nat, n: nat)
    requires m != n
    ensures DecimalString(m) != DecimalString(n)
  {
    DecimalRoundTrip(m);
    DecimalRoundTrip(n);
  }

  /** Every canonical digit string is the rendering of its value. */
  lemma {:induction false} DecimalStringOfValue(s: string)
    requires IsDecimalString(s)
    requires |s| > 1 ==> s[0] != '0'
    ensures DecimalString(DecimalValue(s)) == s
  {
    if |s| > 1 {
      var init := s[..|s| - 1];
      DecimalStringOfValue(init);
      DecimalValueAtLeast(init);
    }
  }

  /** A digit string that does not start with '0' is worth at least 1. */
  lemma {:induction false} DecimalValueAtLeast(s: string)
    requires IsDecimalString(s)
    requires s[0] != '0'
    ensures DecimalValue(s) >= 1
  {
    if |s| > 1 {
      DecimalValueAtLeast(s[..|s| - 1]);
    }
  }

  /**
   * Positional meaning of a hexadecimal string: the digits of p are worth
   * 16^|q| times their own value when q follows them. In particular leading
   * zeros do not change the value, so "00" and "0" both read as 0.
   */
  lemma {:induction false} HexValueConcat(p: string, q: string)
    requires AllHexDigits(p) && AllHexDigits(q)
    ensures AllHexDigits(p + q)
    ensures HexValue(p + q) == HexValue(p) * Pow16(|q|) + HexValue(q)
  {
    assert AllHexDigits(p + q) by {
      forall i | 0 <= i < |p + q| ensures IsHexDigit((p + q)[i]) {
        if i >= |p| { assert (p + q)[i] == q[i - |p|]; }
      }
    }
    if q == [] {
      assert p + q == p;
    } else {
      var q' := q[..|q| - 1];
      assert (p + q)[..|p + q| - 1] == p + q';
      assert (p + q)[|p + q| - 1] == q[|q| - 1];
      HexValueConcat(p, q');
      var d := HexDigitValue(q[|q| - 1]);
      assert HexValue(p + q) == HexValue(p + q') * 16 + d;
      assert HexValue(q) == HexValue(q') * 16 + d;
      assert Pow16(|q|) == 16 * Pow16(|q'|);
      ShiftDigit(HexValue(p), Pow16(|q'|), HexValue(q'), d);
    }
  }

  lemma ShiftDigit(a: nat, w: nat, v: nat, d: nat)
    ensures (a * w + v) * 16 + d == a * (16 * w) + (v * 16 + d)
  {
  }

  function Pow16(k: nat): (r: nat)
    ensures r >= 1
  {
    if k == 0 then 1 else 16 * Pow16(k - 1)
  }
}
