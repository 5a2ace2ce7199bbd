/**
 * Decimal rendering of integers, as Java's string concatenation `count + " "` and
 * `"..." + seconds` perform it (Integer.toString), together with its inverse.
 */
module Decimal {
  import opened Wrappers

  predicate IsDigit(c: char) {
    '0' <= c <= '9'
  }

  predicate AllDigits(s: string) {
    forall i :: 0 <= i < |s| ==> IsDigit(s[i])
  }

  function DigitChar(d: nat): (c: char)
    requires d < 10
    ensures IsDigit(c)
  {
    (d + '0' as int) as char
  }

  function DigitValue(c: char): (d: nat)
    requires IsDigit(c)
    ensures d < 10
    ensures DigitChar(d) == c
  {
    c as int - '0' as int
  }

  /** The shortest decimal numeral of `n`: at least one digit, no leading zero. */
  function NatToString(n: nat): (s: string)
    ensures |s| >= 1 && AllDigits(s)
    ensures s[0] == '0' <==> n == 0
    ensures n < 10 <==> |s| == 1
    decreases n
  {
    if n < 10 then [DigitChar(n)] else NatToString(n / 10) + [DigitChar(n % 10)]
  }

  /** Java's `Integer.toString`: a minus sign before the magnitude of a negative number. */
  function IntToString(i: int): (s: string)
    ensures |s| >= 1
    ensures s[0] == '-' <==> i < 0
    ensures i >= 0 ==> AllDigits(s) && (s[0] == '0' <==> i == 0)
    ensures i < 0 ==> |s| >= 2 && AllDigits(s[1..]) && s[1] != '0'
  {
    if i < 0 then "-" + NatToString(-i) else NatToString(i)
  }

  /** The value of a string of decimal digits (most significant first). */
  function DigitsValue(s: string): nat
    requires AllDigits(s)
    decreases |s|
  {
    if s == [] then 0 else 10 * DigitsValue(s[..|s| - 1]) + DigitValue(s[|s| - 1])
  }

  /** Reads back an optionally signed decimal numeral. */
  function ParseInt(s: string): Option<int> {
    if |s| >= 2 && s[0] == '-' && AllDigits(s[1..]) then Some(-(DigitsValue(s[1..]) as int))
    else if |s| >= 1 && AllDigits(s) then Some(DigitsValue(s))
    else None
  }

  lemma {:induction false} NatToStringRoundTrip(n: nat)
    ensures DigitsValue(NatToString(n)) == n
    decreases n
  {
    if n >= 10 {
      var s := NatToString(n);
      assert s[..|s| - 1] == NatToString(n / 10);
      NatToStringRoundTrip(n / 10);
    }
  }

  lemma NatToStringInjective(m: nat, n: nat)
    requires NatToString(m) == NatToString(n)
    ensures m == n
  {
    NatToStringRoundTrip(m);
    NatToStringRoundTrip(n);
  }

  lemma ParseSigned(digits: string)
    requires |digits| >= 1 && AllDigits(digits)
    ensures ParseInt("-" + digits) == Some(-(DigitsValue(digits) as int))
  {
    var s := "-" + digits;
    assert s[1..] == digits;
  }

  lemma ParseUnsigned(digits: string)
    requires |digits| >= 1 && AllDigits(digits)
    ensures ParseInt(digits) == Some(DigitsValue(digits))
  {
    assert digits[0] != '-';
  }

  lemma NegativeRoundTrip(i: int)
    requires i < 0
    ensures ParseInt(IntToString(i)) == Some(i)
  {
    var digits := NatToString(-i);
    calc {
      ParseInt(IntToString(i));
      ParseInt("-" + digits);
      { ParseSigned(digits); }
      Some(-(DigitsValue(digits) as int));
      { NatToStringRoundTrip(-i); }
      Some(i);
    }
  }

  lemma NonNegativeRoundTrip(i: int)
    requires i >= 0
    ensures ParseInt(IntToString(i)) == Some(i)
  {
    var digits := NatToString(i);
    assert IntToString(i) == digits;
    ParseUnsigned(digits);
    NatToStringRoundTrip(i);
  }

  lemma IntToStringRoundTrip(i: int)
    ensures ParseInt(IntToString(i)) == Some(i)
  {
    if i < 0 {
      NegativeRoundTrip(i);
    } else {
      NonNegativeRoundTrip(i);
    }
  }

  /**
   * A numeral without a leading zero (other than "0" itself) is the one `NatToString` writes
   * for its value: the decimal form is canonical.
   */
  lemma {:induction false} CanonicalNumeral(t: string)
    requires |t| >= 1 && AllDigits(t) && (|t| >= 2 ==> t[0] != '0')
    ensures t == NatToString(DigitsValue(t))
    decreases |t|
  {
    var n := DigitsValue(t);
    var d := DigitValue(t[|t| - 1]);
    if |t| >= 2 {
      var init := t[..|t| - 1];
      assert init[0] == t[0];
      CanonicalNumeral(init);
      var m := DigitsValue(init);
      assert NatToString(m)[0] != '0';
      assert n == 10 * m + d && m >= 1;
      assert n / 10 == m && n % 10 == d;
      assert t == init + [t[|t| - 1]];
    }
  }

  /** Hence different numerals without leading zeros never denote the same value. */
  lemma CanonicalNumeralUnique(s: string, t: string)
    requires |s| >= 1 && AllDigits(s) && (|s| >= 2 ==> s[0] != '0')
    requires |t| >= 1 && AllDigits(t) && (|t| >= 2 ==> t[0] != '0')
    requires DigitsValue(s) == DigitsValue(t)
    ensures s == t
  {
    CanonicalNumeral(s);
    CanonicalNumeral(t);
  }

  /** The only signed numeral without a leading zero that reads back as a negative `i` is `IntToString(i)`. */
  lemma NegativeNumeralUnique(i: int, t: string)
    requires i < 0
    requires |t| >= 2 && t[0] == '-' && AllDigits(t[1..]) && t[1] != '0'
    requires ParseInt(t) == Some(i)
    ensures t == IntToString(i)
  {
    var digits := t[1..];
    assert digits[0] == t[1];
    CanonicalNumeral(digits);
    assert t == "-" + digits;
  }
}
