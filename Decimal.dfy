/**
  Decimal text of Java integers: `Long.parseLong` and `Integer.parseInt` on a
  cell's text, and the canonical text a number cell holds once written.
 */
module Decimal {
  import opened Wrappers

  /** Java `long` / `Long`. */
  type Long = x: int | -0x8000_0000_0000_0000 <= x <= 0x7FFF_FFFF_FFFF_FFFF

  /** Java `int`. */
  type Int32 = x: int | -0x8000_0000 <= x <= 0x7FFF_FFFF

  predicate IsDigit(c: char) { '0' <= c <= '9' }

  predicate AllDigits(s: string) { forall i :: 0 <= i < |s| ==> IsDigit(s[i]) }

  /** The value of a string of decimal digits, most significant first. */
  function DigitsValue(s: string): nat
    requires AllDigits(s)
    decreases |s|
  {
    if s == [] then 0 else DigitsValue(s[..|s| - 1]) * 10 + (s[|s| - 1] as int - '0' as int)
  }

  /**
    The number a decimal string denotes: an optional `+` or `-` followed by at
    least one digit. Anything else (empty, a lone sign, a blank, a letter, a
    decimal point) is rejected.
   */
  function ParseDecimal(s: string): Option<int>
  {
    if |s| > 0 && (s[0] == '-' || s[0] == '+') then
      if |s| > 1 && AllDigits(s[1..]) then
        var v: int := DigitsValue(s[1..]);
        Some(if s[0] == '-' then -v else v)
      else None
    else if |s| > 0 && AllDigits(s) then Some(DigitsValue(s))
    else None
  }

  /** `Long.parseLong(s)`: `None` stands for the NumberFormatException. */
  function ParseLong(s: string): (r: Option<Long>)
    ensures r.Some? ==> ParseDecimal(s) == Some(r.value as int)
    ensures r.None? ==> ParseDecimal(s).None? ||
                        ParseDecimal(s).value < -0x8000_0000_0000_0000 ||
                        ParseDecimal(s).value > 0x7FFF_FFFF_FFFF_FFFF
  {
    match ParseDecimal(s)
    case None => None
    case Some(v) => if -0x8000_0000_0000_0000 <= v <= 0x7FFF_FFFF_FFFF_FFFF then Some(v) else None
  }

  /** `Integer.parseInt(s)`: `None` stands for the NumberFormatException. */
  function ParseInt(s: string): (r: Option<Int32>)
    ensures r.Some? ==> ParseDecimal(s) == Some(r.value as int)
    ensures r.None? ==> ParseDecimal(s).None? ||
                        ParseDecimal(s).value < -0x8000_0000 ||
                        ParseDecimal(s).value > 0x7FFF_FFFF
  {
    match ParseDecimal(s)
    case None => None
    case Some(v) => if -0x8000_0000 <= v <= 0x7FFF_FFFF then Some(v) else None
  }

  function DigitChar(d: nat): (c: char)
    requires d < 10
    ensures IsDigit(c) && c as int - '0' as int == d
  {
    ('0' as int + d) as char
  }

  /** Digits of `n` without leading zeros. */
  function NatText(n: nat): (s: string)
    ensures |s| > 0 && AllDigits(s) && DigitsValue(s) == n
    ensures |s| > 1 ==> s[0] != '0'
    decreases n
  {
    if n < 10 then [DigitChar(n)]
    else
      var t := NatText(n / 10);
      var s := t + [DigitChar(n % 10)];
      assert s[..|s| - 1] == t;
      s
  }

  /** The text `Long.toString` / `Integer.toString` gives, and the text a number cell reads back as. */
  function DecimalText(n: int): (s: string)
    ensures ParseDecimal(s) == Some(n)
  {
    if n < 0 then
      var t := NatText(-n);
      assert ("-" + t)[1..] == t;
      "-" + t
    else NatText(n)
  }

  /** Digits in canonical form: at least one, and no leading zero unless the number is zero. */
  predicate CanonicalDigits(t: string)
  {
    |t| > 0 && AllDigits(t) && (|t| == 1 || t[0] != '0')
  }

  /** The decimal strings that `DecimalText` can produce: no `+`, no leading zero, no `-0`. */
  predicate CanonicalDecimal(s: string)
  {
    CanonicalDigits(s) || (|s| > 1 && s[0] == '-' && CanonicalDigits(s[1..]) && s[1..] != "0")
  }

  lemma {:induction false} PositiveDigits(t: string)
    requires CanonicalDigits(t) && t[0] != '0'
    ensures DigitsValue(t) > 0
    decreases |t|
  {
    if |t| > 1 {
      var u := t[..|t| - 1];
      assert u[0] == t[0];
      assert CanonicalDigits(u);
      PositiveDigits(u);
    }
  }

  lemma {:induction false} NatTextOfDigits(t: string)
    requires CanonicalDigits(t)
    ensures NatText(DigitsValue(t)) == t
    decreases |t|
  {
    var n := DigitsValue(t);
    if |t| > 1 {
      var u := t[..|t| - 1];
      assert u[0] == t[0];
      assert CanonicalDigits(u);
      PositiveDigits(u);
      NatTextOfDigits(u);
      assert n / 10 == DigitsValue(u) && n % 10 == t[|t| - 1] as int - '0' as int;
      assert t == u + [t[|t| - 1]];
    }
  }

  /**
    Reading a canonical decimal cell and writing the number back gives the same
    text: on canonical strings `DecimalText` is the inverse of `ParseDecimal`.
   */
  lemma CanonicalRoundTrip(s: string)
    requires CanonicalDecimal(s)
    ensures ParseDecimal(s).Some? && DecimalText(ParseDecimal(s).value) == s
  {
    if CanonicalDigits(s) {
      NatTextOfDigits(s);
    } else {
      var t := s[1..];
      NatTextOfDigits(t);
      assert s == "-" + t;
    }
  }

  /** A `long` written as text reads back as the same `long`. */
  lemma LongRoundTrip(n: Long)
    ensures ParseLong(DecimalText(n)) == Some(n)
  {
  }

  /** An `int` written as text reads back as the same `int`. */
  lemma IntRoundTrip(n: Int32)
    ensures ParseInt(DecimalText(n)) == Some(n)
  {
  }
}
