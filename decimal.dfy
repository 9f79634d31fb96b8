/** Decimal rendering of integers as strconv.Itoa writes it, with a reader (in the manner of
    strconv.Atoi, without its range check) that serves as its inverse. */
module Decimal {
  import opened Common

  predicate IsDigit(c: char) {
    '0' <= c <= '9'
  }

  predicate AllDigits(s: string) {
    forall k :: 0 <= k < |s| ==> IsDigit(s[k])
  }

  function DigitValue(c: char): (d: nat)
    requires IsDigit(c)
    ensures d < 10
  {
    c as int - '0' as int
  }

  function DigitChar(d: nat): (c: char)
    requires d < 10
    ensures IsDigit(c) && DigitValue(c) == d
  {
    ('0' as int + d) as char
  }

  /** The value of a string of decimal digits, most significant digit first. */
  function DigitsValue(s: string): nat
    requires AllDigits(s)
  {
    if s == [] then 0 else DigitsValue(s[..|s| - 1]) * 10 + DigitValue(s[|s| - 1])
  }

  /** The canonical spelling of a natural number: at least one digit, and no leading zero
      unless the number is zero itself. */
  predicate IsCanonicalNat(s: string) {
    |s| > 0 && AllDigits(s) && (s[0] == '0' ==> |s| == 1)
  }

  /** The canonical spelling of an integer: a canonical natural, or a minus sign followed by
      the canonical spelling of a positive natural (there is no "-0"). */
  predicate IsCanonicalInt(s: string) {
    IsCanonicalNat(s) || (|s| > 1 && s[0] == '-' && IsCanonicalNat(s[1..]) && s[1..] != "0")
  }

  /** The digits of n, without a sign. */
  function NatToString(n: nat): (s: string)
    ensures IsCanonicalNat(s) && DigitsValue(s) == n
    decreases n
  {
    if n < 10 then
      var s := [DigitChar(n)];
      assert s[..0] == [];
      s
    else
      var p := NatToString(n / 10);
      var s := p + [DigitChar(n % 10)];
      assert s[..|s| - 1] == p;
      s
  }

  /** strconv.Itoa: an optional minus sign followed by the digits of |n|. */
  function IntToString(n: int): (s: string)
    ensures IsCanonicalInt(s)
  {
    if n < 0 then
      var s := "-" + NatToString(-n);
      assert s[1..] == NatToString(-n);
      s
    else
      NatToString(n)
  }

  /** Reads an optional sign followed by one or more decimal digits; None for anything else. */
  function ParseInt(s: string): (r: Option<int>)
  {
    if |s| > 0 && (s[0] == '-' || s[0] == '+') then
      var digits := s[1..];
      if |digits| > 0 && AllDigits(digits) then
        var v: int := if s[0] == '-' then -(DigitsValue(digits) as int) else DigitsValue(digits);
        Some(v)
      else
        None
    else if |s| > 0 && AllDigits(s) then
      Some(DigitsValue(s))
    else
      None
  }

  /** Reading back what IntToString writes gives the original integer. */
  lemma ParseIntToString(n: int)
    ensures ParseInt(IntToString(n)) == Some(n)
  {
  }

  /** A canonical natural that starts with a non-zero digit is positive. */
  lemma {:induction false} LeadingDigitPositive(s: string)
    requires |s| > 0 && AllDigits(s) && s[0] != '0'
    ensures DigitsValue(s) > 0
  {
    if |s| > 1 {
      var p := s[..|s| - 1];
      assert p[0] == s[0];
      LeadingDigitPositive(p);
    }
  }

  /** Writing the value of a canonical natural spelling reproduces that spelling. */
  lemma {:induction false} NatToStringOfDigits(s: string)
    requires IsCanonicalNat(s)
    ensures NatToString(DigitsValue(s)) == s
  {
    var p, d := s[..|s| - 1], DigitValue(s[|s| - 1]);
    if |s| == 1 {
      assert p == [];
    } else {
      assert p[0] == s[0];
      LeadingDigitPositive(p);
      NatToStringOfDigits(p);
      var v := DigitsValue(p);
      assert DigitsValue(s) == v * 10 + d;
      assert (v * 10 + d) / 10 == v && (v * 10 + d) % 10 == d;
      assert s == p + [s[|s| - 1]];
    }
  }

  /** Every canonical integer spelling is read and rewritten unchanged: together with
      ParseIntToString, IntToString is a bijection onto the canonical spellings. */
  lemma IntToStringOfParse(s: string)
    requires IsCanonicalInt(s)
    ensures ParseInt(s).Some? && IntToString(ParseInt(s).value) == s
  {
    if IsCanonicalNat(s) {
      NatToStringOfDigits(s);
    } else {
      var digits := s[1..];
      NatToStringOfDigits(digits);
      LeadingDigitPositive(digits);
      assert s == "-" + digits;
    }
  }
}
