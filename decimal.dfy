/**
 Decimal rendering of integers, as Python's `str(int)` produces it inside the
 f-strings of both registries, and the decimal reading that undoes it.
 The reading is what makes a rendered task line readable back into its id.
 */
module Decimal {

  datatype Option<T> = None | Some(value: T)

  /** The characters `str(int)` can produce: the ten digits and a minus sign. */
  predicate IsDigit(c: char) {
    '0' <= c <= '9'
  }

  predicate IsNumeral(c: char) {
    IsDigit(c) || c == '-'
  }

  predicate AllDigits(s: string) {
    forall i | 0 <= i < |s| :: IsDigit(s[i])
  }

  function DigitChar(d: nat): (c: char)
    requires d < 10
    ensures IsDigit(c) && (c - '0') as int == d
  {
    ['0', '1', '2', '3', '4', '5', '6', '7', '8', '9'][d]
  }

  /** Decimal digits of a natural number, most significant first, no leading zeros. */
  function NatToString(n: nat): (s: string)
    ensures |s| > 0 && AllDigits(s)
    ensures |s| > 1 ==> s[0] != '0'
  {
    if n < 10 then [DigitChar(n)] else NatToString(n / 10) + [DigitChar(n % 10)]
  }

  /** Python's `str(n)` for an `int`: a minus sign before the digits of a negative number. */
  function IntToString(n: int): (s: string)
    ensures |s| > 0 && forall i | 0 <= i < |s| :: IsNumeral(s[i])
    ensures (s[0] == '-') <==> n < 0
  {
    if n < 0 then "-" + NatToString(-n) else NatToString(n)
  }

  /** The value of a string of decimal digits, most significant first. */
  function DigitsValue(s: string): nat
    requires AllDigits(s)
  {
    if s == [] then 0 else DigitsValue(s[..|s| - 1]) * 10 + (s[|s| - 1] - '0') as int
  }

  /** Reads an optional minus sign followed by at least one digit; anything else is `None`. */
  function ParseInt(s: string): (r: Option<int>)
    ensures r.Some? ==> |s| > 0
  {
    if |s| > 0 && s[0] == '-' then
      if |s| > 1 && AllDigits(s[1..]) then Some(-(DigitsValue(s[1..]) as int)) else None
    else if |s| > 0 && AllDigits(s) then Some(DigitsValue(s))
    else None
  }

  /** Length of the longest prefix of `s` made of characters `str(int)` can produce. */
  function NumeralPrefix(s: string): (n: nat)
    ensures n <= |s|
    ensures forall i | 0 <= i < n :: IsNumeral(s[i])
    ensures n < |s| ==> !IsNumeral(s[n])
  {
    if s == [] || !IsNumeral(s[0]) then 0 else 1 + NumeralPrefix(s[1..])
  }

  lemma {:induction false} DigitsValueOfNatToString(n: nat)
    ensures DigitsValue(NatToString(n)) == n
  {
    if n >= 10 {
      var s := NatToString(n);
      assert s[..|s| - 1] == NatToString(n / 10);
      DigitsValueOfNatToString(n / 10);
    }
  }

  /** Reading back what `str(n)` wrote gives `n` again. */
  lemma ParseIntToString(n: int)
    ensures ParseInt(IntToString(n)) == Some(n)
  {
    if n < 0 {
      ParseNegative(-n);
    } else {
      ParseNatural(n);
    }
  }

  lemma ParseNatural(n: nat)
    ensures ParseInt(NatToString(n)) == Some(n)
  {
    DigitsValueOfNatToString(n);
    assert NatToString(n)[0] != '-';
  }

  lemma ParseNegative(n: nat)
    ensures ParseInt("-" + NatToString(n)) == Some(-(n as int))
  {
    var s := "-" + NatToString(n);
    assert s[1..] == NatToString(n);
    DigitsValueOfNatToString(n);
  }

  lemma IntToStringInjective(a: int, b: int)
    requires IntToString(a) == IntToString(b)
    ensures a == b
  {
    ParseIntToString(a);
    ParseIntToString(b);
  }

  lemma {:induction false} NumeralPrefixAfter(num: string, rest: string)
    requires forall i | 0 <= i < |num| :: IsNumeral(num[i])
    requires rest != [] && !IsNumeral(rest[0])
    ensures NumeralPrefix(num + rest) == |num|
    ensures (num + rest)[..|num|] == num
  {
    if num != [] {
      assert (num + rest)[1..] == num[1..] + rest;
      NumeralPrefixAfter(num[1..], rest);
    }
  }
}
