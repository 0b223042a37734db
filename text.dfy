/** The little string handling the texture loader needs: a case-insensitive
    prefix test for URLs and decimal formatting for error messages. */
module Text {

  /** ASCII lower case; other characters are left alone. */
  function Lower(c: char): char
  {
    if 'A' <= c <= 'Z' then (c as int + 32) as char else c
  }

  /** `s` starts with `prefix`, ignoring case. */
  function StartsWithIgnoringCase(s: string, prefix: string): (b: bool)
    ensures b <==> |prefix| <= |s| && forall i :: 0 <= i < |prefix| ==> Lower(s[i]) == Lower(prefix[i])
    decreases |prefix|
  {
    if prefix == [] then true
    else if s == [] then false
    else Lower(s[0]) == Lower(prefix[0]) && StartsWithIgnoringCase(s[1..], prefix[1..])
  }

  predicate IsDigit(c: char)
  {
    '0' <= c <= '9'
  }

  predicate AllDigits(s: string)
  {
    forall i :: 0 <= i < |s| ==> IsDigit(s[i])
  }

  /** The decimal digit for `d`. */
  function DigitChar(d: nat): (c: char)
    requires d < 10
    ensures IsDigit(c) && c as int - '0' as int == d
  {
    ('0' as int + d) as char
  }

  /** The number a string of decimal digits denotes, read most significant
      digit first. */
  function DecimalValue(s: string): nat
    requires AllDigits(s)
    decreases |s|
  {
    if s == [] then 0
    else DecimalValue(s[..|s| - 1]) * 10 + (s[|s| - 1] as int - '0' as int)
  }

  /** Decimal digits of `n`, most significant first. */
  function NatToString(n: nat): (s: string)
    ensures |s| > 0
    decreases n
  {
    if n < 10 then [DigitChar(n)] else NatToString(n / 10) + [DigitChar(n % 10)]
  }

  /** Decimal text of `n`, with a leading '-' when negative. */
  function IntToString(n: int): (s: string)
    ensures |s| > 0
  {
    if n < 0 then "-" + NatToString(-n) else NatToString(n)
  }

  /** The text of a natural number is plain decimal: digits only, reading
      back as the number, with no leading zero except for 0 itself. */
  lemma {:induction false} NatToStringDecimal(n: nat)
    ensures AllDigits(NatToString(n))
    ensures DecimalValue(NatToString(n)) == n
    ensures NatToString(n)[0] == '0' <==> n == 0
    decreases n
  {
    if n >= 10 {
      NatToStringDecimal(n / 10);
      var s := NatToString(n);
      assert s[..|s| - 1] == NatToString(n / 10);
    }
  }

  /** The text of an integer is a minus sign for negative numbers followed
      by the plain decimal text of its magnitude. */
  lemma IntToStringDecimal(n: int)
    ensures var s := IntToString(n);
      (s[0] == '-' <==> n < 0) &&
      (n < 0 ==> AllDigits(s[1..]) && DecimalValue(s[1..]) == -n && (s[1] != '0')) &&
      (n >= 0 ==> AllDigits(s) && DecimalValue(s) == n && (s[0] == '0' <==> n == 0))
  {
    if n < 0 {
      NatToStringDecimal(-n);
      assert IntToString(n)[1..] == NatToString(-n);
    } else {
      NatToStringDecimal(n);
    }
  }

  /** Two values as they appear in messages. */
  lemma DecimalText()
    ensures IntToString(16384) == "16384"
    ensures IntToString(-1) == "-1"
  {
  }
}
