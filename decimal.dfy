/** Decimal digit strings.

    The formatter renders integral counts with FormatUint, FormatInt and
    FormatFloat (format 'f', precision -1) applied to an integral quotient; all
    three print the plain decimal digits of a natural number, which is what
    Digits does.  The parser hands the numeric literal to ParseFloat; this model
    accepts only unsigned digit strings there and gives them their exact value.
 */
module Decimal {

  predicate IsDigit(c: char) {
    '0' <= c <= '9'
  }

  predicate IsDigits(s: string) {
    forall i :: 0 <= i < |s| ==> IsDigit(s[i])
  }

  function DigitValue(c: char): (d: nat)
    requires IsDigit(c)
    ensures d < 10
  {
    c as int - '0' as int
  }

  function DigitChar(d: nat): (c: char)
    requires d < 10
    ensures IsDigit(c) && DigitValue(c) == d
  {
    ('0' as int + d) as char
  }

  /** The natural number a digit string denotes, most significant digit first. */
  function Value(s: string): (v: nat)
    requires IsDigits(s)
    ensures |s| >= 1 && s[0] == '0' ==> v == Value(s[1..])
  {
    if s == [] then 0
    else
      var init := s[..|s| - 1];
      assert |s| >= 2 ==> init[1..] == s[1..][..|s| - 2];
      10 * Value(init) + DigitValue(s[|s| - 1])
  }

  /** A non-empty digit string without a leading zero (except "0" itself). */
  predicate IsCanonical(s: string) {
    IsDigits(s) && |s| >= 1 && (s[0] == '0' ==> |s| == 1)
  }

  /** The base-10 spelling of n. */
  function Digits(n: nat): (s: string)
    ensures IsCanonical(s) && Value(s) == n
    ensures |s| == 1 <==> n < 10
  {
    if n < 10 then [DigitChar(n)]
    else
      var init := Digits(n / 10);
      var s := init + [DigitChar(n % 10)];
      assert s[..|s| - 1] == init;
      s
  }

  lemma {:induction false} ValuePositive(s: string)
    requires IsDigits(s) && |s| >= 1 && s[0] != '0'
    ensures Value(s) >= 1
  {
    if |s| > 1 {
      ValuePositive(s[..|s| - 1]);
    }
  }

  /** Reading a canonical digit string and spelling its value gives the string back. */
  lemma {:induction false} DigitsOfValue(s: string)
    requires IsCanonical(s)
    ensures Digits(Value(s)) == s
  {
    var last := s[|s| - 1];
    if |s| == 1 {
      assert DigitChar(DigitValue(last)) == last;
      assert s == [last];
    } else {
      var init := s[..|s| - 1];
      ValuePositive(init);
      DigitsOfValue(init);
      assert Value(s) / 10 == Value(init) && Value(s) % 10 == DigitValue(last);
      assert DigitChar(DigitValue(last)) == last;
      assert s == init + [last];
    }
  }
}
