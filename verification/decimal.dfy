/** PHP's conversions between integers and decimal strings, as used to
    build and read the level token of an access attribute. */
module Decimal {

  /** The largest PHP integer on a 64-bit build. */
  const PHP_INT_MAX: int := 0x7FFF_FFFF_FFFF_FFFF

  predicate IsDigit(c: char) {
    '0' <= c <= '9'
  }

  /** `ctype_digit` on a string: non-empty and made of decimal digits only,
      so no sign, no blank and no letter. */
  predicate IsDigits(s: string) {
    |s| > 0 && forall i :: 0 <= i < |s| ==> IsDigit(s[i])
  }

  /** A digit string holds no non-digit character. */
  lemma DigitsExclude(s: string, c: char)
    requires IsDigits(s) && !IsDigit(c)
    ensures c !in s
  {
  }

  function DigitChar(d: int): char
    requires 0 <= d < 10
  {
    ('0' as int + d) as char
  }

  /** The number a run of decimal digits denotes (leading zeros allowed). */
  function DigitsValue(s: string): nat
    requires forall i :: 0 <= i < |s| ==> IsDigit(s[i])
    decreases |s|
  {
    if |s| == 0 then 0
    else
      assert IsDigit(s[|s| - 1]);
      DigitsValue(s[..|s| - 1]) * 10 + (s[|s| - 1] as int - '0' as int)
  }

  /** The canonical decimal digits of a natural number. */
  function NatDigits(n: nat): (r: string)
    ensures IsDigits(r)
    ensures DigitsValue(r) == n
    decreases n
  {
    if n < 10 then [DigitChar(n)]
    else
      var r := NatDigits(n / 10) + [DigitChar(n % 10)];
      assert r[..|r| - 1] == NatDigits(n / 10);
      r
  }

  /** PHP's conversion of an int to a string: optional minus sign, then the
      digits of the magnitude. */
  function DecimalOf(n: int): string {
    if n < 0 then "-" + NatDigits(-n) else NatDigits(n)
  }

  /** `intval` of a digit string: its value, saturated at PHP_INT_MAX when it
      does not fit in a 64-bit integer. */
  function IntVal(s: string): (v: int)
    requires IsDigits(s)
    ensures 0 <= v <= PHP_INT_MAX
    ensures DigitsValue(s) <= PHP_INT_MAX ==> v == DigitsValue(s)
    ensures DigitsValue(s) > PHP_INT_MAX ==> v == PHP_INT_MAX
  {
    var d := DigitsValue(s);
    if d > PHP_INT_MAX then PHP_INT_MAX else d
  }

  /** A leading zero does not change the value of a digit run. */
  lemma {:induction false} LeadingZeroValue(s: string)
    requires forall i :: 0 <= i < |s| ==> IsDigit(s[i])
    ensures forall i :: 0 <= i < |"0" + s| ==> IsDigit(("0" + s)[i])
    ensures DigitsValue("0" + s) == DigitsValue(s)
    decreases |s|
  {
    assert forall i :: 0 <= i < |"0" + s| ==> IsDigit(("0" + s)[i]) by {
      forall i | 0 <= i < |"0" + s|
        ensures IsDigit(("0" + s)[i])
      {
        if i > 0 {
          assert ("0" + s)[i] == s[i - 1];
        }
      }
    }
    if |s| == 0 {
      assert DigitsValue("0"[..0]) == 0;
    } else {
      var init := s[..|s| - 1];
      LeadingZeroValue(init);
      assert ("0" + s)[..|s|] == "0" + init;
      assert ("0" + s)[|s|] == s[|s| - 1];
    }
  }

  /** `intval` ignores leading zeros: "007" reads as 7. */
  lemma IntValLeadingZero(s: string)
    requires IsDigits(s)
    ensures IsDigits("0" + s) && IntVal("0" + s) == IntVal(s)
  {
    LeadingZeroValue(s);
  }

  /** Printing a non-negative integer and reading it back gives it back;
      a negative one carries a sign that is not a digit. */
  lemma DecimalOfRoundTrip(n: int)
    ensures 0 <= n ==> IsDigits(DecimalOf(n))
    ensures 0 <= n <= PHP_INT_MAX ==> IntVal(DecimalOf(n)) == n
    ensures n < 0 ==> DecimalOf(n)[0] == '-' && !IsDigits(DecimalOf(n))
  {
  }
}
