/**
 * Java's `int` and the decimal text that string concatenation gives for it
 * (`Integer.toString`), and a reader that gives the number back from that text.
 */
module Decimal {
  import opened Wrappers

  /** The values of a Java `int` (and of a non-null `Integer`). */
  type Int32 = x: int | -0x8000_0000 <= x < 0x8000_0000

  predicate IsDigit(c: char) {
    '0' <= c <= '9'
  }

  predicate AllDigits(s: string) {
    forall i :: 0 <= i < |s| ==> IsDigit(s[i])
  }

  function DigitChar(d: nat): (c: char)
    requires d < 10
    ensures IsDigit(c) && c as int - '0' as int == d
  {
    ('0' as int + d) as char
  }

  /** The shortest decimal digit string of `n`: no leading zero except for `0` itself. */
  function Digits(n: nat): (s: string)
    ensures |s| >= 1 && AllDigits(s)
    ensures s[0] == '0' ==> n == 0
    decreases n
  {
    if n < 10 then [DigitChar(n)] else Digits(n / 10) + [DigitChar(n % 10)]
  }

  /** What `"" + n` yields in Java: a minus sign for negatives, then the digits. */
  function DecimalString(n: Int32): (s: string)
    ensures |s| >= 1
    ensures '/' !in s && ':' !in s && '?' !in s
  {
    if n < 0 then "-" + Digits(-(n as int)) else Digits(n)
  }

  /** The number a non-empty digit string denotes. */
  function DigitsValue(s: string): (n: nat)
    requires AllDigits(s)
  {
    if s == [] then 0
    else DigitsValue(s[..|s| - 1]) * 10 + (s[|s| - 1] as int - '0' as int)
  }

  /** Reads back what `DecimalString` writes; anything else is `None`. */
  function ParseDecimal(s: string): Option<int> {
    if |s| >= 2 && s[0] == '-' && AllDigits(s[1..]) then Some(-(DigitsValue(s[1..]) as int))
    else if |s| >= 1 && AllDigits(s) then Some(DigitsValue(s))
    else None
  }

  lemma {:induction false} DigitsRoundTrip(n: nat)
    ensures DigitsValue(Digits(n)) == n
    decreases n
  {
    if n >= 10 {
      DigitsRoundTrip(n / 10);
      var s := Digits(n);
      assert s[..|s| - 1] == Digits(n / 10);
    }
  }

  /** The decimal text of a port determines the port. */
  lemma DecimalRoundTrip(n: Int32)
    ensures ParseDecimal(DecimalString(n)) == Some(n)
  {
    if n < 0 {
      DigitsRoundTrip(-(n as int));
      var s := DecimalString(n);
      assert s[1..] == Digits(-(n as int));
    } else {
      DigitsRoundTrip(n);
    }
  }
}
