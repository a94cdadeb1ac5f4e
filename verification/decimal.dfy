/** Decimal text for integers, as Java's string concatenation writes a `long`
    or an `int`: an optional minus sign followed by the digits, with no
    leading zeros. Used by the printable forms of primitives and constants. */
module Decimal {

  predicate IsDigit(c: char) { '0' <= c <= '9' }

  function DigitChar(d: nat): (c: char)
    requires d < 10
    ensures IsDigit(c)
  {
    ['0', '1', '2', '3', '4', '5', '6', '7', '8', '9'][d]
  }

  function DigitValue(c: char): (d: nat)
    requires IsDigit(c)
    ensures d < 10
  {
    (c as int) - ('0' as int)
  }

  lemma DigitRoundTrip(d: nat)
    requires d < 10
    ensures DigitValue(DigitChar(d)) == d
  {
  }

  /** The digits of a natural number, most significant first. */
  function Digits(n: nat): (s: string)
    ensures |s| >= 1
    ensures forall i :: 0 <= i < |s| ==> IsDigit(s[i])
    ensures |s| > 1 ==> s[0] != '0'
    decreases n
  {
    if n < 10 then [DigitChar(n)] else Digits(n / 10) + [DigitChar(n % 10)]
  }

  /** The value of a string of digits. */
  function ParseDigits(s: string): nat
    requires forall i :: 0 <= i < |s| ==> IsDigit(s[i])
    decreases |s|
  {
    if |s| == 0 then 0 else 10 * ParseDigits(s[..|s| - 1]) + DigitValue(s[|s| - 1])
  }

  lemma {:induction false} DigitsRoundTrip(n: nat)
    ensures ParseDigits(Digits(n)) == n
    decreases n
  {
    if n >= 10 {
      DigitsRoundTrip(n / 10);
      var s := Digits(n);
      assert s[..|s| - 1] == Digits(n / 10);
      DigitRoundTrip(n % 10);
    } else {
      DigitRoundTrip(n);
    }
  }

  /** Java's decimal rendering of an integer. */
  function Show(x: int): (s: string)
    ensures |s| >= 1
    ensures x < 0 <==> s[0] == '-'
  {
    if x < 0 then "-" + Digits(-x) else Digits(x)
  }

  /** Reads back what `Show` writes. */
  function Parse(s: string): int
    requires |s| >= 1
    requires s[0] == '-' ==> forall i :: 1 <= i < |s| ==> IsDigit(s[i])
    requires s[0] != '-' ==> forall i :: 0 <= i < |s| ==> IsDigit(s[i])
  {
    if s[0] == '-' then -(ParseDigits(s[1..]) as int) else ParseDigits(s)
  }

  /** `Show` loses nothing: every integer is recovered from its text, so two
      integers with the same text are equal. */
  lemma ShowRoundTrip(x: int)
    ensures Parse(Show(x)) == x
  {
    var s := Show(x);
    if x < 0 {
      var ds := Digits(-x);
      assert s == "-" + ds && s[1..] == ds;
      DigitsRoundTrip(-x);
    } else {
      assert s == Digits(x);
      assert s[0] != '-' by {
        assert IsDigit(s[0]);
      }
      DigitsRoundTrip(x);
    }
  }

  lemma ShowInjective(x: int, y: int)
    requires Show(x) == Show(y)
    ensures x == y
  {
    ShowRoundTrip(x);
    ShowRoundTrip(y);
  }
}
