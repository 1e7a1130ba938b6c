/** Decimal digits: the texts of numbers, with and without leading zeros, and their value. */
module Decimals {

  function Digit(d: nat): (c: char)
    requires d < 10
    ensures '0' <= c <= '9' && c as int == '0' as int + d
  {
    "0123456789"[d]
  }

  function DigitValue(c: char): int {
    c as int - '0' as int
  }

  /** The digits of a number without leading zeros. */
  function Digits(n: nat): (s: string)
    ensures s != []
  {
    if n < 10 then [Digit(n)] else Digits(n / 10) + [Digit(n % 10)]
  }

  /** The last `width` digits. */
  function FixedDigits(n: nat, width: nat): (s: string)
    ensures |s| == width
    decreases width, n
  {
    if width == 0 then [] else FixedDigits(n / 10, width - 1) + [Digit(n % 10)]
  }

  /** `int.ToString()`. */
  function Decimal(n: int): (s: string)
    ensures s != []
  {
    if n < 0 then "-" + Digits(-n) else Digits(n)
  }

  /** `int.ToString("D10")`. */
  function TenDigits(n: int): string {
    if n < 0 then "-" + FixedDigits(-n, 10) else FixedDigits(n, 10)
  }

  function Power10(n: nat): nat {
    if n == 0 then 1 else 10 * Power10(n - 1)
  }

  function ReadDigits(s: string): int {
    if s == [] then 0 else 10 * ReadDigits(s[..|s| - 1]) + DigitValue(s[|s| - 1])
  }

  lemma DigitReadBack(d: nat)
    requires d < 10
    ensures DigitValue(Digit(d)) == d
  {
  }

  lemma {:induction false} DigitsRoundTrip(n: nat)
    ensures ReadDigits(Digits(n)) == n
  {
    DigitReadBack(n % 10);
    if n < 10 {
      assert Digits(n)[..0] == [];
    } else {
      DigitsRoundTrip(n / 10);
      assert Digits(n)[..|Digits(n)| - 1] == Digits(n / 10);
    }
  }

  lemma {:induction false} FixedDigitsRoundTrip(n: nat, width: nat)
    requires n < Power10(width)
    ensures ReadDigits(FixedDigits(n, width)) == n
    decreases width
  {
    if width > 0 {
      DigitReadBack(n % 10);
      FixedDigitsRoundTrip(n / 10, width - 1);
      assert FixedDigits(n, width)[..width - 1] == FixedDigits(n / 10, width - 1);
    }
  }

  lemma DigitsInjective(x: nat, y: nat)
    requires Digits(x) == Digits(y)
    ensures x == y
  {
    DigitsRoundTrip(x);
    DigitsRoundTrip(y);
  }

  lemma TenDigitsRoundTrip(n: nat)
    requires n < 0x8000_0000
    ensures |TenDigits(n)| == 10 && ReadDigits(TenDigits(n)) == n
  {
    assert Power10(5) == 100000;
    assert Power10(10) == 10000000000;
    FixedDigitsRoundTrip(n, 10);
  }

  lemma TenDigitsInjective(x: nat, y: nat)
    requires x < 0x8000_0000 && y < 0x8000_0000 && TenDigits(x) == TenDigits(y)
    ensures x == y
  {
    TenDigitsRoundTrip(x);
    TenDigitsRoundTrip(y);
  }
}
