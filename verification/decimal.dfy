/** Decimal numerals: Python's `int()` on a digit string and `str()`/f-string formatting of an integer. */
module Decimal {
  import opened Ascii

  function DigitValue(c: char): nat
    requires IsDigit(c)
  {
    c as int - '0' as int
  }

  function DigitChar(d: nat): char
    requires d < 10
  {
    ('0' as int + d) as char
  }

  /** `int(d)` for a string of ASCII digits: its value in base 10 (0 for the empty string). */
  function DigitsValue(d: string): nat
    requires AllDigits(d)
  {
    if |d| == 0 then 0 else 10 * DigitsValue(d[..|d| - 1]) + DigitValue(d[|d| - 1])
  }

  /** `str(n)` for a natural number: the canonical decimal spelling, which `int()` reads back as `n`. */
  function NatToString(n: nat): (s: string)
    ensures IsCanonicalDigits(s)
    ensures DigitsValue(s) == n
    decreases n
  {
    if n < 10 then [DigitChar(n)]
    else
      var prefix := NatToString(n / 10);
      var s := prefix + [DigitChar(n % 10)];
      assert s[..|s| - 1] == prefix;
      s
  }

  /** `str(i)` (and `f"{i}"`) for any integer: a minus sign before the spelling of `-i` when negative. */
  function IntToString(i: int): (s: string)
    ensures i >= 0 ==> IsCanonicalDigits(s) && DigitsValue(s) == i
    ensures i < 0 ==> |s| > 1 && s[0] == '-' && IsCanonicalDigits(s[1..]) && DigitsValue(s[1..]) == -i
  {
    if i < 0 then "-" + NatToString(-i) else NatToString(i)
  }

  /** A digit string whose first digit is not zero has a positive value. */
  lemma {:induction false} NonZeroLeadPositive(d: string)
    requires IsDigits(d) && d[0] != '0'
    ensures DigitsValue(d) > 0
    decreases |d|
  {
    if |d| > 1 {
      NonZeroLeadPositive(d[..|d| - 1]);
    }
  }

  /** `str(int(d)) == d` for a canonical digit string: canonical spellings are unique. */
  lemma {:induction false} CanonicalRoundTrip(d: string)
    requires IsCanonicalDigits(d)
    ensures NatToString(DigitsValue(d)) == d
    decreases |d|
  {
    if |d| > 1 {
      var prefix := d[..|d| - 1];
      assert IsCanonicalDigits(prefix);
      NonZeroLeadPositive(prefix);
      CanonicalRoundTrip(prefix);
      assert d == prefix + [d[|d| - 1]];
    }
  }

  /** `int()` ignores a leading zero. */
  lemma {:induction false} LeadingZeroIgnored(d: string)
    requires AllDigits(d)
    ensures DigitsValue("0" + d) == DigitsValue(d)
    decreases |d|
  {
    if |d| > 0 {
      var z := "0" + d;
      assert z[..|z| - 1] == "0" + d[..|d| - 1];
      LeadingZeroIgnored(d[..|d| - 1]);
    }
  }
}
