/** The ASCII character classes the version script's patterns are written in. */
module Ascii {

  /** `[0-9]` */
  predicate IsDigit(c: char) {
    '0' <= c <= '9'
  }

  predicate IsUpper(c: char) {
    'A' <= c <= 'Z'
  }

  predicate IsLowerLetter(c: char) {
    'a' <= c <= 'z'
  }

  /** `[a-zA-Z0-9-]`: the characters SemVer allows in an identifier, and the ones
      branch sanitisation keeps. */
  predicate IsIdentifierChar(c: char) {
    IsUpper(c) || IsLowerLetter(c) || IsDigit(c) || c == '-'
  }

  /** `[a-zA-Z0-9.-]`: the characters the tag pattern allows in a prerelease. */
  predicate IsPrereleaseChar(c: char) {
    IsIdentifierChar(c) || c == '.'
  }

  /** `[a-z0-9-]`: what survives branch sanitisation. */
  predicate IsSanitisedChar(c: char) {
    IsLowerLetter(c) || IsDigit(c) || c == '-'
  }

  /** `str.lower()` on one character, restricted to ASCII: only `A`-`Z` change. */
  function Lower(c: char): char {
    if IsUpper(c) then (c as int - 'A' as int + 'a' as int) as char else c
  }

  /** Every character is a digit (the empty string included). */
  predicate AllDigits(s: string) {
    forall i :: 0 <= i < |s| ==> IsDigit(s[i])
  }

  /** `[0-9]+` */
  predicate IsDigits(s: string) {
    |s| > 0 && AllDigits(s)
  }

  /** A digit string without a superfluous leading zero, as `str()` writes a number. */
  predicate IsCanonicalDigits(s: string) {
    IsDigits(s) && (|s| == 1 || s[0] != '0')
  }
}
