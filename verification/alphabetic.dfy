/**
 The Unicode `Alphabetic` property as Rust's `char::is_alphabetic` reports it.

 Below U+0100 the property is written out: the ASCII letters and the Latin-1
 letters, which are not ASCII. Above U+00FF, `char::is_alphabetic` looks the
 character up in the Unicode tables compiled into the standard library. Those
 tables are not modelled here, so callers pass them in as `beyondLatin1`.
 */
module Alphabetic {

  predicate IsAsciiUpper(cp: int) {
    'A' as int <= cp <= 'Z' as int
  }

  predicate IsAsciiLower(cp: int) {
    'a' as int <= cp <= 'z' as int
  }

  predicate IsAsciiLetter(cp: int) {
    IsAsciiUpper(cp) || IsAsciiLower(cp)
  }

  /** The `Alphabetic` property on code points U+0000..U+00FF: the ASCII
      letters, the ordinal indicators U+00AA and U+00BA, MICRO SIGN U+00B5, and
      the Latin-1 letters U+00C0..U+00FF except U+00D7 (multiplication sign)
      and U+00F7 (division sign). */
  predicate IsAlphabeticLatin1(cp: int) {
    || IsAsciiLetter(cp)
    || cp == 0xAA || cp == 0xB5 || cp == 0xBA
    || (0xC0 <= cp <= 0xD6)
    || (0xD8 <= cp <= 0xF6)
    || (0xF8 <= cp <= 0xFF)
  }

  /** `char::is_alphabetic`. */
  predicate IsAlphabetic(c: char, beyondLatin1: char -> bool) {
    if c as int < 0x100 then IsAlphabeticLatin1(c as int) else beyondLatin1(c)
  }

  /** `s.chars().all(char::is_alphabetic)`. */
  predicate AllAlphabetic(s: string, beyondLatin1: char -> bool) {
    forall i | 0 <= i < |s| :: IsAlphabetic(s[i], beyondLatin1)
  }

  /** The ASCII letters are alphabetic, and inside ASCII they are the only
      alphabetic characters; outside ASCII some Latin-1 characters are too. */
  lemma AlphabeticExtendsAsciiLetters()
    ensures forall cp :: IsAsciiLetter(cp) ==> IsAlphabeticLatin1(cp)
    ensures forall cp | 0 <= cp < 0x80 :: IsAlphabeticLatin1(cp) ==> IsAsciiLetter(cp)
    ensures IsAlphabeticLatin1(0xAA) && IsAlphabeticLatin1(0xB5) && IsAlphabeticLatin1(0xC0)
    ensures !IsAlphabeticLatin1(0xA9) && !IsAlphabeticLatin1(0xD7) && !IsAlphabeticLatin1(0xF7)
  {}

  /** A byte widened to a character (`byte as char`) is alphabetic exactly when
      its code point is in the Latin-1 table, whatever lies beyond Latin-1. */
  lemma ByteAsCharIsLatin1(b: int, beyondLatin1: char -> bool)
    requires 0 <= b < 0x100
    ensures IsAlphabetic(b as char, beyondLatin1) <==> IsAlphabeticLatin1(b)
  {}
}
