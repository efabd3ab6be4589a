/**
 Concrete chunk types: the cases the unit tests of `chunk_type.rs` pin down,
 and inputs outside ASCII where the code and its documentation part ways.
 Every statement holds whatever `char::is_alphabetic` says above U+00FF.
 */
module ChunkTypeExamples {
  import opened Utf8
  import opened ChunkTypes

  /** "RuSt" as bytes. */
  const RUST: Quad := [82, 117, 83, 116]

  /** Building from bytes and from the string "RuSt" gives the same code. */
  lemma RuStFromBytesAndFromStr(beyondLatin1: char -> bool)
    ensures FromBytes(RUST).value.bytes == RUST
    ensures FromStr("RuSt", beyondLatin1) == Success(FromBytes(RUST).value)
    ensures Compare(FromBytes(RUST).value, FromStr("RuSt", beyondLatin1).value) == Equal
  {
    assert AllAscii("RuSt");
    assert Encode("RuSt") == RUST;
  }

  /** The property table of the unit tests. */
  lemma PropertyTable(beyondLatin1: char -> bool)
    ensures var c := FromStr("RuSt", beyondLatin1);
      && c.Success? && IsCritical(c.value) && !IsPublic(c.value)
      && IsReservedBitValid(c.value) && IsSafeToCopy(c.value) && IsValid(c.value)
    ensures var c := FromStr("ruSt", beyondLatin1); c.Success? && !IsCritical(c.value)
    ensures var c := FromStr("RUSt", beyondLatin1); c.Success? && IsPublic(c.value)
    ensures var c := FromStr("Rust", beyondLatin1);
      c.Success? && !IsReservedBitValid(c.value) && !IsValid(c.value)
    ensures var c := FromStr("RuST", beyondLatin1); c.Success? && !IsSafeToCopy(c.value)
  {}

  /** A digit is not alphabetic; a wrong length is reported first. */
  lemma Rejections(beyondLatin1: char -> bool)
    ensures FromStr("Ru1t", beyondLatin1) == Failure(NotAlphabetic)
    ensures FromStr("RuStX", beyondLatin1) == Failure(WrongLength)
    ensures FromStr("R1", beyondLatin1) == Failure(WrongLength)
    ensures FromStr("", beyondLatin1) == Failure(WrongLength)
  {}

  /** "RuSt" renders as "RuSt". */
  lemma RuStToString(beyondLatin1: char -> bool)
    ensures ToString(FromStr("RuSt", beyondLatin1).value) == "RuSt"
  {
    FromStrThenToString("RuSt", beyondLatin1);
  }

  /** Two characters of two bytes each pass the four-byte length check, and
      the code they give stores bytes that are not letters, so it is not
      valid; it still renders as the string it came from. */
  lemma TwoByteLetters(beyondLatin1: char -> bool)
    ensures Encode("\U{E9}\U{E9}") == [0xC3, 0xA9, 0xC3, 0xA9]
    ensures FromStr("\U{E9}\U{E9}", beyondLatin1) == Success(ChunkType([0xC3, 0xA9, 0xC3, 0xA9]))
    ensures !IsValid(ChunkType([0xC3, 0xA9, 0xC3, 0xA9]))
    ensures ToString(ChunkType([0xC3, 0xA9, 0xC3, 0xA9])) == "\U{E9}\U{E9}"
  {
    var e := '\U{E9}';
    assert EncodeChar(e) == [0xC3, 0xA9];
    assert Encode([e]) == [0xC3, 0xA9] + Encode([]);
    assert Encode([e, e]) == [0xC3, 0xA9] + Encode([e]);
    FromStrThenToString("\U{E9}\U{E9}", beyondLatin1);
  }

  /** Four Latin-1 letters as raw bytes make a valid code that is not ASCII
      and whose bytes are not UTF-8, so each renders as U+FFFD. */
  lemma Latin1Code()
    ensures IsValid(ChunkType([0xC0, 0xC0, 0xC0, 0xE0]))
    ensures ToString(ChunkType([0xC0, 0xC0, 0xC0, 0xE0])) == [REPLACEMENT, REPLACEMENT, REPLACEMENT, REPLACEMENT]
  {}

  /** Ordering follows the bytes: upper case sorts before lower case. */
  lemma OrderingExamples()
    ensures Compare(ChunkType([73, 72, 68, 82]), ChunkType([73, 69, 78, 68])) == Greater
    ensures Compare(ChunkType([82, 85, 83, 84]), ChunkType(RUST)) == Less
  {}
}
