/**
 The chunk type code of a PNG file: four bytes naming a chunk, whose
 meaning is fixed by section 3.3 ("Chunk naming conventions") of the PNG 1.2
 specification. Bit 5 (value 32) of each byte carries one property: of the
 first byte, ancillary; of the second, private; of the third, the reserved
 bit; of the fourth, safe to copy.

 A code is built from any four bytes, or from a string whose UTF-8 encoding
 is four bytes long and whose characters are all alphabetic. Validity is a
 separate query. Codes are compared byte by byte.
 */
module ChunkTypes {
  import opened Utf8
  import opened Alphabetic

  /** Four bytes (Rust's `[u8; 4]`). */
  type Quad = s: seq<byte> | |s| == 4 witness [0, 0, 0, 0]

  datatype ChunkType = ChunkType(bytes: Quad)

  datatype Result<+T, +E> = Success(value: T) | Failure(error: E)

  /** The error type of the conversion from four bytes, which never fails. */
  datatype ConversionError = ConversionError

  /** Why a string is not accepted as a chunk type. */
  datatype ParseError =
    | WrongLength    // the UTF-8 encoding is not four bytes long
    | NotAlphabetic  // some character is not alphabetic

  /** Bit 5 of a byte: the test `b & 32 != 0`. */
  predicate Bit5(b: byte) {
    b / 32 % 2 == 1
  }

  /** `Bit5` reads the same bit as the mask 0x20 on an 8-bit value. */
  lemma Bit5IsMask(b: byte)
    ensures Bit5(b) <==> (b as bv8) & 0x20 != 0
  {}

  // ---------------------------------------------------------------------
  // Properties

  /** Critical chunks are needed to display the image; others are ancillary. */
  predicate IsCritical(ct: ChunkType) {
    !Bit5(ct.bytes[0])
  }

  /** Public chunks are defined by the PNG specification; others are private. */
  predicate IsPublic(ct: ChunkType) {
    !Bit5(ct.bytes[1])
  }

  /** The reserved bit must be clear in a conforming code. */
  predicate IsReservedBitValid(ct: ChunkType) {
    !Bit5(ct.bytes[2])
  }

  /** A safe-to-copy chunk may be copied by an editor that does not know it. */
  predicate IsSafeToCopy(ct: ChunkType) {
    Bit5(ct.bytes[3])
  }

  /** Valid: the reserved bit is clear and every byte, widened to a
      character, is alphabetic. Widening a byte gives U+0000..U+00FF, so the
      Latin-1 letters pass as well as the ASCII ones. */
  predicate IsValid(ct: ChunkType) {
    && IsReservedBitValid(ct)
    && forall i | 0 <= i < 4 :: IsAlphabeticLatin1(ct.bytes[i])
  }

  /** An upper-case ASCII letter has bit 5 clear, a lower-case one has it set. */
  lemma CaseIsBit5(cp: byte)
    requires IsAsciiLetter(cp)
    ensures Bit5(cp) <==> IsAsciiLower(cp)
  {}

  /** For a code of four ASCII letters, each property is the case of one
      letter, as section 3.3 of the PNG 1.2 specification describes it, and
      validity is an upper-case third letter. */
  lemma {:induction false} LetterCaseProperties(ct: ChunkType)
    requires forall i | 0 <= i < 4 :: IsAsciiLetter(ct.bytes[i])
    ensures IsCritical(ct) <==> IsAsciiUpper(ct.bytes[0])
    ensures IsPublic(ct) <==> IsAsciiUpper(ct.bytes[1])
    ensures IsReservedBitValid(ct) <==> IsAsciiUpper(ct.bytes[2])
    ensures IsSafeToCopy(ct) <==> IsAsciiLower(ct.bytes[3])
    ensures IsValid(ct) <==> IsAsciiUpper(ct.bytes[2])
  {
    forall i | 0 <= i < 4 {
      CaseIsBit5(ct.bytes[i]);
    }
    AlphabeticExtendsAsciiLetters();
  }

  /** Validity as `is_valid` computes it: the reserved bit is clear and each
      byte, widened to a character, passes `char::is_alphabetic`, the same
      test `FromStr` applies; the Unicode tables above U+00FF never matter. */
  lemma {:induction false} ValidIsCharAlphabetic(ct: ChunkType, beyondLatin1: char -> bool)
    ensures IsValid(ct) <==>
      && IsReservedBitValid(ct)
      && forall i | 0 <= i < 4 :: IsAlphabetic(ct.bytes[i] as char, beyondLatin1)
  {
    forall i | 0 <= i < 4 {
      ByteAsCharIsLatin1(ct.bytes[i], beyondLatin1);
    }
  }

  /** What validity keeps of "ASCII": a byte of a valid code that is below
      0x80 is an ASCII letter. Bytes from 0x80 up may be Latin-1 letters. */
  lemma ValidAsciiBytesAreLetters(ct: ChunkType)
    requires IsValid(ct)
    ensures forall i | 0 <= i < 4 :: ct.bytes[i] < 0x80 ==> IsAsciiLetter(ct.bytes[i])
  {
    AlphabeticExtendsAsciiLetters();
  }

  // ---------------------------------------------------------------------
  // Construction

  /** `ChunkType::try_from([u8; 4])`: always succeeds and keeps the bytes. */
  function FromBytes(b: Quad): (r: Result<ChunkType, ConversionError>)
    ensures r.Success? && r.value.bytes == b
  {
    Success(ChunkType(b))
  }

  /** `ChunkType::from_str`. The length checked is that of the UTF-8
      encoding, not the number of characters; the characters are checked with
      `char::is_alphabetic`, which `beyondLatin1` completes above U+00FF. On
      success the encoding is stored as it is, case included. */
  function FromStr(s: string, beyondLatin1: char -> bool): (r: Result<ChunkType, ParseError>)
    ensures r.Success? <==> |Encode(s)| == 4 && AllAlphabetic(s, beyondLatin1)
    ensures r.Failure? ==> (r.error == WrongLength <==> |Encode(s)| != 4)
    ensures r.Success? ==> r.value.bytes == Encode(s)
    ensures r.Success? ==> 1 <= |s| <= 4
    ensures r.Success? && |s| == 4 ==> AllAscii(s)
  {
    var utf8 := Encode(s);
    if |utf8| != 4 then Failure(WrongLength)
    else if !AllAlphabetic(s, beyondLatin1) then Failure(NotAlphabetic)
    else Success(ChunkType(utf8))
  }

  /** In the UTF-8 encoding of an alphabetic string, every byte below 0x80 is
      an ASCII letter: multi-byte encodings use only bytes from 0x80 up. */
  lemma {:induction false} AlphabeticEncodingHasOnlyLetterAscii(s: string, beyondLatin1: char -> bool)
    requires AllAlphabetic(s, beyondLatin1)
    ensures forall i | 0 <= i < |Encode(s)| :: Encode(s)[i] < 0x80 ==> IsAsciiLetter(Encode(s)[i])
  {
    if s != [] {
      var head, tail := EncodeChar(s[0]), Encode(s[1..]);
      assert AllAlphabetic(s[1..], beyondLatin1) by {
        forall i | 0 <= i < |s[1..]| ensures IsAlphabetic(s[1..][i], beyondLatin1) {
          assert s[1..][i] == s[i + 1];
        }
      }
      AlphabeticEncodingHasOnlyLetterAscii(s[1..], beyondLatin1);
      AlphabeticExtendsAsciiLetters();
      assert IsAlphabetic(s[0], beyondLatin1);
      forall i | 0 <= i < |Encode(s)| && Encode(s)[i] < 0x80
        ensures IsAsciiLetter(Encode(s)[i])
      {
        if i >= |head| {
          assert Encode(s)[i] == tail[i - |head|];
        }
      }
    }
  }

  /** What `from_str` stores: the same code as `try_from` on the string's
      bytes, with no ASCII byte other than a letter. */
  lemma FromStrStoresLetters(s: string, beyondLatin1: char -> bool)
    requires FromStr(s, beyondLatin1).Success?
    ensures FromStr(s, beyondLatin1).value == FromBytes(Encode(s)).value
    ensures forall i | 0 <= i < 4 :: var b := FromStr(s, beyondLatin1).value.bytes[i];
              b < 0x80 ==> IsAsciiLetter(b)
  {
    AlphabeticEncodingHasOnlyLetterAscii(s, beyondLatin1);
  }

  /** A string of four characters that `from_str` accepts is four ASCII
      letters stored one per byte, so the code it gives is valid exactly when
      the third letter is upper case. */
  lemma FromStrOfFourLetters(s: string, beyondLatin1: char -> bool)
    requires |s| == 4 && FromStr(s, beyondLatin1).Success?
    ensures forall i | 0 <= i < 4 :: FromStr(s, beyondLatin1).value.bytes[i] == s[i] as int
    ensures forall i | 0 <= i < 4 :: IsAsciiLetter(s[i] as int)
    ensures IsValid(FromStr(s, beyondLatin1).value) <==> IsAsciiUpper(s[2] as int)
  {
    var ct := FromStr(s, beyondLatin1).value;
    FromStrStoresLetters(s, beyondLatin1);
    LetterCaseProperties(ct);
  }

  // ---------------------------------------------------------------------
  // Display

  /** `Display` for a chunk type: the bytes decoded as UTF-8, lossily. */
  function ToString(ct: ChunkType): (r: string)
    ensures 1 <= |r| <= 4
    ensures AllAsciiBytes(ct.bytes) ==>
              r == [ct.bytes[0] as char, ct.bytes[1] as char, ct.bytes[2] as char, ct.bytes[3] as char]
  {
    DecodeLossy(ct.bytes)
  }

  /** Rendering a code parsed from a string gives back that string. The
      command line relies on it: the type a user names is parsed, then looked
      up by its rendered form. */
  lemma FromStrThenToString(s: string, beyondLatin1: char -> bool)
    requires FromStr(s, beyondLatin1).Success?
    ensures ToString(FromStr(s, beyondLatin1).value) == s
  {
    DecodeLossyOfEncode(s);
  }

  // ---------------------------------------------------------------------
  // Default, equality and ordering

  /** The derived `Default`: four zero bytes. */
  function Default(): (ct: ChunkType)
    ensures IsCritical(ct) && IsPublic(ct) && IsReservedBitValid(ct)
    ensures !IsSafeToCopy(ct) && !IsValid(ct)
  {
    ChunkType([0, 0, 0, 0])
  }

  datatype Ordering = Less | Equal | Greater

  /** Lexicographic order: at the first byte where they differ, `x` is smaller. */
  ghost predicate LexLess(x: Quad, y: Quad) {
    exists k | 0 <= k < 4 :: x[..k] == y[..k] && x[k] < y[k]
  }

  /** The four bytes read as one big-endian unsigned 32-bit number, the way a
      PNG file stores the chunk type field. */
  function BigEndian(x: Quad): nat {
    ((x[0] as int * 0x100 + x[1]) * 0x100 + x[2]) * 0x100 + x[3]
  }

  /** Compares from byte `i` on, the bytes before `i` being equal. */
  function CompareFrom(x: Quad, y: Quad, i: nat): (o: Ordering)
    requires i <= 4 && x[..i] == y[..i]
    ensures o == Equal <==> x == y
    ensures o == Less <==> LexLess(x, y)
    ensures o == Greater <==> LexLess(y, x)
    decreases 4 - i
  {
    if i == 4 then
      assert x == x[..4] && y == y[..4];
      Equal
    else if x[i] < y[i] then
      assert x[..i] == y[..i] && x[i] < y[i];
      Less
    else if y[i] < x[i] then
      assert y[..i] == x[..i] && y[i] < x[i];
      Greater
    else
      assert x[..i + 1] == x[..i] + [x[i]] && y[..i + 1] == y[..i] + [y[i]];
      CompareFrom(x, y, i + 1)
  }

  /** The derived `Ord`: byte-wise, so equal exactly when the bytes are. */
  function Compare(a: ChunkType, b: ChunkType): (o: Ordering)
    ensures o == Equal <==> a == b
    ensures o == Less <==> LexLess(a.bytes, b.bytes)
    ensures o == Greater <==> LexLess(b.bytes, a.bytes)
  {
    CompareFrom(a.bytes, b.bytes, 0)
  }

  /** Lexicographic order on four bytes is numeric order on their big-endian value. */
  lemma LexLessIsNumericLess(x: Quad, y: Quad)
    ensures LexLess(x, y) <==> BigEndian(x) < BigEndian(y)
  {
    if LexLess(x, y) {
      var k :| 0 <= k < 4 && x[..k] == y[..k] && x[k] < y[k];
      assert forall j | 0 <= j < k :: x[j] == x[..k][j] == y[..k][j] == y[j];
    } else {
      assert !(x[..0] == y[..0] && x[0] < y[0]);
      if x[0] == y[0] {
        assert x[..1] == y[..1];
        if x[1] == y[1] {
          assert x[..2] == y[..2];
          if x[2] == y[2] {
            assert x[..3] == y[..3];
          }
        }
      }
    }
  }

  /** Comparison of chunk types is comparison of their big-endian values. */
  lemma CompareIsNumeric(a: ChunkType, b: ChunkType)
    ensures Compare(a, b) == Less <==> BigEndian(a.bytes) < BigEndian(b.bytes)
    ensures Compare(a, b) == Equal <==> BigEndian(a.bytes) == BigEndian(b.bytes)
    ensures Compare(a, b) == Greater <==> BigEndian(a.bytes) > BigEndian(b.bytes)
  {
    LexLessIsNumericLess(a.bytes, b.bytes);
    LexLessIsNumericLess(b.bytes, a.bytes);
  }

  /** `Compare` is a total order: reflexive on `Equal`, antisymmetric and transitive. */
  lemma CompareIsTotalOrder(a: ChunkType, b: ChunkType, c: ChunkType)
    ensures Compare(a, a) == Equal
    ensures Compare(a, b) == Less <==> Compare(b, a) == Greater
    ensures Compare(a, b) == Less && Compare(b, c) == Less ==> Compare(a, c) == Less
  {
    CompareIsNumeric(a, b);
    CompareIsNumeric(b, a);
    CompareIsNumeric(b, c);
    CompareIsNumeric(a, c);
  }
}
