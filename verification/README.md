# pngme chunk type codes, in Dafny

This project models `ChunkType`, the four-byte chunk type code of the `pngme`
tool. The tool hides messages in PNG files. A chunk type names a chunk, and
section 3.3 ("Chunk naming conventions") of the PNG 1.2 specification gives
meaning to bit 5 (value 32) of each of its bytes:

- byte 0: clear means critical, set means ancillary;
- byte 1: clear means public, set means private;
- byte 2: the reserved bit, which must be clear;
- byte 3: set means safe to copy.

The model covers these parts of the code type:

- building a code from four bytes, which always succeeds;
- parsing a code from a string (`FromStr`);
- the four property bits and the validity check;
- rendering a code as text (`Display`);
- the derived `Default`, equality and ordering.

Files:

- `utf8.dfy` (module `Utf8`): UTF-8 encoding, which gives `str::len` and `str::as_bytes`. It also holds the lossy decoding of `String::from_utf8_lossy`. The decoder follows Table 3-7 of the Unicode Standard. Each maximal ill-formed subpart becomes one U+FFFD, as Rust's `Utf8Chunks` does it. The module proves that decoding undoes encoding.
- `alphabetic.dfy` (module `Alphabetic`): `char::is_alphabetic`. It is written out for U+0000..U+00FF. Above U+00FF it is a parameter (see Left out).
- `chunk_type.dfy` (module `ChunkTypes`): the code itself, its properties, construction, rendering and ordering, with their lemmas.
- `chunk_type_examples.dfy` (module `ChunkTypeExamples`): the unit tests' cases as lemmas, plus non-ASCII cases.

Where the code and its documentation differ, the model follows the code:

- `is_valid` widens each byte to a `char` and asks `is_alphabetic`. So a byte-built code of Latin-1 letters such as `[0xC0, 0xC0, 0xC0, 0xE0]` is valid, even though the doc comment says "ASCII".
- `from_str` checks the UTF-8 byte length, not the number of characters. It uses Unicode `is_alphabetic`, not an ASCII test. So the two-character string "éé" (bytes `C3 A9 C3 A9`) is accepted. The resulting code is not valid, because `0xA9` is not a letter.
- `Display` replaces only ill-formed UTF-8 with U+FFFD. ASCII bytes that are not letters render as themselves.

## Model

| member | source | states |
|---|---|---|
| Utf8.EncodeChar | src/chunk_type.rs:72 | one character encodes to 1 to 4 bytes; it is one byte exactly when the character is ASCII, and then that byte is its code point; otherwise every byte is 0x80 or above |
| Utf8.Encode | src/chunk_type.rs:72 | the byte length `s.len()` is at least the character count, and equal to it exactly when every character is ASCII; an ASCII string is stored one byte per character |
| Utf8.DecodeStep | src/chunk_type.rs:56 | a decoding step consumes 1 to 4 bytes; a scalar value it reads re-encodes to exactly the bytes consumed; an ill-formed subpart is shorter than 4 bytes; an ASCII lead byte is read as itself |
| Utf8.DecodeLossy | src/chunk_type.rs:56 | lossy decoding never gives more characters than bytes, gives at least one character for non-empty input, and maps all-ASCII input one character per byte |
| Utf8.DecodeStepOfEncodeChar | src/chunk_type.rs:56 | a decoding step applied to the encoding of any character, followed by anything, reads back that character and consumes exactly its encoding |
| Utf8.DecodeLossyOfEncode | src/chunk_type.rs:56 | round trip: lossy decoding of the UTF-8 encoding of any string gives back the string |
| Alphabetic.AlphabeticExtendsAsciiLetters | src/chunk_type.rs:25 | every ASCII letter is alphabetic; no other ASCII character is; some Latin-1 characters outside ASCII (U+00AA, U+00B5, U+00C0) are too, and U+00A9, U+00D7, U+00F7 are not |
| Alphabetic.ByteAsCharIsLatin1 | src/chunk_type.rs:25 | a byte widened to a character is alphabetic exactly when it is in the Latin-1 table, whatever the Unicode tables say above U+00FF |
| ChunkTypes.Bit5IsMask | src/chunk_type.rs:33 | the bit read by the property tests is the one the 8-bit mask `& 32` selects |
| ChunkTypes.CaseIsBit5 | src/chunk_type.rs:32-51 | for an ASCII letter, bit 5 is set exactly when the letter is lower case |
| ChunkTypes.LetterCaseProperties | src/chunk_type.rs:32-51 | for a code of four ASCII letters: critical iff letter 1 is upper case, public iff letter 2 is upper case, reserved bit valid iff letter 3 is upper case, safe to copy iff letter 4 is lower case, and valid iff letter 3 is upper case |
| ChunkTypes.ValidIsCharAlphabetic | src/chunk_type.rs:20-26 | a code is valid exactly when its reserved bit is clear and every byte, widened to a character, passes the same `char::is_alphabetic` test that `from_str` applies, whatever that test says above U+00FF |
| ChunkTypes.ValidAsciiBytesAreLetters | src/chunk_type.rs:17-26 | in a valid code, every byte below 0x80 is an ASCII letter; bytes from 0x80 up are not restricted to ASCII |
| ChunkTypes.FromBytes | src/chunk_type.rs:63-65 | construction from any four bytes succeeds, and the code's bytes are exactly the bytes given |
| ChunkTypes.FromStr | src/chunk_type.rs:71-81 | accepted exactly when the UTF-8 encoding is four bytes and every character is alphabetic; a wrong length is the error reported whenever the length is wrong; the stored bytes are the encoding; an accepted string has 1 to 4 characters, and if it has 4, they are ASCII |
| ChunkTypes.AlphabeticEncodingHasOnlyLetterAscii | src/chunk_type.rs:72-79 | in the UTF-8 encoding of an all-alphabetic string, every byte below 0x80 is an ASCII letter |
| ChunkTypes.FromStrStoresLetters | src/chunk_type.rs:79-80 | an accepted string gives the same code as `try_from` applied to the string's own UTF-8 bytes, and none of the stored bytes is an ASCII non-letter |
| ChunkTypes.FromStrOfFourLetters | src/chunk_type.rs:71-81 | an accepted four-character string is four ASCII letters stored one per byte, and the code is valid exactly when the third letter is upper case |
| ChunkTypes.ToString | src/chunk_type.rs:54-57 | the rendering of a code has 1 to 4 characters; a code of four ASCII bytes renders as exactly those four characters |
| ChunkTypes.FromStrThenToString | src/chunk_type.rs:54-81 | rendering a code that `from_str` accepted gives back the original string, non-ASCII strings included |
| ChunkTypes.Default | src/chunk_type.rs:7 | the derived default code is critical, public, has a valid reserved bit, is not safe to copy and is not valid |
| ChunkTypes.CompareFrom | src/chunk_type.rs:7 | comparing from position i, with the bytes before i equal, gives Equal iff the byte arrays are equal, Less iff the first is lexicographically smaller, and Greater iff the second is |
| ChunkTypes.Compare | src/chunk_type.rs:7 | the derived ordering is Equal exactly when the codes are equal; otherwise Less or Greater as the first differing byte decides |
| ChunkTypes.LexLessIsNumericLess | src/chunk_type.rs:7 | lexicographic order on four bytes agrees with numeric order on their big-endian 32-bit value |
| ChunkTypes.CompareIsNumeric | src/chunk_type.rs:7 | comparing two codes is comparing their big-endian values; in particular two codes are equal iff their values are |
| ChunkTypes.CompareIsTotalOrder | src/chunk_type.rs:7 | the ordering is reflexive, antisymmetric (Less one way iff Greater the other) and transitive |
| ChunkTypeExamples.RuStFromBytesAndFromStr | src/chunk_type.rs:91-103 | `[82, 117, 83, 116]` keeps its bytes, "RuSt" parses to the same code, and the two compare Equal |
| ChunkTypeExamples.PropertyTable | src/chunk_type.rs:106-162 | "RuSt" is critical, not public, has a valid reserved bit, is safe to copy and is valid; "ruSt" is not critical; "RUSt" is public; "Rust" has an invalid reserved bit and is not valid; "RuST" is not safe to copy |
| ChunkTypeExamples.Rejections | src/chunk_type.rs:164-165 | "Ru1t" is rejected as not alphabetic; "RuStX", "R1" and "" are rejected for their length |
| ChunkTypeExamples.RuStToString | src/chunk_type.rs:168-172 | "RuSt" renders as "RuSt" |
| ChunkTypeExamples.TwoByteLetters | src/chunk_type.rs:72-80 | "éé" is four UTF-8 bytes and is accepted; the code it gives is not valid and renders as "éé" |
| ChunkTypeExamples.Latin1Code | src/chunk_type.rs:20-26 | the byte-built code `[0xC0, 0xC0, 0xC0, 0xE0]` is valid, and it renders as four U+FFFD because its bytes are not UTF-8 |
| ChunkTypeExamples.OrderingExamples | src/chunk_type.rs:7 | "IHDR" sorts after "IEND", and "RUST" before "RuSt" |

## Left out

- `char::is_alphabetic` above U+00FF: the Unicode tables of Rust's standard library are not modelled. `FromStr` takes them as the function parameter `beyondLatin1`, which is consulted only for characters above U+00FF. `is_valid` never reaches them, because a widened byte is at most U+00FF. Every lemma holds for any such function.
- Error payloads: the `anyhow` messages of `from_str` become the two variants `WrongLength` and `NotAlphabetic`. The `std::io::Error` of `try_from` is the `ConversionError` type, which is never produced.
- The `assert_eq!` and the fallible `try_into()?` of `from_str` (src/chunk_type.rs:78-79) cannot fail once the length check has passed, so the model has no path for them.
- `Debug` and `Clone` derives: no behaviour to model. The derived `PartialEq`/`Eq` is Dafny's equality on the `ChunkType` datatype. The derived `PartialOrd` returns the same ordering as `Ord`, which `Compare` models.
- The `bytes()` accessor is the datatype field `bytes`.
- src/chunk.rs and src/png.rs: the chunk record (length, payload, CRC-32) and the PNG container (signature, chunk list, lookup, append, removal) are not part of this model.
- src/main.rs: command-line dispatch, file reading and writing, and printing are I/O. The "Detect" heuristic relies on a floating-point ratio and on Unicode whitespace and control classification.
- src/args.rs: argument declarations only. Their `ChunkType` fields are parsed by `from_str`.
