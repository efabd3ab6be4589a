/**
 UTF-8 as Rust's string types use it: the encoding behind `str::len` and
 `str::as_bytes`, and the lossy decoding of `String::from_utf8_lossy`.

 Characters are Unicode scalar values (Dafny's `char`). Encoding follows
 Table 3-6 of the Unicode Standard; decoding accepts exactly the well-formed
 byte sequences of Table 3-7 and replaces each maximal ill-formed subpart
 with U+FFFD, one replacement per subpart, as Rust's `Utf8Chunks` does.
 */
module Utf8 {

  /** An unsigned 8-bit integer (Rust's `u8`). */
  type byte = b: int | 0 <= b < 0x100

  /** U+FFFD REPLACEMENT CHARACTER, written for every ill-formed subpart. */
  const REPLACEMENT: char := '\U{FFFD}'

  predicate IsAscii(c: char) {
    c as int < 0x80
  }

  predicate AllAscii(s: string) {
    forall i | 0 <= i < |s| :: IsAscii(s[i])
  }

  predicate AllAsciiBytes(b: seq<byte>) {
    forall i | 0 <= i < |b| :: b[i] < 0x80
  }

  /** The UTF-8 encoding of one scalar value (Table 3-6): one byte below
      U+0080, two below U+0800, three below U+10000, four above. */
  function EncodeChar(c: char): (r: seq<byte>)
    ensures 1 <= |r| <= 4
    ensures |r| == 1 <==> IsAscii(c)
    ensures IsAscii(c) ==> r[0] == c as int
    ensures !IsAscii(c) ==> forall i | 0 <= i < |r| :: r[i] >= 0x80
  {
    var cp := c as int;
    if cp < 0x80 then [cp]
    else if cp < 0x800 then [0xC0 + cp / 0x40, 0x80 + cp % 0x40]
    else if cp < 0x10000 then
      [0xE0 + cp / 0x40 / 0x40, 0x80 + cp / 0x40 % 0x40, 0x80 + cp % 0x40]
    else
      [ 0xF0 + cp / 0x40 / 0x40 / 0x40, 0x80 + cp / 0x40 / 0x40 % 0x40,
        0x80 + cp / 0x40 % 0x40, 0x80 + cp % 0x40 ]
  }

  /** The UTF-8 encoding of a string: what `str::as_bytes` returns. */
  function Encode(s: string): (r: seq<byte>)
    ensures |r| >= |s|
    ensures |r| == |s| <==> AllAscii(s)
    ensures AllAscii(s) ==> forall i | 0 <= i < |s| :: r[i] == s[i] as int
    ensures |s| > 0 ==> |r| > 0
  {
    if s == [] then [] else EncodeChar(s[0]) + Encode(s[1..])
  }

  predicate IsContinuation(b: byte) {
    0x80 <= b <= 0xBF
  }

  /** Whether `b1` may follow the lead byte `b0` of a three-byte sequence (Table 3-7). */
  predicate SecondOfThree(b0: byte, b1: byte) {
    || (b0 == 0xE0 && 0xA0 <= b1 <= 0xBF)
    || (0xE1 <= b0 <= 0xEC && 0x80 <= b1 <= 0xBF)
    || (b0 == 0xED && 0x80 <= b1 <= 0x9F)
    || (0xEE <= b0 <= 0xEF && 0x80 <= b1 <= 0xBF)
  }

  /** Whether `b1` may follow the lead byte `b0` of a four-byte sequence (Table 3-7). */
  predicate SecondOfFour(b0: byte, b1: byte) {
    || (b0 == 0xF0 && 0x90 <= b1 <= 0xBF)
    || (0xF1 <= b0 <= 0xF3 && 0x80 <= b1 <= 0xBF)
    || (b0 == 0xF4 && 0x80 <= b1 <= 0x8F)
  }

  /** What one decoding step finds at the front of a byte sequence: a
      well-formed scalar value, or an ill-formed subpart of `width` bytes. */
  datatype Step = Scalar(c: char, width: nat) | Invalid(width: nat)

  /** Appending six low bits to a number and splitting them off again. */
  lemma SixBits(q: int, r: int)
    requires 0 <= q && 0 <= r < 0x40
    ensures (q * 0x40 + r) / 0x40 == q && (q * 0x40 + r) % 0x40 == r
  {}

  /** The scalar value of a well-formed two-byte sequence. */
  function TwoByteScalar(b0: byte, b1: byte): (c: char)
    requires 0xC2 <= b0 <= 0xDF && IsContinuation(b1)
    ensures EncodeChar(c) == [b0, b1]
  {
    var cp := (b0 - 0xC0) * 0x40 + (b1 - 0x80);
    SixBits(b0 - 0xC0, b1 - 0x80);
    cp as char
  }

  /** The scalar value of a well-formed three-byte sequence. */
  function ThreeByteScalar(b0: byte, b1: byte, b2: byte): (c: char)
    requires SecondOfThree(b0, b1) && IsContinuation(b2)
    ensures EncodeChar(c) == [b0, b1, b2]
  {
    var upper := (b0 - 0xE0) * 0x40 + (b1 - 0x80);
    var cp := upper * 0x40 + (b2 - 0x80);
    SixBits(b0 - 0xE0, b1 - 0x80);
    SixBits(upper, b2 - 0x80);
    cp as char
  }

  /** The scalar value of a well-formed four-byte sequence. */
  function FourByteScalar(b0: byte, b1: byte, b2: byte, b3: byte): (c: char)
    requires SecondOfFour(b0, b1) && IsContinuation(b2) && IsContinuation(b3)
    ensures EncodeChar(c) == [b0, b1, b2, b3]
  {
    var top := (b0 - 0xF0) * 0x40 + (b1 - 0x80);
    var upper := top * 0x40 + (b2 - 0x80);
    var cp := upper * 0x40 + (b3 - 0x80);
    SixBits(b0 - 0xF0, b1 - 0x80);
    SixBits(top, b2 - 0x80);
    SixBits(upper, b3 - 0x80);
    cp as char
  }

  /** One step of the decoder. A lead byte that cannot start a sequence, or a
      sequence broken off by a byte that cannot continue it (or by the end of
      the input), yields an ill-formed subpart made of the bytes read so far. */
  function DecodeStep(b: seq<byte>): (st: Step)
    requires |b| > 0
    ensures 1 <= st.width <= |b| && st.width <= 4
    ensures st.Scalar? ==> EncodeChar(st.c) == b[..st.width]
    ensures st.Invalid? ==> st.width < 4
    ensures b[0] < 0x80 <==> st.Scalar? && st.width == 1
  {
    var b0 := b[0];
    if b0 < 0x80 then
      Scalar(b0 as char, 1)
    else if 0xC2 <= b0 <= 0xDF then
      if |b| >= 2 && IsContinuation(b[1]) then Scalar(TwoByteScalar(b0, b[1]), 2)
      else Invalid(1)
    else if 0xE0 <= b0 <= 0xEF then
      if |b| >= 2 && SecondOfThree(b0, b[1]) then
        if |b| >= 3 && IsContinuation(b[2]) then Scalar(ThreeByteScalar(b0, b[1], b[2]), 3)
        else Invalid(2)
      else Invalid(1)
    else if 0xF0 <= b0 <= 0xF4 then
      if |b| >= 2 && SecondOfFour(b0, b[1]) then
        if |b| >= 3 && IsContinuation(b[2]) then
          if |b| >= 4 && IsContinuation(b[3]) then Scalar(FourByteScalar(b0, b[1], b[2], b[3]), 4)
          else Invalid(3)
        else Invalid(2)
      else Invalid(1)
    else
      Invalid(1)
  }

  /** `String::from_utf8_lossy`: decode, writing U+FFFD for every ill-formed subpart. */
  function DecodeLossy(b: seq<byte>): (s: string)
    ensures |s| <= |b|
    ensures |b| > 0 ==> |s| > 0
    ensures AllAsciiBytes(b) ==> |s| == |b| && forall i | 0 <= i < |b| :: s[i] == b[i] as char
    decreases |b|
  {
    if b == [] then []
    else
      var st := DecodeStep(b);
      var c := if st.Scalar? then st.c else REPLACEMENT;
      [c] + DecodeLossy(b[st.width..])
  }

  lemma DecodeStepOfTwoBytes(c: char, rest: seq<byte>)
    requires 0x80 <= c as int < 0x800
    ensures DecodeStep(EncodeChar(c) + rest) == Scalar(c, 2)
  {
    var cp := c as int;
    var b := EncodeChar(c) + rest;
    assert b[0] == 0xC0 + cp / 0x40 && b[1] == 0x80 + cp % 0x40;
  }

  lemma DecodeStepOfThreeBytes(c: char, rest: seq<byte>)
    requires 0x800 <= c as int < 0x10000
    ensures DecodeStep(EncodeChar(c) + rest) == Scalar(c, 3)
  {
    var cp := c as int;
    var b := EncodeChar(c) + rest;
    assert b[0] == 0xE0 + cp / 0x40 / 0x40 && b[1] == 0x80 + cp / 0x40 % 0x40;
    assert SecondOfThree(b[0], b[1]);
  }

  lemma DecodeStepOfFourBytes(c: char, rest: seq<byte>)
    requires 0x10000 <= c as int
    ensures DecodeStep(EncodeChar(c) + rest) == Scalar(c, 4)
  {
    var cp := c as int;
    var b := EncodeChar(c) + rest;
    assert b[0] == 0xF0 + cp / 0x40 / 0x40 / 0x40 && b[1] == 0x80 + cp / 0x40 / 0x40 % 0x40;
    assert SecondOfFour(b[0], b[1]);
  }

  /** Decoding the encoding of a character, followed by anything, reads back
      exactly that character and consumes exactly its encoding. */
  lemma DecodeStepOfEncodeChar(c: char, rest: seq<byte>)
    ensures DecodeStep(EncodeChar(c) + rest) == Scalar(c, |EncodeChar(c)|)
  {
    var cp := c as int;
    if cp < 0x80 {
    } else if cp < 0x800 {
      DecodeStepOfTwoBytes(c, rest);
    } else if cp < 0x10000 {
      DecodeStepOfThreeBytes(c, rest);
    } else {
      DecodeStepOfFourBytes(c, rest);
    }
  }

  /** Round trip: lossy decoding of well-formed UTF-8 loses nothing. */
  lemma {:induction false} DecodeLossyOfEncode(s: string)
    ensures DecodeLossy(Encode(s)) == s
  {
    if s != [] {
      var e := EncodeChar(s[0]);
      var rest := Encode(s[1..]);
      DecodeStepOfEncodeChar(s[0], rest);
      assert (e + rest)[|e|..] == rest;
      DecodeLossyOfEncode(s[1..]);
    }
  }
}
