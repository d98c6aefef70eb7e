/**
 * UTF-8 encoding of 16-bit code points, as the converter writes it
 * (encoding/main.c `convert_to_utf8`, main_only_UTF.c `write_utf8`),
 * together with a strict decoder for well-formed UTF-8 (RFC 3629, section 4)
 * that serves as the independent partner of the encoder.
 */
module Utf8 {
  import opened Wrappers

  /** An output byte, as `fputc` writes it. */
  type Byte = bv8

  /** A code point as the tables store it: C's `uint16_t`. */
  type CodePoint = bv16

  /** A Unicode scalar as a decoder returns it (up to U+10FFFF). */
  type Scalar = bv32

  /** `fputc(c, out)` writes `(unsigned char) c`: the low eight bits of c. */
  function UnsignedChar(c: bv16): Byte
  {
    (c & 0xFF) as Byte
  }

  /** UTF-16 surrogate code points: not Unicode scalar values. */
  predicate IsSurrogate(cp: CodePoint)
  {
    0xD800 <= cp <= 0xDFFF
  }

  /** A continuation byte 10xxxxxx. */
  predicate IsContinuation(b: Byte)
  {
    0x80 <= b <= 0xBF
  }

  /**
   * A lead byte that RFC 3629 allows for a sequence of at most three bytes:
   * 00-7F, C2-DF or E0-EF. C0 and C1 (overlong two-byte forms) never occur.
   */
  predicate IsShortLead(b: Byte)
  {
    b <= 0x7F || 0xC2 <= b <= 0xDF || 0xE0 <= b <= 0xEF
  }

  /**
   * The bytes the encoder writes for one code point, in the order it
   * writes them: one byte below 0x80, two below 0x800, three otherwise.
   */
  function Encode(cp: CodePoint): (r: seq<Byte>)
    ensures |r| == 1 <==> cp < 0x80
    ensures |r| == 2 <==> 0x80 <= cp < 0x800
    ensures |r| == 3 <==> 0x800 <= cp
    ensures IsShortLead(r[0])
    ensures |r| == 1 <==> r[0] <= 0x7F
    ensures |r| == 2 <==> 0xC2 <= r[0] <= 0xDF
    ensures forall i :: 1 <= i < |r| ==> IsContinuation(r[i])
  {
    if cp < 0x80 then
      [UnsignedChar(cp)]
    else if cp < 0x800 then
      TwoByteForm(cp);
      [UnsignedChar(0xC0 | (cp >> 6)), UnsignedChar(0x80 | (cp & 0x3F))]
    else
      ThreeByteForm(cp);
      [UnsignedChar(0xE0 | (cp >> 12)), UnsignedChar(0x80 | ((cp >> 6) & 0x3F)), UnsignedChar(0x80 | (cp & 0x3F))]
  }

  lemma TwoByteForm(cp: CodePoint)
    requires 0x80 <= cp < 0x800
    ensures 0xC2 <= UnsignedChar(0xC0 | (cp >> 6)) <= 0xDF
    ensures IsContinuation(UnsignedChar(0x80 | (cp & 0x3F)))
  {
  }

  lemma ThreeByteForm(cp: CodePoint)
    requires 0x800 <= cp
    ensures 0xE0 <= UnsignedChar(0xE0 | (cp >> 12)) <= 0xEF
    ensures IsContinuation(UnsignedChar(0x80 | ((cp >> 6) & 0x3F)))
    ensures IsContinuation(UnsignedChar(0x80 | (cp & 0x3F)))
  {
  }

  /**
   * The code point bits carried by a one- to three-byte form, most
   * significant first: the lead byte holds the top bits, each continuation
   * byte six more.
   */
  function PayloadBits(r: seq<Byte>): CodePoint
    requires 1 <= |r| <= 3
  {
    if |r| == 1 then r[0] as CodePoint
    else if |r| == 2 then ((r[0] & 0x1F) as CodePoint << 6) | (r[1] & 0x3F) as CodePoint
    else ((r[0] & 0x0F) as CodePoint << 12) | ((r[1] & 0x3F) as CodePoint << 6) | (r[2] & 0x3F) as CodePoint
  }

  /** The encoder lays the code point's bits out in big-endian order. */
  lemma EncodeBitOrder(cp: CodePoint)
    ensures PayloadBits(Encode(cp)) == cp
  {
    if 0x800 <= cp {
      ThreeByteBits(cp);
      assert Encode(cp) == [UnsignedChar(0xE0 | (cp >> 12)), UnsignedChar(0x80 | ((cp >> 6) & 0x3F)), UnsignedChar(0x80 | (cp & 0x3F))];
    } else if 0x80 <= cp {
      TwoByteBits(cp);
      assert Encode(cp) == [UnsignedChar(0xC0 | (cp >> 6)), UnsignedChar(0x80 | (cp & 0x3F))];
    } else {
      OneByteDecodes(cp);
    }
  }

  lemma TwoByteBits(cp: CodePoint)
    requires 0x80 <= cp < 0x800
    ensures var b0, b1 := UnsignedChar(0xC0 | (cp >> 6)), UnsignedChar(0x80 | (cp & 0x3F));
      ((b0 & 0x1F) as CodePoint << 6) | (b1 & 0x3F) as CodePoint == cp
  {
  }

  lemma ThreeByteBits(cp: CodePoint)
    requires 0x800 <= cp
    ensures var b0, b1, b2 := UnsignedChar(0xE0 | (cp >> 12)), UnsignedChar(0x80 | ((cp >> 6) & 0x3F)), UnsignedChar(0x80 | (cp & 0x3F));
      ((b0 & 0x0F) as CodePoint << 12) | ((b1 & 0x3F) as CodePoint << 6) | (b2 & 0x3F) as CodePoint == cp
  {
  }

  /** A three-byte form starting with E0 has a second byte of at least A0: never overlong. */
  lemma EncodeNotOverlong(cp: CodePoint)
    ensures var r := Encode(cp); |r| == 3 && r[0] == 0xE0 ==> 0xA0 <= r[1]
  {
    if 0x800 <= cp {
      var b0, b1 := UnsignedChar(0xE0 | (cp >> 12)), UnsignedChar(0x80 | ((cp >> 6) & 0x3F));
      assert Encode(cp)[0] == b0 && Encode(cp)[1] == b1;
      assert b0 == 0xE0 ==> 0xA0 <= b1;
    }
  }

  // ---------------------------------------------------------------------
  // The decoder: well-formed UTF-8 byte sequences, RFC 3629 section 4.
  // ---------------------------------------------------------------------

  /** One decoded character: its scalar value and how many bytes it took. */
  datatype Decoded = Decoded(scalar: Scalar, length: nat)

  /** The six payload bits of a continuation byte. */
  function Payload(b: Byte): Scalar
  {
    (b & 0x3F) as Scalar
  }

  /**
   * Decodes the character at the front of `bs`, accepting exactly the
   * well-formed sequences of RFC 3629 section 4 (no overlong forms, no
   * surrogates, nothing above U+10FFFF) and giving None otherwise.
   */
  function DecodeFirst(bs: seq<Byte>): (r: Option<Decoded>)
    requires |bs| > 0
    ensures r.Some? ==> 1 <= r.value.length <= |bs| && r.value.length <= 4
    ensures r.Some? ==> r.value.scalar <= 0x10FFFF && !(0xD800 <= r.value.scalar <= 0xDFFF)
    ensures r.Some? ==> (r.value.length == 1 <==> r.value.scalar < 0x80)
    ensures r.Some? ==> (r.value.length == 2 <==> 0x80 <= r.value.scalar < 0x800)
    ensures r.Some? ==> (r.value.length == 3 <==> 0x800 <= r.value.scalar < 0x10000)
  {
    var b0 := bs[0];
    if b0 <= 0x7F then
      Some(Decoded(b0 as Scalar, 1))
    else if 0xC2 <= b0 <= 0xDF then
      if |bs| >= 2 && IsContinuation(bs[1]) then
        Some(Decoded(((b0 & 0x1F) as Scalar << 6) | Payload(bs[1]), 2))
      else
        None
    else if 0xE0 <= b0 <= 0xEF then
      var lo: Byte := if b0 == 0xE0 then 0xA0 else 0x80;
      var hi: Byte := if b0 == 0xED then 0x9F else 0xBF;
      if |bs| >= 3 && lo <= bs[1] <= hi && IsContinuation(bs[2]) then
        Some(Decoded(((b0 & 0x0F) as Scalar << 12) | (Payload(bs[1]) << 6) | Payload(bs[2]), 3))
      else
        None
    else if 0xF0 <= b0 <= 0xF4 then
      var lo: Byte := if b0 == 0xF0 then 0x90 else 0x80;
      var hi: Byte := if b0 == 0xF4 then 0x8F else 0xBF;
      if |bs| >= 4 && lo <= bs[1] <= hi && IsContinuation(bs[2]) && IsContinuation(bs[3]) then
        Some(Decoded(((b0 & 0x07) as Scalar << 18) | (Payload(bs[1]) << 12) | (Payload(bs[2]) << 6) | Payload(bs[3]), 4))
      else
        None
    else
      None
  }

  /** Decodes a whole byte sequence; None when any part of it is ill-formed. */
  function Decode(bs: seq<Byte>): Option<seq<Scalar>>
    decreases |bs|
  {
    if bs == [] then Some([])
    else
      match DecodeFirst(bs)
      case None => None
      case Some(d) =>
        match Decode(bs[d.length..])
        case None => None
        case Some(rest) => Some([d.scalar] + rest)
  }

  lemma OneByteDecodes(cp: CodePoint)
    requires cp < 0x80
    ensures UnsignedChar(cp) <= 0x7F && UnsignedChar(cp) as Scalar == cp as Scalar
  {
  }

  lemma TwoByteDecodes(cp: CodePoint)
    requires 0x80 <= cp < 0x800
    ensures var b0, b1 := UnsignedChar(0xC0 | (cp >> 6)), UnsignedChar(0x80 | (cp & 0x3F));
      ((b0 & 0x1F) as Scalar << 6) | Payload(b1) == cp as Scalar
  {
  }

  lemma ThreeByteDecodes(cp: CodePoint)
    requires 0x800 <= cp
    ensures var b0, b1, b2 := UnsignedChar(0xE0 | (cp >> 12)), UnsignedChar(0x80 | ((cp >> 6) & 0x3F)), UnsignedChar(0x80 | (cp & 0x3F));
      ((b0 & 0x0F) as Scalar << 12) | (Payload(b1) << 6) | Payload(b2) == cp as Scalar
  {
  }

  /** The encoder's three-byte forms fall in the decoder's second-byte window exactly when cp is no surrogate. */
  lemma ThreeByteWindow(cp: CodePoint)
    requires 0x800 <= cp
    ensures var b0, b1 := UnsignedChar(0xE0 | (cp >> 12)), UnsignedChar(0x80 | ((cp >> 6) & 0x3F));
      var lo: Byte := if b0 == 0xE0 then 0xA0 else 0x80;
      var hi: Byte := if b0 == 0xED then 0x9F else 0xBF;
      lo <= b1 <= hi <==> !IsSurrogate(cp)
  {
  }

  /**
   * Round trip for one code point: the decoder reads back exactly the code
   * point the encoder wrote, and consumes exactly its bytes, unless the code
   * point is a surrogate, whose three bytes are not well-formed UTF-8.
   */
  lemma DecodeFirstOfEncode(cp: CodePoint, rest: seq<Byte>)
    ensures DecodeFirst(Encode(cp) + rest) ==
      if IsSurrogate(cp) then None else Some(Decoded(cp as Scalar, |Encode(cp)|))
  {
    if cp < 0x80 {
      OneByteDecodes(cp);
    } else if cp < 0x800 {
      DecodeTwoBytes(cp, rest);
    } else {
      DecodeThreeBytes(cp, rest);
    }
  }

  lemma DecodeTwoBytes(cp: CodePoint, rest: seq<Byte>)
    requires 0x80 <= cp < 0x800
    ensures DecodeFirst(Encode(cp) + rest) == Some(Decoded(cp as Scalar, 2))
  {
    var b0, b1 := UnsignedChar(0xC0 | (cp >> 6)), UnsignedChar(0x80 | (cp & 0x3F));
    TwoByteForm(cp);
    TwoByteDecodes(cp);
    var bs := [b0, b1] + rest;
    assert Encode(cp) + rest == bs;
    assert bs[0] == b0 && bs[1] == b1;
  }

  lemma DecodeThreeBytes(cp: CodePoint, rest: seq<Byte>)
    requires 0x800 <= cp
    ensures DecodeFirst(Encode(cp) + rest) ==
      if IsSurrogate(cp) then None else Some(Decoded(cp as Scalar, 3))
  {
    var b0, b1, b2 := UnsignedChar(0xE0 | (cp >> 12)), UnsignedChar(0x80 | ((cp >> 6) & 0x3F)), UnsignedChar(0x80 | (cp & 0x3F));
    ThreeByteForm(cp);
    ThreeByteDecodes(cp);
    ThreeByteWindow(cp);
    var bs := [b0, b1, b2] + rest;
    assert Encode(cp) + rest == bs;
    assert bs[0] == b0 && bs[1] == b1 && bs[2] == b2;
  }

  /** Two code points with the same encoding are the same code point. */
  lemma EncodeInjective(c: CodePoint, d: CodePoint, rest1: seq<Byte>, rest2: seq<Byte>)
    requires Encode(c) + rest1 == Encode(d) + rest2
    ensures c == d && rest1 == rest2
  {
    var x, y := Encode(c), Encode(d);
    assert x[0] == (x + rest1)[0] == y[0];
    assert |x| == |y|;
    assert x == (x + rest1)[..|x|] == y;
    assert rest1 == (x + rest1)[|x|..] == rest2;
    EncodeDetermines(c, d);
  }

  lemma EncodeDetermines(c: CodePoint, d: CodePoint)
    requires Encode(c) == Encode(d)
    ensures c == d
  {
    EncodeBitOrder(c);
    EncodeBitOrder(d);
  }

  // ---------------------------------------------------------------------
  // Streams of code points.
  // ---------------------------------------------------------------------

  /**
   * The bytes written for a sequence of code points, one after the other
   * in input order: each code point takes between one and three bytes.
   */
  function EncodeAll(cps: seq<CodePoint>): (r: seq<Byte>)
    ensures |cps| <= |r| <= 3 * |cps|
  {
    if cps == [] then [] else EncodeAll(cps[..|cps| - 1]) + Encode(cps[|cps| - 1])
  }

  /** Encoding distributes over concatenation: nothing is written between or after the characters. */
  lemma {:induction false} EncodeAllAppend(a: seq<CodePoint>, b: seq<CodePoint>)
    ensures EncodeAll(a + b) == EncodeAll(a) + EncodeAll(b)
    decreases |b|
  {
    if b == [] {
      assert a + b == a;
    } else {
      var b' := b[..|b| - 1];
      assert (a + b)[..|a + b| - 1] == a + b';
      assert (a + b)[|a + b| - 1] == b[|b| - 1];
      EncodeAllAppend(a, b');
    }
  }

  lemma EncodeAllSingle(c: CodePoint)
    ensures EncodeAll([c]) == Encode(c)
  {
    assert [c][..0] == [];
  }

  /**
   * The i-th code point owns one contiguous slice of the output, which
   * starts right after the bytes of the code points before it.
   */
  lemma EncodeAllSlice(cps: seq<CodePoint>, i: nat)
    requires i < |cps|
    ensures var lo, hi := |EncodeAll(cps[..i])|, |EncodeAll(cps[..i + 1])|;
      lo < hi <= |EncodeAll(cps)| &&
      EncodeAll(cps)[..lo] == EncodeAll(cps[..i]) &&
      EncodeAll(cps)[lo..hi] == Encode(cps[i])
  {
    assert cps == cps[..i + 1] + cps[i + 1..];
    EncodeAllAppend(cps[..i + 1], cps[i + 1..]);
    assert cps[..i + 1][..i] == cps[..i];
  }

  /** The scalars a decoder gives back for a sequence of 16-bit code points. */
  function Scalars(cps: seq<CodePoint>): seq<Scalar>
  {
    if cps == [] then [] else [cps[0] as Scalar] + Scalars(cps[1..])
  }

  predicate NoSurrogates(cps: seq<CodePoint>)
  {
    forall i :: 0 <= i < |cps| ==> !IsSurrogate(cps[i])
  }

  /**
   * Round trip for a stream: decoding the encoder's output gives back the
   * code points in order, and it is well-formed UTF-8 exactly when no code
   * point is a surrogate.
   */
  lemma {:induction false} DecodeEncodeAll(cps: seq<CodePoint>)
    ensures Decode(EncodeAll(cps)) == if NoSurrogates(cps) then Some(Scalars(cps)) else None
    decreases |cps|
  {
    if cps != [] {
      var c, tail := cps[0], cps[1..];
      assert cps == [c] + tail;
      EncodeAllAppend([c], tail);
      EncodeAllSingle(c);
      var bs := Encode(c) + EncodeAll(tail);
      assert EncodeAll(cps) == bs;
      DecodeFirstOfEncode(c, EncodeAll(tail));
      if IsSurrogate(c) {
        assert !NoSurrogates(cps) by { assert cps[0] == c; }
      } else {
        assert bs[|Encode(c)|..] == EncodeAll(tail);
        DecodeEncodeAll(tail);
        assert NoSurrogates(cps) <==> NoSurrogates(tail) by {
          forall i | 0 <= i < |tail| ensures tail[i] == cps[i + 1] { }
          if NoSurrogates(tail) {
            forall i | 0 <= i < |cps| ensures !IsSurrogate(cps[i]) {
              if i > 0 { assert cps[i] == tail[i - 1]; }
            }
          }
        }
      }
    }
  }

  /** Distinct code point sequences never share an encoding. */
  lemma {:induction false} EncodeAllInjective(a: seq<CodePoint>, b: seq<CodePoint>)
    requires EncodeAll(a) == EncodeAll(b)
    ensures a == b
    decreases |a|
  {
    if a != [] && b != [] {
      assert a == [a[0]] + a[1..] && b == [b[0]] + b[1..];
      EncodeAllAppend([a[0]], a[1..]);
      EncodeAllAppend([b[0]], b[1..]);
      EncodeAllSingle(a[0]);
      EncodeAllSingle(b[0]);
      EncodeInjective(a[0], b[0], EncodeAll(a[1..]), EncodeAll(b[1..]));
      EncodeAllInjective(a[1..], b[1..]);
    }
  }
}
