/**
 * The code-point to UTF-8 conversion the window uses for text input
 * (src/engine/Window.cpp, UnicodeToUTF8). A code point is an unsigned
 * 32-bit integer; the result is the byte string appended to `out`.
 *
 * The encoder follows section 3 of RFC 3629 for the 1-, 2-, 3- and 4-byte
 * forms, but performs no range check: surrogates are encoded like any other
 * value and the bits of a code point above 0x1FFFFF are dropped by the 0x07
 * mask on the lead byte.
 */
module Utf8 {
  import opened Wrappers

  /** The number of bytes the encoder picks for a code point. */
  function EncodedLength(cp: bv32): (n: nat)
    ensures 1 <= n <= 4
  {
    if cp <= 0x7f then 1
    else if cp <= 0x7ff then 2
    else if cp <= 0xffff then 3
    else 4
  }

  /** The low six bits of `bits` under the continuation marker 10xxxxxx. */
  function Continuation(bits: bv32): (b: byte)
    ensures 0x80 <= b <= 0xbf
  {
    (0x80 | (bits & 0x3f)) as byte
  }

  /** UnicodeToUTF8: the branches on 0x7F, 0x7FF and 0xFFFF, in that order. */
  function UnicodeToUtf8(cp: bv32): (out: seq<byte>)
    ensures |out| == EncodedLength(cp)
    ensures forall k :: 1 <= k < |out| ==> 0x80 <= out[k] <= 0xbf
  {
    if cp <= 0x7f then
      [cp as byte]
    else if cp <= 0x7ff then
      [(0xc0 | ((cp >> 6) & 0x1f)) as byte, Continuation(cp)]
    else if cp <= 0xffff then
      [(0xe0 | ((cp >> 12) & 0x0f)) as byte, Continuation(cp >> 6), Continuation(cp)]
    else
      [(0xf0 | ((cp >> 18) & 0x07)) as byte, Continuation(cp >> 12), Continuation(cp >> 6), Continuation(cp)]
  }

  /** A decoder written independently from the bit layout of RFC 3629, section 3. */
  function DecodeUtf8(s: seq<byte>): (r: Option<bv32>)
  {
    if |s| == 1 && s[0] & 0x80 == 0 then
      Some(s[0] as bv32)
    else if |s| == 2 && s[0] & 0xe0 == 0xc0 && s[1] & 0xc0 == 0x80 then
      Some(((s[0] & 0x1f) as bv32 << 6) | (s[1] & 0x3f) as bv32)
    else if |s| == 3 && s[0] & 0xf0 == 0xe0 && s[1] & 0xc0 == 0x80 && s[2] & 0xc0 == 0x80 then
      Some(((s[0] & 0x0f) as bv32 << 12) | ((s[1] & 0x3f) as bv32 << 6) | (s[2] & 0x3f) as bv32)
    else if |s| == 4 && s[0] & 0xf8 == 0xf0 && s[1] & 0xc0 == 0x80 && s[2] & 0xc0 == 0x80 && s[3] & 0xc0 == 0x80 then
      Some(((s[0] & 0x07) as bv32 << 18) | ((s[1] & 0x3f) as bv32 << 12) | ((s[2] & 0x3f) as bv32 << 6) | (s[3] & 0x3f) as bv32)
    else
      None
  }

  /** The lead byte carries the length marker of its form. */
  lemma LeadByteMarksLength(cp: bv32)
    ensures var out := UnicodeToUtf8(cp);
      (|out| == 1 <==> out[0] & 0x80 == 0) &&
      (|out| == 2 <==> out[0] & 0xe0 == 0xc0) &&
      (|out| == 3 <==> out[0] & 0xf0 == 0xe0) &&
      (|out| == 4 <==> out[0] & 0xf8 == 0xf0)
  {
  }

  /** Reassembling the six-bit group of a continuation byte. */
  lemma ContinuationBits(bits: bv32)
    ensures Continuation(bits) & 0xc0 == 0x80
    ensures (Continuation(bits) & 0x3f) as bv32 == bits & 0x3f
  {
  }

  lemma TwoByteForm(cp: bv32)
    requires 0x80 <= cp <= 0x7ff
    ensures var lead := (0xc0 | ((cp >> 6) & 0x1f)) as byte;
      lead & 0xe0 == 0xc0 && ((lead & 0x1f) as bv32 << 6) | ((cp) & 0x3f) == cp
  {
  }

  lemma ThreeByteForm(cp: bv32)
    requires 0x800 <= cp <= 0xffff
    ensures var lead := (0xe0 | ((cp >> 12) & 0x0f)) as byte;
      lead & 0xf0 == 0xe0 &&
      ((lead & 0x0f) as bv32 << 12) | (((cp >> 6) & 0x3f) << 6) | ((cp) & 0x3f) == cp
  {
  }

  lemma FourByteForm(cp: bv32)
    requires 0x1_0000 <= cp
    ensures var lead, c2, c1, c0 :=
        (0xf0 | ((cp >> 18) & 0x07)) as byte, (0x80 | ((cp >> 12) & 0x3f)) as byte,
        (0x80 | ((cp >> 6) & 0x3f)) as byte, (0x80 | (cp & 0x3f)) as byte;
      lead & 0xf8 == 0xf0 && c2 & 0xc0 == 0x80 && c1 & 0xc0 == 0x80 && c0 & 0xc0 == 0x80 &&
      ((lead & 0x07) as bv32 << 18) | ((c2 & 0x3f) as bv32 << 12) | ((c1 & 0x3f) as bv32 << 6) | (c0 & 0x3f) as bv32
        == cp & 0x1f_ffff
  {
  }

  lemma EncodeTwo(cp: bv32)
    requires 0x80 <= cp <= 0x7ff
    ensures DecodeUtf8(UnicodeToUtf8(cp)) == Some(cp)
  {
    var lead, c0 := (0xc0 | ((cp >> 6) & 0x1f)) as byte, Continuation(cp);
    assert UnicodeToUtf8(cp) == [lead, c0];
    ContinuationBits(cp);
    TwoByteForm(cp);
  }

  lemma EncodeThree(cp: bv32)
    requires 0x800 <= cp <= 0xffff
    ensures DecodeUtf8(UnicodeToUtf8(cp)) == Some(cp)
  {
    var lead, c1, c0 := (0xe0 | ((cp >> 12) & 0x0f)) as byte, Continuation(cp >> 6), Continuation(cp);
    assert UnicodeToUtf8(cp) == [lead, c1, c0];
    ContinuationBits(cp);
    ContinuationBits(cp >> 6);
    ThreeByteForm(cp);
  }

  lemma DecodeFour(lead: byte, c2: byte, c1: byte, c0: byte)
    requires lead & 0xf8 == 0xf0 && c2 & 0xc0 == 0x80 && c1 & 0xc0 == 0x80 && c0 & 0xc0 == 0x80
    ensures DecodeUtf8([lead, c2, c1, c0]) ==
      Some(((lead & 0x07) as bv32 << 18) | ((c2 & 0x3f) as bv32 << 12) | ((c1 & 0x3f) as bv32 << 6) | (c0 & 0x3f) as bv32)
  {
  }

  /** The four bytes the encoder emits above 0xFFFF, and what the decoder reads back from them. */
  lemma FourByteOutput(cp: bv32)
    requires 0x1_0000 <= cp
    ensures var lead, c2, c1, c0 :=
        (0xf0 | ((cp >> 18) & 0x07)) as byte, (0x80 | ((cp >> 12) & 0x3f)) as byte,
        (0x80 | ((cp >> 6) & 0x3f)) as byte, (0x80 | (cp & 0x3f)) as byte;
      UnicodeToUtf8(cp) == [lead, c2, c1, c0]
  {
  }

  lemma FourByteDecode(cp: bv32)
    requires 0x1_0000 <= cp
    ensures var lead, c2, c1, c0 :=
        (0xf0 | ((cp >> 18) & 0x07)) as byte, (0x80 | ((cp >> 12) & 0x3f)) as byte,
        (0x80 | ((cp >> 6) & 0x3f)) as byte, (0x80 | (cp & 0x3f)) as byte;
      DecodeUtf8([lead, c2, c1, c0]) == Some(cp & 0x1f_ffff)
  {
    var lead, c2, c1, c0 :=
        (0xf0 | ((cp >> 18) & 0x07)) as byte, (0x80 | ((cp >> 12) & 0x3f)) as byte,
        (0x80 | ((cp >> 6) & 0x3f)) as byte, (0x80 | (cp & 0x3f)) as byte;
    FourByteForm(cp);
    DecodeFour(lead, c2, c1, c0);
  }

  lemma EncodeFour(cp: bv32)
    requires 0x1_0000 <= cp
    ensures DecodeUtf8(UnicodeToUtf8(cp)) == Some(cp & 0x1f_ffff)
  {
    FourByteOutput(cp);
    FourByteDecode(cp);
  }

  /** Decoding the encoder's output yields the code point with its bits above 0x1FFFFF cleared. */
  lemma DecodeOfEncode(cp: bv32)
    ensures DecodeUtf8(UnicodeToUtf8(cp)) == Some(cp & 0x1f_ffff)
  {
    if cp <= 0x7f {
      assert cp & 0x1f_ffff == cp;
    } else if cp <= 0x7ff {
      EncodeTwo(cp);
      assert cp & 0x1f_ffff == cp;
    } else if cp <= 0xffff {
      EncodeThree(cp);
      assert cp & 0x1f_ffff == cp;
    } else {
      EncodeFour(cp);
    }
  }

  /** Code points up to 0x1FFFFF survive the round trip through the decoder. */
  lemma RoundTrip(cp: bv32)
    requires cp <= 0x1f_ffff
    ensures DecodeUtf8(UnicodeToUtf8(cp)) == Some(cp)
  {
    DecodeOfEncode(cp);
    assert cp & 0x1f_ffff == cp;
  }

  /** No surrogate check: U+D800 is encoded as ED A0 80. */
  lemma SurrogateIsEncoded()
    ensures UnicodeToUtf8(0xd800) == [0xed, 0xa0, 0x80]
  {
  }
}
