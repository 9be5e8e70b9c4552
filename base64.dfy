/**
 * The Base64 codec of the serialization helpers
 * (src/libFluid/serialization/helpers/Base64.cpp): the alphabet of section 4
 * of RFC 4648 with '=' padding. The decoder also accepts the URL-safe
 * characters '-' and '_' of section 5 and silently drops the bytes whose
 * characters are padding or invalid.
 *
 * The encoded text is a std::string; it is modelled as its bytes, so every
 * character is a `byte` holding its ASCII code.
 *
 * The encoder fills a preallocated character array; the decoder pushes bytes
 * onto a growing sequence. Both loops are proved against the group-wise
 * specifications `Encode` and `Decode`, and `RoundTrip` proves that decoding
 * undoes encoding.
 */
module Base64 {
  import opened Wrappers

  /** The value the decoder's table gives to padding and invalid characters. */
  const Invalid: byte := 255

  /** The ASCII code of the padding character '='. */
  const Pad: byte := 0x3d

  /** get_length_of_output_string: the input rounded up to whole triples, four characters each. */
  function OutputLength(byteLength: nat): nat
  {
    var rounded := if byteLength % 3 > 0 then byteLength + (3 - byteLength % 3) else byteLength;
    rounded / 3 * 4
  }

  /** Four characters per started group of three bytes: the fewest whole groups that hold the input. */
  lemma OutputLengthBounds(byteLength: nat)
    ensures var r := OutputLength(byteLength);
      r % 4 == 0 && r == 4 * ((byteLength + 2) / 3) && byteLength <= 3 * (r / 4) < byteLength + 3
  {
  }

  /**
   * The encoder's alphabet `base_64_characters`, indexed by a six-bit value:
   * 'A'-'Z' (0x41-0x5A), 'a'-'z' (0x61-0x7A), '0'-'9' (0x30-0x39), then
   * '+' (0x2B) and '/' (0x2F).
   */
  function CharOf(v: byte): (c: byte)
    requires v < 64
    ensures c != Pad && c <= 0x7a
  {
    if v < 26 then 0x41 + v
    else if v < 52 then 0x61 + (v - 26)
    else if v < 62 then 0x30 + (v - 52)
    else if v == 62 then 0x2b
    else 0x2f
  }

  /**
   * The decoder's table `from_base_64`: characters above 'z' are invalid
   * without a lookup; below, letters and digits get their index, '+' and
   * '-' get 62, '/' and '_' get 63, and everything else (with '=') is invalid.
   */
  function ValueOf(c: byte): (v: byte)
    ensures v < 64 || v == Invalid
  {
    if c > 0x7a then Invalid
    else if 0x41 <= c <= 0x5a then c - 0x41
    else if 0x61 <= c <= 0x7a then c - 0x61 + 26
    else if 0x30 <= c <= 0x39 then c - 0x30 + 52
    else if c == 0x2b || c == 0x2d then 62
    else if c == 0x2f || c == 0x5f then 63
    else Invalid
  }

  /** Every character of the alphabet decodes back to its index, and only padding is not in it. */
  lemma ValueOfCharOf(v: byte)
    requires v < 64
    ensures ValueOf(CharOf(v)) == v
    ensures ValueOf(Pad) == Invalid
  {
  }

  /**
   * The decoder's table on the characters the encoder never emits: the
   * URL-safe '-' and '_' share 62 and 63 with '+' and '/', and every
   * character above 'z' is invalid.
   */
  lemma TableEntries(c: byte)
    ensures ValueOf(0x2b) == 62 && ValueOf(0x2d) == 62
    ensures ValueOf(0x2f) == 63 && ValueOf(0x5f) == 63
    ensures c > 0x7a ==> ValueOf(c) == Invalid
    ensures ValueOf(c) == 62 <==> c == 0x2b || c == 0x2d
    ensures ValueOf(c) == 63 <==> c == 0x2f || c == 0x5f
  {
  }

  /** The four six-bit values of three bytes, most significant first. */
  function Sextets(b0: byte, b1: byte, b2: byte): (s: (byte, byte, byte, byte))
    ensures s.0 < 64 && s.1 < 64 && s.2 < 64 && s.3 < 64
  {
    (b0 >> 2, ((b0 & 0x03) << 4) | (b1 >> 4), ((b1 & 0x0f) << 2) | (b2 >> 6), b2 & 0x3f)
  }

  /**
   * The four characters for the bytes b0, b1, b2 of which only the first
   * `count` are present: missing bytes count as zero and their characters
   * are '='.
   */
  function EncodeBytes(b0: byte, b1: byte, b2: byte, count: nat): (out: seq<byte>)
    requires 1 <= count <= 3
    ensures |out| == 4
  {
    var s := Sextets(b0, b1, b2);
    [CharOf(s.0), CharOf(s.1),
     if count > 1 then CharOf(s.2) else Pad,
     if count > 2 then CharOf(s.3) else Pad]
  }

  /** The four characters for one group of one to three bytes. */
  function EncodeGroup(group: seq<byte>): (out: seq<byte>)
    requires 1 <= |group| <= 3
    ensures |out| == 4
  {
    EncodeBytes(group[0], if |group| > 1 then group[1] else 0, if |group| > 2 then group[2] else 0, |group|)
  }

  /** encode_to_base_64 as a specification: the groups of three, left to right. */
  function Encode(data: seq<byte>): (out: seq<byte>)
    decreases |data|
  {
    if data == [] then []
    else if |data| <= 3 then EncodeGroup(data)
    else EncodeGroup(data[..3]) + Encode(data[3..])
  }

  /** `byte_data[0]`: six bits of the first value, two of the second. */
  function FirstByte(v0: byte, v1: byte): byte
  {
    ((v0 & 0x3f) << 2) + ((v1 & 0x30) >> 4)
  }

  /** `byte_data[1]`: four bits of the second value, four of the third. */
  function SecondByte(v1: byte, v2: byte): byte
  {
    ((v1 & 0x0f) << 4) + ((v2 & 0x3c) >> 2)
  }

  /** `byte_data[2]`: two bits of the third value, six of the fourth. */
  function ThirdByte(v2: byte, v3: byte): byte
  {
    ((v2 & 0x03) << 6) + (v3 & 0x3f)
  }

  /**
   * The bytes recovered from four character values: the first byte only if
   * v1 is valid, the second only if v2 is, the third only if v3 is.
   */
  function DecodeValues(v0: byte, v1: byte, v2: byte, v3: byte): (out: seq<byte>)
    ensures |out| <= 3
  {
    (if v1 != Invalid then [FirstByte(v0, v1)] else []) +
    (if v2 != Invalid then [SecondByte(v1, v2)] else []) +
    (if v3 != Invalid then [ThirdByte(v2, v3)] else [])
  }

  /** One output byte per valid value among the last three of a group: invalid ones are omitted. */
  lemma OmitsInvalid(v0: byte, v1: byte, v2: byte, v3: byte)
    ensures |DecodeValues(v0, v1, v2, v3)| ==
      (if v1 != Invalid then 1 else 0) + (if v2 != Invalid then 1 else 0) + (if v3 != Invalid then 1 else 0)
    ensures v1 == Invalid && v2 == Invalid && v3 == Invalid ==> DecodeValues(v0, v1, v2, v3) == []
  {
  }

  /**
   * The value the decoder reads at position k: the character's value, or the
   * value of '=' once the input has run out.
   */
  function CharValueAt(data: seq<byte>, k: nat): (v: byte)
  {
    if k < |data| then ValueOf(data[k]) else ValueOf(Pad)
  }

  /** The bytes one group of up to four characters contributes. */
  function DecodeGroup(group: seq<byte>): (out: seq<byte>)
    requires 1 <= |group| <= 4
    ensures |out| <= 3
  {
    DecodeValues(CharValueAt(group, 0), CharValueAt(group, 1), CharValueAt(group, 2), CharValueAt(group, 3))
  }

  /** decode_from_base_64 as a specification: the groups of four, left to right. */
  function Decode(data: seq<byte>): (out: seq<byte>)
    decreases |data|
  {
    if data == [] then []
    else if |data| <= 4 then DecodeGroup(data)
    else DecodeGroup(data[..4]) + Decode(data[4..])
  }

  /** The output holds four characters per started group of three bytes. */
  lemma {:induction false} EncodedLength(data: seq<byte>)
    ensures |Encode(data)| == OutputLength(|data|)
    decreases |data|
  {
    if |data| > 3 {
      EncodedLength(data[3..]);
      OutputLengthStep(|data|);
    }
  }

  /** Three more input bytes, four more characters. */
  lemma OutputLengthStep(n: nat)
    requires n > 3
    ensures OutputLength(n) == OutputLength(n - 3) + 4
  {
  }

  /** The first two six-bit values give back the first byte. */
  lemma FirstByteOfSextets(b0: byte, b1: byte)
    ensures FirstByte(b0 >> 2, ((b0 & 0x03) << 4) | (b1 >> 4)) == b0
  {
  }

  /** The second and third six-bit values give back the second byte. */
  lemma SecondByteOfSextets(b0: byte, b1: byte, b2: byte)
    ensures SecondByte(((b0 & 0x03) << 4) | (b1 >> 4), ((b1 & 0x0f) << 2) | (b2 >> 6)) == b1
  {
  }

  /** The last two six-bit values give back the third byte. */
  lemma ThirdByteOfSextets(b1: byte, b2: byte)
    ensures ThirdByte(((b1 & 0x0f) << 2) | (b2 >> 6), b2 & 0x3f) == b2
  {
  }

  /** The decoder's arithmetic on six-bit values that reassemble into b0, b1, b2. */
  lemma SextetsDecode(b0: byte, b1: byte, b2: byte, count: nat)
    requires 1 <= count <= 3
    ensures var s := Sextets(b0, b1, b2);
      DecodeValues(s.0, s.1, if count > 1 then s.2 else Invalid, if count > 2 then s.3 else Invalid)
        == [b0, b1, b2][..count]
  {
    FirstByteOfSextets(b0, b1);
    SecondByteOfSextets(b0, b1, b2);
    ThirdByteOfSextets(b1, b2);
  }

  /** Decoding the four characters for `count` bytes gives back those bytes. */
  lemma BytesRoundTrip(b0: byte, b1: byte, b2: byte, count: nat)
    requires 1 <= count <= 3
    ensures DecodeGroup(EncodeBytes(b0, b1, b2, count)) == [b0, b1, b2][..count]
  {
    var s := Sextets(b0, b1, b2);
    var out := EncodeBytes(b0, b1, b2, count);
    ValueOfCharOf(s.0);
    ValueOfCharOf(s.1);
    ValueOfCharOf(s.2);
    ValueOfCharOf(s.3);
    assert CharValueAt(out, 0) == s.0 && CharValueAt(out, 1) == s.1;
    assert CharValueAt(out, 2) == if count > 1 then s.2 else Invalid;
    assert CharValueAt(out, 3) == if count > 2 then s.3 else Invalid;
    SextetsDecode(b0, b1, b2, count);
  }

  /** Decoding the four characters of a group gives back the group. */
  lemma GroupRoundTrip(group: seq<byte>)
    requires 1 <= |group| <= 3
    ensures DecodeGroup(EncodeGroup(group)) == group
  {
    var b1: byte := if |group| > 1 then group[1] else 0;
    var b2: byte := if |group| > 2 then group[2] else 0;
    BytesRoundTrip(group[0], b1, b2, |group|);
    assert group == [group[0], b1, b2][..|group|];
  }

  /** decode(encode(d)) == d: the round trip the serialized skybox images rely on. */
  lemma {:induction false} RoundTrip(data: seq<byte>)
    ensures Decode(Encode(data)) == data
    decreases |data|
  {
    if data == [] {
    } else if |data| <= 3 {
      GroupRoundTrip(data);
    } else {
      var head := EncodeGroup(data[..3]);
      var rest := Encode(data[3..]);
      assert Encode(data) == head + rest;
      assert (head + rest)[..4] == head && (head + rest)[4..] == rest;
      GroupRoundTrip(data[..3]);
      RoundTrip(data[3..]);
      assert data == data[..3] + data[3..];
    }
  }

  /** The encoding of `groups` whole groups followed by one more group. */
  lemma {:induction false} EncodeAppend(prefix: seq<byte>, group: seq<byte>, groups: nat)
    requires |prefix| == 3 * groups && 1 <= |group| <= 3
    ensures Encode(prefix + group) == Encode(prefix) + EncodeGroup(group)
  {
    if groups > 0 {
      var whole := prefix + group;
      assert whole[..3] == prefix[..3] && whole[3..] == prefix[3..] + group;
      EncodeAppend(prefix[3..], group, groups - 1);
    } else {
      assert prefix + group == group;
    }
  }

  /** The decoding of `groups` whole groups followed by one more group. */
  lemma {:induction false} DecodeAppend(prefix: seq<byte>, group: seq<byte>, groups: nat)
    requires |prefix| == 4 * groups && 1 <= |group| <= 4
    ensures Decode(prefix + group) == Decode(prefix) + DecodeGroup(group)
  {
    if groups > 0 {
      var whole := prefix + group;
      assert whole[..4] == prefix[..4] && whole[4..] == prefix[4..] + group;
      DecodeAppend(prefix[4..], group, groups - 1);
    } else {
      assert prefix + group == group;
    }
  }

  /** The byte the encoder reads at position k: the byte itself, or zero past the end. */
  function ByteAt(data: seq<byte>, k: nat): byte
  {
    if k < |data| then data[k] else 0
  }

  /** One iteration of the encoder's loop extends the encoded prefix by one group. */
  lemma EncodeStep(data: seq<byte>, i: nat, groups: nat)
    requires i == 3 * groups && i < |data|
    ensures var end := if i + 3 < |data| then i + 3 else |data|;
      Encode(data[..end]) == Encode(data[..i]) + EncodeBytes(data[i], ByteAt(data, i + 1), ByteAt(data, i + 2), end - i)
  {
    var end := if i + 3 < |data| then i + 3 else |data|;
    var group := data[i..end];
    EncodeAppend(data[..i], group, groups);
    assert data[..end] == data[..i] + group;
  }

  /** One iteration of the decoder's loop extends the decoded prefix by one group. */
  lemma DecodeStep(data: seq<byte>, i: nat, groups: nat)
    requires i == 4 * groups && i < |data|
    ensures var end := if i + 4 < |data| then i + 4 else |data|;
      Decode(data[..end]) == Decode(data[..i]) +
        DecodeValues(CharValueAt(data, i), CharValueAt(data, i + 1), CharValueAt(data, i + 2), CharValueAt(data, i + 3))
  {
    var end := if i + 4 < |data| then i + 4 else |data|;
    var group := data[i..end];
    DecodeAppend(data[..i], group, groups);
    assert data[..end] == data[..i] + group;
    GroupValues(data, i, end);
  }

  /** A group cut out of the input reads the same values as the input at its offset. */
  lemma GroupValues(data: seq<byte>, i: nat, end: nat)
    requires i < end <= |data| && end == (if i + 4 < |data| then i + 4 else |data|)
    ensures DecodeGroup(data[i..end]) ==
      DecodeValues(CharValueAt(data, i), CharValueAt(data, i + 1), CharValueAt(data, i + 2), CharValueAt(data, i + 3))
  {
    var group := data[i..end];
    assert CharValueAt(group, 0) == CharValueAt(data, i);
    assert CharValueAt(group, 1) == CharValueAt(data, i + 1);
    assert CharValueAt(group, 2) == CharValueAt(data, i + 2);
    assert CharValueAt(group, 3) == CharValueAt(data, i + 3);
  }

  /** The encoder's 32-bit `triple`: the three bytes shifted in one at a time, a missing byte shifting in zeros. */
  function Triple(b0: byte, b1: byte, b2: byte): (t: bv32)
  {
    (((b0 as bv32 << 8) | b1 as bv32) << 8) | b2 as bv32
  }

  /** The character index `(triple >> shift) & 0x3F`. */
  function SextetOf(t: bv32, shift: bv32): (v: byte)
    requires shift <= 18
  {
    ((t >> shift) & 0x3f) as byte
  }

  /** The encoder's indices into the alphabet are the four six-bit values of the bytes. */
  lemma TripleSextets(b0: byte, b1: byte, b2: byte)
    ensures var t, s := Triple(b0, b1, b2), Sextets(b0, b1, b2);
      SextetOf(t, 18) == s.0 && SextetOf(t, 12) == s.1 && SextetOf(t, 6) == s.2 && SextetOf(t, 0) == s.3
  {
  }

  /**
   * The body of the encoder's loop for the group at `inputIndex`: the
   * triple, then two characters, then a character or '=' for each of the
   * second and third bytes.
   */
  method EncodeGroupAt(data: seq<byte>, inputIndex: nat) returns (c0: byte, c1: byte, c2: byte, c3: byte)
    requires inputIndex < |data|
    ensures var count := if inputIndex + 3 < |data| then 3 else |data| - inputIndex;
      [c0, c1, c2, c3] == EncodeBytes(data[inputIndex], ByteAt(data, inputIndex + 1), ByteAt(data, inputIndex + 2), count)
  {
    var b1: byte := if inputIndex + 1 < |data| then data[inputIndex + 1] else 0;
    var b2: byte := if inputIndex + 2 < |data| then data[inputIndex + 2] else 0;
    var triple := Triple(data[inputIndex], b1, b2);
    TripleSextets(data[inputIndex], b1, b2);
    c0 := CharOf(SextetOf(triple, 18));
    c1 := CharOf(SextetOf(triple, 12));
    c2 := if inputIndex + 1 < |data| then CharOf(SextetOf(triple, 6)) else Pad;
    c3 := if inputIndex + 2 < |data| then CharOf(SextetOf(triple, 0)) else Pad;
  }

  /** While input is left, the next four characters still fit in the output. */
  lemma GroupFits(n: nat, groups: nat)
    requires 3 * groups < n
    ensures 4 * groups + 4 <= OutputLength(n)
  {
  }

  /** The four stores `output[output_index++] = ...` of one group. */
  method WriteGroup(chars: array<byte>, at: nat, c0: byte, c1: byte, c2: byte, c3: byte)
    requires at + 4 <= chars.Length
    modifies chars
    ensures chars[..at + 4] == old(chars[..at]) + [c0, c1, c2, c3]
  {
    chars[at], chars[at + 1], chars[at + 2], chars[at + 3] := c0, c1, c2, c3;
  }

  /**
   * encode_to_base_64: allocates the output string at its final length and
   * fills four characters per group of three input bytes.
   */
  method EncodeToBase64(data: seq<byte>) returns (output: seq<byte>)
    ensures output == Encode(data)
  {
    if |data| == 0 {
      return [];
    }
    var outputLength := OutputLength(|data|);
    var chars := new byte[outputLength];
    var outputIndex := 0;
    var inputIndex := 0;
    ghost var groups := 0;
    ghost var consumed := 0;
    GroupFits(|data|, 0);
    while inputIndex < |data|
      invariant inputIndex == 3 * groups && outputIndex == 4 * groups
      invariant consumed == if inputIndex < |data| then inputIndex else |data|
      invariant inputIndex >= |data| ==> outputIndex == outputLength
      invariant inputIndex < |data| ==> outputIndex + 4 <= outputLength
      invariant chars[..outputIndex] == Encode(data[..consumed])
      decreases |data| - inputIndex
    {
      var c0, c1, c2, c3 := EncodeGroupAt(data, inputIndex);
      ghost var written := chars[..outputIndex];
      WriteGroup(chars, outputIndex, c0, c1, c2, c3);
      consumed := if inputIndex + 3 < |data| then inputIndex + 3 else |data|;
      assert chars[..outputIndex + 4] == Encode(data[..consumed]) by {
        EncodeStep(data, inputIndex, groups);
      }
      outputIndex := outputIndex + 4;
      inputIndex := inputIndex + 3;
      groups := groups + 1;
      if inputIndex < |data| {
        GroupFits(|data|, groups);
      } else {
        assert data[..consumed] == data;
        EncodedLength(data);
      }
    }
    assert data[..|data|] == data;
    output := chars[..];
  }

  lemma ConcatAssociates<T>(a: seq<T>, b: seq<T>, c: seq<T>, d: seq<T>)
    ensures a + b + c + d == a + (b + c + d)
  {
  }

  /**
   * The body of the decoder's loop: the three bytes of a group, each
   * `push_back` only when the character it needs is valid.
   */
  method PushGroup(result: seq<byte>, v0: byte, v1: byte, v2: byte, v3: byte) returns (extended: seq<byte>)
    ensures extended == result + DecodeValues(v0, v1, v2, v3)
  {
    var b0, b1, b2 := FirstByte(v0, v1), SecondByte(v1, v2), ThirdByte(v2, v3);
    extended := result;
    if v1 != Invalid {
      extended := extended + [b0];
    }
    if v2 != Invalid {
      extended := extended + [b1];
    }
    if v3 != Invalid {
      extended := extended + [b2];
    }
    ghost var p0: seq<byte> := if v1 != Invalid then [b0] else [];
    ghost var p1: seq<byte> := if v2 != Invalid then [b1] else [];
    ghost var p2: seq<byte> := if v3 != Invalid then [b2] else [];
    assert extended == result + p0 + p1 + p2;
    ConcatAssociates(result, p0, p1, p2);
  }

  /**
   * decode_from_base_64: four characters at a time, a missing character
   * read as '=', each byte pushed only when its character is valid.
   */
  method DecodeFromBase64(data: seq<byte>) returns (result: seq<byte>)
    ensures result == Decode(data)
  {
    if |data| == 0 {
      return [];
    }
    result := [];
    var i := 0;
    ghost var groups := 0;
    while i < |data|
      invariant i == 4 * groups && i <= |data| + 3
      invariant result == Decode(data[..if i < |data| then i else |data|])
      decreases |data| - i
    {
      var v0 := ValueOf(data[i]);
      var v1 := if i + 1 < |data| then ValueOf(data[i + 1]) else ValueOf(Pad);
      var v2 := if i + 2 < |data| then ValueOf(data[i + 2]) else ValueOf(Pad);
      var v3 := if i + 3 < |data| then ValueOf(data[i + 3]) else ValueOf(Pad);
      assert v1 == CharValueAt(data, i + 1) && v2 == CharValueAt(data, i + 2) && v3 == CharValueAt(data, i + 3);
      result := PushGroup(result, v0, v1, v2, v3);
      DecodeStep(data, i, groups);
      i := i + 4;
      groups := groups + 1;
    }
    assert data[..|data|] == data;
  }

  /** The number of '=' characters the encoder appends for `n` input bytes. */
  function PaddingCount(n: nat): (p: nat)
    ensures p <= 2 && (p == 0 <==> n % 3 == 0)
  {
    if n % 3 == 0 then 0 else 3 - n % 3
  }

  /**
   * One trailing byte gives "==", two give "=", and a whole number of groups
   * none: '=' appears exactly in the last PaddingCount positions.
   */
  lemma {:induction false} PaddingAtEnd(data: seq<byte>)
    ensures var out := Encode(data);
      forall k :: 0 <= k < |out| ==> (out[k] == Pad <==> k >= |out| - PaddingCount(|data|))
    decreases |data|
  {
    var out := Encode(data);
    if data == [] {
    } else if |data| <= 3 {
      GroupPadding(data);
    } else {
      var head, rest := EncodeGroup(data[..3]), Encode(data[3..]);
      assert out == head + rest;
      PaddingAtEnd(data[3..]);
      GroupPadding(data[..3]);
      EncodedLength(data[3..]);
      GroupFits(|data| - 3, 0);
      assert PaddingCount(|data|) == PaddingCount(|data| - 3);
      forall k | 0 <= k < |out|
        ensures out[k] == Pad <==> k >= |out| - PaddingCount(|data|)
      {
        if k >= 4 {
          assert out[k] == rest[k - 4];
        } else {
          assert out[k] == head[k];
        }
      }
    }
  }

  /** Within one group, '=' fills exactly the positions of the missing bytes. */
  lemma GroupPadding(group: seq<byte>)
    requires 1 <= |group| <= 3
    ensures var out := EncodeGroup(group);
      forall k :: 0 <= k < 4 ==> (out[k] == Pad <==> k >= 4 - PaddingCount(|group|))
  {
  }

  /** The URL-safe characters of RFC 4648, section 5, replaced by their standard counterparts. */
  function ToStandardAlphabet(s: seq<byte>): (r: seq<byte>)
    ensures |r| == |s|
    ensures forall k :: 0 <= k < |s| ==> r[k] == (if s[k] == 0x2d then 0x2b else if s[k] == 0x5f then 0x2f else s[k])
  {
    seq(|s|, k requires 0 <= k < |s| => if s[k] == 0x2d then 0x2b else if s[k] == 0x5f then 0x2f else s[k])
  }

  /** The decoder reads '-' as '+' and '_' as '/'. */
  lemma {:induction false} UrlSafeAccepted(s: seq<byte>)
    ensures Decode(s) == Decode(ToStandardAlphabet(s))
    decreases |s|
  {
    var t := ToStandardAlphabet(s);
    if s == [] {
    } else if |s| <= 4 {
      assert forall k :: 0 <= k < 4 ==> CharValueAt(s, k) == CharValueAt(t, k);
    } else {
      assert forall k :: 0 <= k < 4 ==> CharValueAt(s[..4], k) == CharValueAt(t[..4], k);
      assert t[4..] == ToStandardAlphabet(s[4..]);
      UrlSafeAccepted(s[4..]);
    }
  }

  /** Both directions on the empty input, and "Ma" <-> "TWE=" each way. */
  lemma Examples()
    ensures Encode([]) == [] && Decode([]) == []
    ensures Encode([0x4d, 0x61]) == [0x54, 0x57, 0x45, 0x3d]
    ensures Decode([0x54, 0x57, 0x45, 0x3d]) == [0x4d, 0x61]
  {
  }
}
