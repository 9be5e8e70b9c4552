/**
 * The endian-safe binary stream (src/libFluid/serialization/helpers/EndianSafeBinaryStream.hpp).
 *
 * Every integer is written to the underlying stream in little-endian byte
 * order whatever the host: a value's bytes are swapped before writing (and
 * after reading) only on a big-endian host, where its memory layout is the
 * reverse of little-endian. Floating-point values take a second path that
 * reverses their memory bytes in place.
 *
 * The underlying stream is a byte sequence with a read position and a fail
 * flag: a read that runs past the end takes what is left, sets the flag, and
 * every later read gets nothing, as with a std::istream. The integer and
 * floating-point readers turn a failed read into the "malformed data" error;
 * `read_array` (and so the string reader) does not check.
 *
 * An integer of `width` bytes is modelled by its unsigned value below
 * 256^width, which is also the bit pattern of the signed types; the source's
 * shifts and masks on it are the matching divisions and multiplications by
 * powers of 256. A float or double is modelled by its IEEE-754 bit pattern,
 * which is how its memory bytes read as an integer of the same width.
 */
module EndianStream {
  import opened Wrappers

  type uint8 = x: int | 0 <= x < 0x100
  type uint16 = x: int | 0 <= x < 0x1_0000
  type uint32 = x: int | 0 <= x < 0x1_0000_0000
  type uint64 = x: int | 0 <= x < 0x1_0000_0000_0000_0000

  /** The stream's `array_buffer_size`: the most bytes one `write` or `read` call moves in the array helpers. */
  const ArrayBufferSize: nat := 4096

  /** The sequence read back to front. */
  function Reverse<T>(s: seq<T>): (r: seq<T>)
    ensures |r| == |s|
  {
    if s == [] then [] else Reverse(s[1..]) + [s[0]]
  }

  /** Element k of the reversed sequence is element |s| - 1 - k of s. */
  lemma {:induction false} ReverseAt<T>(s: seq<T>)
    ensures forall k :: 0 <= k < |s| ==> Reverse(s)[k] == s[|s| - 1 - k]
  {
    if s != [] {
      ReverseAt(s[1..]);
    }
  }

  /** Reversing twice gives the sequence back. */
  lemma ReverseReverse<T>(s: seq<T>)
    ensures Reverse(Reverse(s)) == s
  {
    ReverseAt(s);
    ReverseAt(Reverse(s));
  }

  /** Reversing a concatenation reverses and exchanges the parts. */
  lemma ReverseConcat<T>(a: seq<T>, b: seq<T>)
    ensures Reverse(a + b) == Reverse(b) + Reverse(a)
  {
    ReverseAt(a + b);
    ReverseAt(a);
    ReverseAt(b);
  }

  // ---------------------------------------------------------------------
  // Little-endian bytes
  // ---------------------------------------------------------------------

  /** 256 to the power `width`: one more than the largest value of `width` bytes. */
  function Power256(width: nat): (p: nat)
    ensures p >= 1
  {
    if width == 0 then 1 else 256 * Power256(width - 1)
  }

  /** The powers of 256 for the widths of the stream's integer types. */
  lemma Powers()
    ensures Power256(1) == 0x100 && Power256(2) == 0x1_0000
    ensures Power256(4) == 0x1_0000_0000 && Power256(8) == 0x1_0000_0000_0000_0000
  {
    assert Power256(2) == 0x1_0000;
    assert Power256(4) == 0x1_0000_0000;
  }

  /** The `width` low bytes of v, least significant first. */
  function LittleEndian(v: nat, width: nat): (b: seq<uint8>)
    ensures |b| == width
  {
    if width == 0 then [] else [v % 256] + LittleEndian(v / 256, width - 1)
  }

  /** The value whose little-endian bytes are b. */
  function FromLittleEndian(b: seq<uint8>): (v: nat)
    ensures v < Power256(|b|)
  {
    if b == [] then 0 else b[0] + 256 * FromLittleEndian(b[1..])
  }

  /** A value that fits in `width` bytes reads back from its little-endian bytes. */
  lemma {:induction false} ValueRoundTrip(v: nat, width: nat)
    requires v < Power256(width)
    ensures FromLittleEndian(LittleEndian(v, width)) == v
  {
    if width > 0 {
      ValueRoundTrip(v / 256, width - 1);
    }
  }

  /** Bytes read as a value write back as the same bytes. */
  lemma {:induction false} BytesRoundTrip(b: seq<uint8>)
    ensures LittleEndian(FromLittleEndian(b), |b|) == b
  {
    if b != [] {
      BytesRoundTrip(b[1..]);
      assert (b[0] + 256 * FromLittleEndian(b[1..])) / 256 == FromLittleEndian(b[1..]);
    }
  }

  /** Dividing `lo + 256 * q` by 256. */
  lemma DivModStep(lo: nat, q: nat)
    ensures (lo + 256 * q) % 256 == lo % 256 && (lo + 256 * q) / 256 == lo / 256 + q
  {
  }

  /** The low byte of `lo + 256^k * hi` is lo's, and the rest is `lo / 256 + 256^(k - 1) * hi`. */
  lemma SplitStep(lo: nat, hi: nat, k: nat)
    requires 0 < k && lo < Power256(k)
    ensures var v := lo + Power256(k) * hi;
      v % 256 == lo % 256 && v / 256 == lo / 256 + Power256(k - 1) * hi && lo / 256 < Power256(k - 1)
  {
    var q := Power256(k - 1) * hi;
    assert Power256(k) * hi == 256 * q;
    DivModStep(lo, q);
  }

  /** The bytes of `lo + 256^k * hi`: those of lo, then those of hi. */
  lemma {:induction false} LittleEndianSplit(lo: nat, hi: nat, k: nat, m: nat)
    requires lo < Power256(k)
    ensures LittleEndian(lo + Power256(k) * hi, k + m) == LittleEndian(lo, k) + LittleEndian(hi, m)
  {
    if k > 0 {
      var v := lo + Power256(k) * hi;
      SplitStep(lo, hi, k);
      LittleEndianSplit(lo / 256, hi, k - 1, m);
      assert LittleEndian(v, k + m) == [v % 256] + LittleEndian(v / 256, k - 1 + m);
    }
  }

  // ---------------------------------------------------------------------
  // SwapByte: byte order of 2-, 4- and 8-byte values
  // ---------------------------------------------------------------------

  /** `SwapByte<T, 2>::swap` on a big-endian host, `(v >> 8) | (v << 8)` kept to 16 bits. */
  function Swap16(v: uint16): uint16
  {
    v / 0x100 + (v % 0x100) * 0x100
  }

  /** `SwapByte<T, 4>::swap`: the swapped low half shifted up over the swapped high half. */
  function Swap32(v: uint32): uint32
  {
    Swap16(v % 0x1_0000) * 0x1_0000 + Swap16(v / 0x1_0000)
  }

  /** `SwapByte<T, 8>::swap`: the same with 32-bit halves. */
  function Swap64(v: uint64): uint64
  {
    Swap32(v % 0x1_0000_0000) * 0x1_0000_0000 + Swap32(v / 0x1_0000_0000)
  }

  /** Swapping a 16-bit value reverses its bytes. */
  lemma Swap16Reverses(v: uint16)
    ensures LittleEndian(Swap16(v), 2) == Reverse(LittleEndian(v, 2))
  {
  }

  /**
   * A value of 2k bytes whose halves are each byte-reversed and exchanged
   * has all its bytes reversed.
   */
  lemma SwappedHalves(v: nat, swapped: nat, k: nat, lo: nat, hi: nat, swappedLo: nat, swappedHi: nat)
    requires lo < Power256(k) && swappedHi < Power256(k)
    requires v == lo + Power256(k) * hi && swapped == swappedHi + Power256(k) * swappedLo
    requires LittleEndian(swappedLo, k) == Reverse(LittleEndian(lo, k))
    requires LittleEndian(swappedHi, k) == Reverse(LittleEndian(hi, k))
    ensures LittleEndian(swapped, k + k) == Reverse(LittleEndian(v, k + k))
  {
    assert LittleEndian(swapped, k + k) == LittleEndian(swappedHi, k) + LittleEndian(swappedLo, k) by {
      LittleEndianSplit(swappedHi, swappedLo, k, k);
    }
    assert LittleEndian(v, k + k) == LittleEndian(lo, k) + LittleEndian(hi, k) by {
      LittleEndianSplit(lo, hi, k, k);
    }
    ReverseConcat(LittleEndian(lo, k), LittleEndian(hi, k));
  }

  /** Swapping a 32-bit value reverses its bytes. */
  lemma Swap32Reverses(v: uint32)
    ensures LittleEndian(Swap32(v), 4) == Reverse(LittleEndian(v, 4))
  {
    var lo, hi := v % 0x1_0000, v / 0x1_0000;
    Swap16Reverses(lo);
    Swap16Reverses(hi);
    Powers();
    SwappedHalves(v, Swap32(v), 2, lo, hi, Swap16(lo), Swap16(hi));
  }

  /** Swapping a 64-bit value reverses its bytes. */
  lemma Swap64Reverses(v: uint64)
    ensures LittleEndian(Swap64(v), 8) == Reverse(LittleEndian(v, 8))
  {
    var lo, hi := v % 0x1_0000_0000, v / 0x1_0000_0000;
    Swap32Reverses(lo);
    Swap32Reverses(hi);
    Powers();
    SwappedHalves(v, Swap64(v), 4, lo, hi, Swap32(lo), Swap32(hi));
  }

  // ---------------------------------------------------------------------
  // Host memory layout
  // ---------------------------------------------------------------------

  /** The bytes of a value as they lie in memory: reversed on a big-endian host. */
  function HostLayout(littleEndian: seq<uint8>, bigEndianHost: bool): seq<uint8>
  {
    if bigEndianHost then Reverse(littleEndian) else littleEndian
  }

  /** `should_swap`: only a big-endian host swaps. */
  function ShouldSwap(bigEndianHost: bool): bool
  {
    bigEndianHost
  }

  /** The swap a host applies to a value of `width` bytes before writing and after reading. */
  function SwapFor(v: nat, width: nat, bigEndianHost: bool): nat
    requires width in {1, 2, 4, 8} && v < Power256(width)
  {
    if !ShouldSwap(bigEndianHost) || width == 1 then v
    else if width == 2 then Swap16(v)
    else if width == 4 then Swap32(v)
    else Swap64(v)
  }

  /** On a big-endian host the swap reverses the bytes of every width. */
  lemma SwapReverses(v: nat, width: nat)
    requires width in {1, 2, 4, 8} && v < Power256(width)
    ensures SwapFor(v, width, true) < Power256(width)
    ensures LittleEndian(SwapFor(v, width, true), width) == Reverse(LittleEndian(v, width))
  {
    Powers();
    if width == 2 {
      Swap16Reverses(v);
    } else if width == 4 {
      Swap32Reverses(v);
    } else if width == 8 {
      Swap64Reverses(v);
    }
  }

  /** Writing an integer puts its little-endian bytes on the stream on every host. */
  lemma Written(v: nat, width: nat, bigEndianHost: bool)
    requires width in {1, 2, 4, 8} && v < Power256(width)
    ensures SwapFor(v, width, bigEndianHost) < Power256(width)
    ensures HostLayout(LittleEndian(SwapFor(v, width, bigEndianHost), width), bigEndianHost) == LittleEndian(v, width)
  {
    if bigEndianHost {
      SwapReverses(v, width);
      ReverseReverse(LittleEndian(v, width));
    }
  }

  /** Reading an integer's bytes into memory and swapping on a big-endian host gives their little-endian value. */
  lemma ReadBack(b: seq<uint8>, bigEndianHost: bool)
    requires |b| in {1, 2, 4, 8}
    ensures SwapFor(FromLittleEndian(HostLayout(b, bigEndianHost)), |b|, bigEndianHost) == FromLittleEndian(b)
  {
    if bigEndianHost {
      var m := FromLittleEndian(Reverse(b));
      SwapReverses(m, |b|);
      BytesRoundTrip(Reverse(b));
      ReverseReverse(b);
      ValueRoundTrip(SwapFor(m, |b|, true), |b|);
      BytesRoundTrip(b);
    }
  }

  // ---------------------------------------------------------------------
  // Strings, vectors and arrays as byte sequences
  // ---------------------------------------------------------------------

  /** The message of every failed integer or floating-point read. */
  const MalformedData: string := "malformed data"

  function Min(a: nat, b: nat): nat
  {
    if a < b then a else b
  }

  /**
   * What one `read` of n bytes gets from a stream whose bytes, position and
   * fail flag are given: nothing once the stream has failed, otherwise up to
   * n of the bytes left.
   */
  function Available(bytes: seq<uint8>, position: nat, failed: bool, n: nat): (got: seq<uint8>)
    requires position <= |bytes|
    ensures |got| <= n
    ensures !failed && position + n <= |bytes| ==> got == bytes[position..position + n]
    ensures failed ==> got == []
  {
    if failed then [] else bytes[position..Min(position + n, |bytes|)]
  }

  /** `base` with the bytes from `at` on replaced by `part`, as a read into a buffer leaves it. */
  function Overlay(base: seq<uint8>, at: nat, part: seq<uint8>): (r: seq<uint8>)
    requires at + |part| <= |base|
    ensures |r| == |base|
  {
    base[..at] + part + base[at + |part|..]
  }

  /** Inside the overlaid range the part shows, elsewhere the base. */
  lemma OverlayAt(base: seq<uint8>, at: nat, part: seq<uint8>)
    requires at + |part| <= |base|
    ensures forall k :: 0 <= k < |base| ==>
      Overlay(base, at, part)[k] == if at <= k < at + |part| then part[k - at] else base[k]
  {
  }

  /** `std::string::resize`: the prefix kept, zero bytes appended. */
  function Resized(s: seq<uint8>, n: nat): (r: seq<uint8>)
    ensures |r| == n
    ensures n <= |s| ==> r == s[..n]
    ensures n > |s| ==> r[..|s|] == s && forall k :: |s| <= k < n ==> r[k] == 0
  {
    if n <= |s| then s[..n] else s + seq(n - |s|, _ => 0)
  }

  /** The sizes of the `write` calls `write_array` makes for `length` bytes: full buffers, then the rest. */
  function ChunkSizes(length: nat): (sizes: seq<nat>)
    decreases length
  {
    if length == 0 then []
    else if length <= ArrayBufferSize then [length]
    else [ArrayBufferSize] + ChunkSizes(length - ArrayBufferSize)
  }

  function Sum(sizes: seq<nat>): nat
  {
    if sizes == [] then 0 else sizes[0] + Sum(sizes[1..])
  }

  /** The chunks cover the array exactly, and none is empty or larger than the buffer. */
  lemma {:induction false} ChunkSizesCover(length: nat)
    ensures Sum(ChunkSizes(length)) == length
    ensures forall k :: 0 <= k < |ChunkSizes(length)| ==> 0 < ChunkSizes(length)[k] <= ArrayBufferSize
    decreases length
  {
    if length > ArrayBufferSize {
      ChunkSizesCover(length - ArrayBufferSize);
    }
  }

  /** After `full` whole buffers, a chunk of `rest` bytes is the next write. */
  lemma {:induction false} ChunkSizesAppend(full: nat, rest: nat)
    requires 0 < rest <= ArrayBufferSize
    ensures ChunkSizes(full * ArrayBufferSize + rest) == ChunkSizes(full * ArrayBufferSize) + [rest]
    decreases full
  {
    if full > 0 {
      ChunkSizesAppend(full - 1, rest);
      assert full * ArrayBufferSize + rest - ArrayBufferSize == (full - 1) * ArrayBufferSize + rest;
      assert full * ArrayBufferSize - ArrayBufferSize == (full - 1) * ArrayBufferSize;
    }
  }

  /** The `uint64_t` length the string and vector extensions write before their contents. */
  function LengthField(n: nat): (b: seq<uint8>)
    ensures |b| == 8
  {
    LittleEndian(n, 8)
  }

  /** A length field reads back as the length written. */
  lemma LengthRoundTrip(n: nat)
    requires n < 0x1_0000_0000_0000_0000
    ensures FromLittleEndian(LengthField(n)) == n
  {
    Powers();
    ValueRoundTrip(n, 8);
  }

  /** The string `<<` extension: a 64-bit length, then the raw bytes. */
  function EncodeString(s: seq<uint8>): (b: seq<uint8>)
  {
    LengthField(|s|) + s
  }

  /**
   * The string `>>` extension on a stream in the given state: the length
   * must read in full (or "malformed data" is thrown); the previous contents
   * are resized to it and overwritten with what the stream still has, with
   * no check that all of it was there.
   */
  function ReadStringFrom(bytes: seq<uint8>, position: nat, failed: bool, previous: seq<uint8>): (r: Result<seq<uint8>>)
    requires position <= |bytes|
  {
    var head := Available(bytes, position, failed, 8);
    if |head| < 8 then Err(MalformedData)
    else
      var length := FromLittleEndian(head);
      var payload := Available(bytes, position + 8, false, length);
      Ok(Overlay(Resized(previous, length), 0, payload))
  }

  /** A string written to the stream reads back whole, whatever was in the string before. */
  lemma StringRoundTrip(prefix: seq<uint8>, s: seq<uint8>, rest: seq<uint8>, previous: seq<uint8>)
    requires |s| < 0x1_0000_0000_0000_0000
    ensures ReadStringFrom(prefix + EncodeString(s) + rest, |prefix|, false, previous) == Ok(s)
  {
    var bytes := prefix + EncodeString(s) + rest;
    var p := |prefix|;
    assert bytes == prefix + LengthField(|s|) + s + rest;
    assert bytes[p..p + 8] == LengthField(|s|);
    LengthRoundTrip(|s|);
    assert bytes[p + 8..p + 8 + |s|] == s;
    assert Overlay(Resized(previous, |s|), 0, s) == s;
  }

  /**
   * A string whose stated length runs past the end of the stream is not an
   * error: the missing bytes keep the previous contents (or zero).
   */
  lemma ShortStringIsAccepted(length: nat, payload: seq<uint8>, previous: seq<uint8>)
    requires |payload| < length < 0x1_0000_0000_0000_0000
    ensures var r := ReadStringFrom(LengthField(length) + payload, 0, false, previous);
      r.Ok? && |r.value| == length && r.value[..|payload|] == payload &&
      r.value[|payload|..] == Resized(previous, length)[|payload|..]
  {
    var bytes := LengthField(length) + payload;
    assert bytes[0..8] == LengthField(length);
    LengthRoundTrip(length);
    assert bytes[8..] == payload;
  }

  /** The elements of a vector of 32-bit integers, each as four little-endian bytes. */
  function EncodeWords(v: seq<uint32>): (b: seq<uint8>)
    ensures |b| == 4 * |v|
  {
    if v == [] then [] else LittleEndian(v[0], 4) + EncodeWords(v[1..])
  }

  /** The vector `<<` extension for 32-bit elements: a 64-bit length, then each element. */
  function EncodeVector(v: seq<uint32>): (b: seq<uint8>)
  {
    LengthField(|v|) + EncodeWords(v)
  }

  /** Reading n elements from `position`: "malformed data" as soon as one is short. */
  function ReadWordsFrom(bytes: seq<uint8>, position: nat, n: nat): (r: Result<seq<uint32>>)
    requires position <= |bytes|
    ensures r.Ok? ==> |r.value| == n
    decreases n
  {
    if n == 0 then Ok([])
    else
      var got := Available(bytes, position, false, 4);
      if |got| < 4 then Err(MalformedData)
      else
        var rest := ReadWordsFrom(bytes, position + 4, n - 1);
        if rest.Err? then rest else Ok([FromLittleEndian(got) as uint32] + rest.value)
  }

  /** The vector `>>` extension for 32-bit elements on a stream in the given state. */
  function ReadVectorFrom(bytes: seq<uint8>, position: nat, failed: bool): (r: Result<seq<uint32>>)
    requires position <= |bytes|
  {
    var head := Available(bytes, position, failed, 8);
    if |head| < 8 then Err(MalformedData)
    else ReadWordsFrom(bytes, position + 8, FromLittleEndian(head))
  }

  /** Elements written one after the other read back in order. */
  lemma {:induction false} WordsRoundTrip(prefix: seq<uint8>, v: seq<uint32>, rest: seq<uint8>)
    ensures ReadWordsFrom(prefix + EncodeWords(v) + rest, |prefix|, |v|) == Ok(v)
    decreases |v|
  {
    if v != [] {
      var first := LittleEndian(v[0], 4);
      var bytes := prefix + EncodeWords(v) + rest;
      assert bytes == (prefix + first) + EncodeWords(v[1..]) + rest;
      assert Available(bytes, |prefix|, false, 4) == first by {
        assert bytes[|prefix|..|prefix| + 4] == first;
      }
      assert FromLittleEndian(first) == v[0] by {
        Powers();
        ValueRoundTrip(v[0], 4);
      }
      WordsRoundTrip(prefix + first, v[1..], rest);
      assert [v[0]] + v[1..] == v;
    }
  }

  /** A vector written to the stream reads back whole. */
  lemma VectorRoundTrip(prefix: seq<uint8>, v: seq<uint32>, rest: seq<uint8>)
    requires |v| < 0x1_0000_0000_0000_0000
    ensures ReadVectorFrom(prefix + EncodeVector(v) + rest, |prefix|, false) == Ok(v)
  {
    var bytes := prefix + EncodeVector(v) + rest;
    var p := |prefix|;
    assert bytes[p..p + 8] == LengthField(|v|);
    LengthRoundTrip(|v|);
    WordsRoundTrip(prefix + LengthField(|v|), v, rest);
    assert bytes == (prefix + LengthField(|v|)) + EncodeWords(v) + rest;
  }

  /** A value of `width` bytes, written by the integer path, read back by the integer path on the same stream contents. */
  lemma IntegerRoundTrip(v: nat, width: nat, prefix: seq<uint8>, rest: seq<uint8>)
    requires width in {1, 2, 4, 8} && v < Power256(width)
    ensures var bytes := prefix + LittleEndian(v, width) + rest;
      Available(bytes, |prefix|, false, width) == LittleEndian(v, width) &&
      FromLittleEndian(Available(bytes, |prefix|, false, width)) == v
  {
    var bytes := prefix + LittleEndian(v, width) + rest;
    assert bytes[|prefix|..|prefix| + width] == LittleEndian(v, width);
    ValueRoundTrip(v, width);
  }

  /**
   * Two reads in a row get what one read of both sizes would: the second
   * starts where the first stopped, and gets nothing if the first was short.
   */
  lemma AvailableSplit(bytes: seq<uint8>, position: nat, failed: bool, n: nat, m: nat)
    requires position <= |bytes|
    ensures var first := Available(bytes, position, failed, n);
      position + |first| <= |bytes| &&
      first + Available(bytes, position + |first|, failed || |first| < n, m) == Available(bytes, position, failed, n + m)
  {
    var first := Available(bytes, position, failed, n);
    if !failed && |first| == n {
      assert bytes[position..Min(position + n + m, |bytes|)] ==
        bytes[position..position + n] + bytes[position + n..Min(position + n + m, |bytes|)];
    }
  }

  /** Overlaying a part and then its continuation right after it overlays both at once. */
  lemma OverlayExtend(base: seq<uint8>, a: seq<uint8>, b: seq<uint8>)
    requires |a| + |b| <= |base|
    ensures Overlay(Overlay(base, 0, a), |a|, b) == Overlay(base, 0, a + b)
  {
    var left := Overlay(Overlay(base, 0, a), |a|, b);
    var right := Overlay(base, 0, a + b);
    OverlayAt(base, 0, a);
    OverlayAt(Overlay(base, 0, a), |a|, b);
    OverlayAt(base, 0, a + b);
    forall k | 0 <= k < |base|
      ensures left[k] == right[k]
    {
    }
  }

  /** Encoding one more element appends its four bytes. */
  lemma {:induction false} EncodeWordsAppend(v: seq<uint32>, x: uint32)
    ensures EncodeWords(v + [x]) == EncodeWords(v) + LittleEndian(x, 4)
    decreases |v|
  {
    if v != [] {
      EncodeWordsAppend(v[1..], x);
      assert (v + [x])[1..] == v[1..] + [x];
    } else {
      assert EncodeWords([x]) == LittleEndian(x, 4) + EncodeWords([]);
    }
  }

  /** The sizes of the writes of n vector elements: four bytes each. */
  function WordSizes(n: nat): (sizes: seq<nat>)
    ensures |sizes| == n
  {
    if n == 0 then [] else WordSizes(n - 1) + [4]
  }

  /** The elements `acc` read so far in front of the outcome of reading the rest. */
  function Prepend(acc: seq<uint32>, r: Result<seq<uint32>>): (p: Result<seq<uint32>>)
    ensures p.Ok? <==> r.Ok?
    ensures p.Ok? ==> p.value == acc + r.value
    ensures p.Err? ==> p == r
  {
    if r.Err? then r else Ok(acc + r.value)
  }

  /** Nothing in front of an outcome leaves it as it is. */
  lemma PrependNothing(r: Result<seq<uint32>>)
    ensures Prepend([], r) == r
  {
    if r.Ok? {
      assert [] + r.value == r.value;
    }
  }

  /** Reading n elements is reading the first, then n - 1 from where it ended. */
  lemma ReadWordsStep(bytes: seq<uint8>, position: nat, n: nat, acc: seq<uint32>, x: nat)
    requires position <= |bytes| && 0 < n
    requires |Available(bytes, position, false, 4)| == 4 && x == FromLittleEndian(Available(bytes, position, false, 4))
    ensures x < 0x1_0000_0000
    ensures Prepend(acc, ReadWordsFrom(bytes, position, n)) == Prepend(acc + [x as uint32], ReadWordsFrom(bytes, position + 4, n - 1))
  {
    Powers();
    var rest := ReadWordsFrom(bytes, position + 4, n - 1);
    if rest.Ok? {
      assert acc + ([x as uint32] + rest.value) == (acc + [x as uint32]) + rest.value;
    }
  }

  /**
   * One more chunk of `read_array`: after `done` bytes were asked for, asking
   * for `n` more from where the stream stands extends both what was read and
   * what the destination holds.
   */
  lemma ReadArrayStep(bytes: seq<uint8>, start: nat, failed: bool, base: seq<uint8>, done: nat, n: nat,
                      got: seq<uint8>, chunk: seq<uint8>)
    requires start <= |bytes| && done + n <= |base|
    requires got == Available(bytes, start, failed, done)
    requires start + |got| <= |bytes|
    requires chunk == Available(bytes, start + |got|, failed || |got| < done, n)
    ensures got + chunk == Available(bytes, start, failed, done + n)
    ensures Overlay(Overlay(base, 0, got), done, chunk) == Overlay(base, 0, got + chunk)
    ensures ((failed || |got| < done) || |chunk| < n) == (failed || |got + chunk| < done + n)
  {
    AvailableSplit(bytes, start, failed, done, n);
    if chunk == [] {
      assert Overlay(Overlay(base, 0, got), done, chunk) == Overlay(base, 0, got);
      assert got + chunk == got;
    } else {
      OverlayExtend(base, got, chunk);
    }
  }

  /**
   * The floating-point helpers' byte swap: `swap_bytes(c[i], c[size - 1 - i])`
   * for every i below half the size, which reverses the buffer in place.
   */
  method SwapBytesInPlace(c: array<uint8>)
    modifies c
    ensures c[..] == Reverse(old(c[..]))
  {
    var n := c.Length;
    ReverseAt(c[..]);
    var i := 0;
    while i < n / 2
      invariant 0 <= i <= n / 2
      invariant forall k :: 0 <= k < i ==> c[k] == old(c[n - 1 - k]) && c[n - 1 - k] == old(c[k])
      invariant forall k :: i <= k < n - i ==> c[k] == old(c[k])
    {
      c[i], c[n - 1 - i] := c[n - 1 - i], c[i];
      i := i + 1;
    }
  }

  /** The underlying read's copy of `part` into the destination buffer from index `at`. */
  method CopyInto(v: array<uint8>, at: nat, part: seq<uint8>)
    requires at + |part| <= v.Length
    modifies v
    ensures v[..] == Overlay(old(v[..]), at, part)
  {
    var k := 0;
    while k < |part|
      invariant 0 <= k <= |part|
      invariant forall j :: 0 <= j < v.Length ==> v[j] == if at <= j < at + k then part[j - at] else old(v[j])
    {
      v[at + k] := part[k];
      k := k + 1;
    }
    OverlayAt(old(v[..]), at, part);
  }

  // ---------------------------------------------------------------------
  // The stream
  // ---------------------------------------------------------------------

  /**
   * EndianSafeBinaryStream over an underlying byte stream. Writes append to
   * `bytes`; reads consume from `position`.
   */
  class BinaryStream {
    /** Everything written so far, or the whole input. */
    var bytes: seq<uint8>
    /** The underlying stream's read position. */
    var position: nat
    /** The underlying stream's fail state, which `!stream` tests. */
    var failed: bool
    /** Whether the host stores integers most significant byte first. */
    const bigEndianHost: bool
    /** The size of every `write` call made on the underlying stream, in order. */
    ghost var writeSizes: seq<nat>

    ghost predicate Valid()
      reads this
    {
      position <= |bytes|
    }

    constructor (contents: seq<uint8>, bigEndianHost: bool)
      ensures Valid() && bytes == contents && position == 0 && !failed && writeSizes == []
      ensures this.bigEndianHost == bigEndianHost
    {
      bytes := contents;
      position := 0;
      failed := false;
      this.bigEndianHost := bigEndianHost;
      writeSizes := [];
    }

    /** The underlying `stream.write`. */
    method Write(chunk: seq<uint8>)
      requires Valid()
      modifies this
      ensures Valid() && bytes == old(bytes) + chunk && writeSizes == old(writeSizes) + [|chunk|]
      ensures position == old(position) && failed == old(failed)
    {
      bytes := bytes + chunk;
      writeSizes := writeSizes + [|chunk|];
    }

    /** The underlying `stream.read`: a short read takes what is left and fails the stream. */
    method Read(n: nat) returns (got: seq<uint8>)
      requires Valid()
      modifies this
      ensures Valid() && bytes == old(bytes) && writeSizes == old(writeSizes)
      ensures got == Available(old(bytes), old(position), old(failed), n)
      ensures position == old(position) + |got|
      ensures failed == (old(failed) || |got| < n)
    {
      got := Available(bytes, position, failed, n);
      position := position + |got|;
      failed := failed || |got| < n;
    }

    /**
     * `serialize_for_integers`, behind `<<` for every integer type of
     * `width` bytes: swapped on a big-endian host, then its memory bytes written.
     */
    method WriteInteger(v: nat, width: nat)
      requires Valid() && width in {1, 2, 4, 8} && v < Power256(width)
      modifies this
      ensures Valid() && bytes == old(bytes) + LittleEndian(v, width) && writeSizes == old(writeSizes) + [width]
      ensures position == old(position) && failed == old(failed)
    {
      Written(v, width, bigEndianHost);
      var swapped := SwapFor(v, width, bigEndianHost);
      Write(HostLayout(LittleEndian(swapped, width), bigEndianHost));
    }

    /**
     * `deserialize_for_integers`, behind `>>` for every integer type: the
     * memory bytes read, "malformed data" if the stream failed, otherwise
     * the value swapped on a big-endian host.
     */
    method ReadInteger(width: nat) returns (r: Result<nat>)
      requires Valid() && width in {1, 2, 4, 8}
      modifies this
      ensures Valid() && bytes == old(bytes) && writeSizes == old(writeSizes)
      ensures var got := Available(old(bytes), old(position), old(failed), width);
        r == (if |got| < width then Err(MalformedData) else Ok(FromLittleEndian(got))) &&
        position == old(position) + |got| && failed == (old(failed) || |got| < width)
    {
      var got := Read(width);
      if failed {
        return Err(MalformedData);
      }
      var inMemory := FromLittleEndian(HostLayout(got, bigEndianHost));
      r := Ok(SwapFor(inMemory, width, bigEndianHost));
      ReadBack(got, bigEndianHost);
    }

    /** `<<` for bool: the byte 1 or 0. */
    method WriteBool(v: bool)
      requires Valid()
      modifies this
      ensures Valid() && bytes == old(bytes) + [if v then 1 else 0] && writeSizes == old(writeSizes) + [1]
      ensures position == old(position) && failed == old(failed)
    {
      WriteInteger(if v then 1 else 0, 1);
    }

    /** `>>` for bool: zero is false, any other byte true. */
    method ReadBool() returns (r: Result<bool>)
      requires Valid()
      modifies this
      ensures Valid() && bytes == old(bytes) && writeSizes == old(writeSizes)
      ensures var got := Available(old(bytes), old(position), old(failed), 1);
        r == (if |got| < 1 then Err(MalformedData) else Ok(got[0] != 0)) &&
        position == old(position) + |got| && failed == (old(failed) || |got| < 1)
    {
      var f := ReadInteger(1);
      if f.Err? {
        return Err(f.message);
      }
      r := Ok(f.value != 0);
    }

    /**
     * `serialize_for_floating_point`: the value's memory bytes, reversed in
     * place on a big-endian host, are written; so the stream gets the
     * little-endian bytes of its bit pattern on every host.
     */
    method WriteFloatingPoint(bits: nat, width: nat)
      requires Valid() && width in {4, 8} && bits < Power256(width)
      modifies this
      ensures Valid() && bytes == old(bytes) + LittleEndian(bits, width) && writeSizes == old(writeSizes) + [width]
      ensures position == old(position) && failed == old(failed)
    {
      var memory := HostLayout(LittleEndian(bits, width), bigEndianHost);
      var c := new uint8[width](k requires 0 <= k < width => memory[k]);
      assert c[..] == memory;
      if ShouldSwap(bigEndianHost) {
        SwapBytesInPlace(c);
        ReverseReverse(LittleEndian(bits, width));
      }
      Write(c[..]);
    }

    /**
     * `deserialize_for_floating_point`: the bytes read into a zeroed buffer,
     * "malformed data" if the stream failed, otherwise reversed in place on
     * a big-endian host and taken as the value's memory.
     */
    method ReadFloatingPoint(width: nat) returns (r: Result<nat>)
      requires Valid() && width in {4, 8}
      modifies this
      ensures Valid() && bytes == old(bytes) && writeSizes == old(writeSizes)
      ensures var got := Available(old(bytes), old(position), old(failed), width);
        r == (if |got| < width then Err(MalformedData) else Ok(FromLittleEndian(got))) &&
        position == old(position) + |got| && failed == (old(failed) || |got| < width)
    {
      var got := Read(width);
      if failed {
        return Err(MalformedData);
      }
      var c := new uint8[width](k requires 0 <= k < width => got[k]);
      assert c[..] == got;
      if ShouldSwap(bigEndianHost) {
        SwapBytesInPlace(c);
        ReverseReverse(got);
      }
      r := Ok(FromLittleEndian(HostLayout(c[..], bigEndianHost)));
    }

    /** `write_array`: the bytes written in calls of at most `array_buffer_size` each. */
    method WriteArray(v: seq<uint8>)
      requires Valid()
      modifies this
      ensures Valid() && bytes == old(bytes) + v && writeSizes == old(writeSizes) + ChunkSizes(|v|)
      ensures position == old(position) && failed == old(failed)
    {
      var i := 0;
      ghost var full := 0;
      while i < |v|
        invariant i == full * ArrayBufferSize
        invariant Valid() && position == old(position) && failed == old(failed)
        invariant bytes == old(bytes) + v[..Min(i, |v|)]
        invariant writeSizes == old(writeSizes) + ChunkSizes(Min(i, |v|))
        decreases |v| - i
      {
        var lengthToWrite := Min(ArrayBufferSize, |v| - i);
        ChunkSizesAppend(full, lengthToWrite);
        Write(v[i..i + lengthToWrite]);
        assert v[..i + lengthToWrite] == v[..i] + v[i..i + lengthToWrite];
        i := i + ArrayBufferSize;
        full := full + 1;
      }
      assert v[..|v|] == v;
    }

    /**
     * After `read_array` asked for `done` bytes from `start` on: `v` shows
     * the ones there were over `base`, the position moved past them, and
     * the stream failed if it had or if they ran short.
     */
    ghost predicate ReadSoFar(v: array<uint8>, start: nat, failedBefore: bool, base: seq<uint8>, done: nat)
      reads this, v
      requires start <= |bytes| && done <= v.Length == |base|
    {
      var got := Available(bytes, start, failedBefore, done);
      v[..] == Overlay(base, 0, got) && position == start + |got| && failed == (failedBefore || |got| < done)
    }

    /**
     * One round of `read_array`'s loop at index i: at most
     * `array_buffer_size` bytes into `v` from index i on, after i bytes were
     * asked for from `start` on.
     */
    method ReadArrayChunk(v: array<uint8>, i: nat, length: nat, ghost start: nat, ghost failedBefore: bool, ghost base: seq<uint8>)
      requires Valid() && start <= |bytes| && i < length <= v.Length == |base|
      requires ReadSoFar(v, start, failedBefore, base, i)
      modifies this, v
      ensures Valid() && bytes == old(bytes) && writeSizes == old(writeSizes)
      ensures ReadSoFar(v, start, failedBefore, base, Min(i + ArrayBufferSize, length))
    {
      var lengthToRead := Min(ArrayBufferSize, length - i);
      ghost var got := Available(bytes, start, failedBefore, i);
      ghost var chunk := Available(bytes, position, failed, lengthToRead);
      ReadArrayStep(bytes, start, failedBefore, base, i, lengthToRead, got, chunk);
      var part := Read(lengthToRead);
      CopyInto(v, i, part);
      assert v[..] == Overlay(Overlay(base, 0, got), i, chunk);
      assert i + lengthToRead == Min(i + ArrayBufferSize, length);
    }

    /**
     * `read_array`: `length` bytes read into `v` in calls of at most
     * `array_buffer_size` each. Nothing is checked: after a short read the
     * stream has failed and the remaining calls leave `v` as it was.
     */
    method ReadArray(v: array<uint8>, length: nat)
      requires Valid() && length <= v.Length
      modifies this, v
      ensures Valid() && bytes == old(bytes) && writeSizes == old(writeSizes)
      ensures v[..] == Overlay(old(v[..]), 0, Available(old(bytes), old(position), old(failed), length))
      ensures position == old(position) + |Available(old(bytes), old(position), old(failed), length)|
      ensures failed == (old(failed) || |Available(old(bytes), old(position), old(failed), length)| < length)
    {
      ghost var start, failedBefore, base := position, failed, v[..];
      assert v[..] == Overlay(base, 0, Available(bytes, start, failedBefore, 0));
      var i := 0;
      while i < length
        invariant Valid() && bytes == old(bytes) && writeSizes == old(writeSizes)
        invariant ReadSoFar(v, start, failedBefore, base, Min(i, length))
        decreases length - i
      {
        ReadArrayChunk(v, i, length, start, failedBefore, base);
        i := i + ArrayBufferSize;
      }
    }

    /**
     * The string `<<` extension: the length as a `uint64_t`, then the bytes
     * through `write_array`.
     */
    method WriteString(s: seq<uint8>)
      requires Valid() && |s| < 0x1_0000_0000_0000_0000
      modifies this
      ensures Valid() && bytes == old(bytes) + EncodeString(s) && writeSizes == old(writeSizes) + [8] + ChunkSizes(|s|)
      ensures position == old(position) && failed == old(failed)
    {
      ghost var b0 := bytes;
      Powers();
      WriteInteger(|s|, 8);
      WriteArray(s);
      assert bytes == b0 + (LengthField(|s|) + s);
    }

    /**
     * The string `>>` extension into a string that held `previous`: the
     * length (which throws if short), a resize, then `read_array`.
     */
    method ReadString(previous: seq<uint8>) returns (r: Result<seq<uint8>>)
      requires Valid()
      modifies this
      ensures Valid() && bytes == old(bytes) && writeSizes == old(writeSizes)
      ensures r == ReadStringFrom(old(bytes), old(position), old(failed), previous)
      ensures var head := Available(old(bytes), old(position), old(failed), 8);
        if |head| < 8 then position == old(position) + |head| && failed
        else
          var got := Available(old(bytes), old(position) + 8, false, FromLittleEndian(head));
          position == old(position) + 8 + |got| && failed == (|got| < FromLittleEndian(head))
    {
      var stringLength := ReadInteger(8);
      if stringLength.Err? {
        return Err(stringLength.message);
      }
      var n := stringLength.value;
      var resized := Resized(previous, n);
      var v := new uint8[n](k requires 0 <= k < n => resized[k]);
      assert v[..] == resized;
      ReadArray(v, n);
      r := Ok(v[..]);
    }

    /** The element loop of the vector `<<` extension: each element as a 32-bit integer. */
    method WriteElements(v: seq<uint32>)
      requires Valid()
      modifies this
      ensures Valid() && bytes == old(bytes) + EncodeWords(v) && writeSizes == old(writeSizes) + WordSizes(|v|)
      ensures position == old(position) && failed == old(failed)
    {
      var i := 0;
      while i < |v|
        invariant 0 <= i <= |v|
        invariant Valid() && position == old(position) && failed == old(failed)
        invariant bytes == old(bytes) + EncodeWords(v[..i])
        invariant writeSizes == old(writeSizes) + WordSizes(i)
      {
        WriteWord(old(bytes), old(writeSizes), v[..i], v[i]);
        assert v[..i + 1] == v[..i] + [v[i]];
        i := i + 1;
      }
      assert v[..i] == v;
    }

    /** One element of the vector `<<` extension, after the elements `done`. */
    method WriteWord(ghost bytes0: seq<uint8>, ghost sizes0: seq<nat>, ghost done: seq<uint32>, x: uint32)
      requires Valid() && bytes == bytes0 + EncodeWords(done) && writeSizes == sizes0 + WordSizes(|done|)
      modifies this
      ensures Valid() && bytes == bytes0 + EncodeWords(done + [x]) && writeSizes == sizes0 + WordSizes(|done| + 1)
      ensures position == old(position) && failed == old(failed)
    {
      Powers();
      WriteInteger(x, 4);
      EncodeWordsAppend(done, x);
    }

    /** The vector `<<` extension for 32-bit elements: the length as a `uint64_t`, then each element. */
    method WriteVector(v: seq<uint32>)
      requires Valid() && |v| < 0x1_0000_0000_0000_0000
      modifies this
      ensures Valid() && bytes == old(bytes) + EncodeVector(v) && writeSizes == old(writeSizes) + [8] + WordSizes(|v|)
      ensures position == old(position) && failed == old(failed)
    {
      Powers();
      WriteInteger(|v|, 8);
      ghost var bytesAfterLength, sizesAfterLength := bytes, writeSizes;
      WriteElements(v);
      assert bytes == bytesAfterLength + EncodeWords(v);
      assert writeSizes == sizesAfterLength + WordSizes(|v|);
    }

    /** The element loop of the vector `>>` extension: n elements, each of which throws "malformed data" if short. */
    method ReadElements(n: nat) returns (r: Result<seq<uint32>>)
      requires Valid() && !failed
      modifies this
      ensures Valid() && bytes == old(bytes) && writeSizes == old(writeSizes)
      ensures r == ReadWordsFrom(old(bytes), old(position), n)
      ensures r.Ok? ==> !failed && position == old(position) + 4 * n
      ensures r.Err? ==> failed && position == |bytes|
    {
      var values: seq<uint32> := [];
      var i := 0;
      ghost var target := ReadWordsFrom(bytes, position, n);
      PrependNothing(target);
      while i < n
        invariant 0 <= i <= n && |values| == i
        invariant Valid() && bytes == old(bytes) && writeSizes == old(writeSizes) && !failed
        invariant position == old(position) + 4 * i
        invariant target == Prepend(values, ReadWordsFrom(bytes, position, n - i))
      {
        var element := ReadWord(target, values, n - i);
        if element.Err? {
          return Err(element.message);
        }
        values := values + [element.value];
        i := i + 1;
      }
      assert values + [] == values;
      r := Ok(values);
    }

    /** One element of the vector `>>` extension, with `m` elements still to read after `values`. */
    method ReadWord(ghost target: Result<seq<uint32>>, ghost values: seq<uint32>, ghost m: nat) returns (r: Result<uint32>)
      requires Valid() && !failed && 0 < m && target == Prepend(values, ReadWordsFrom(bytes, position, m))
      modifies this
      ensures Valid() && bytes == old(bytes) && writeSizes == old(writeSizes)
      ensures r.Err? ==> failed && position == |bytes| && target == Err(MalformedData) && r.message == MalformedData
      ensures r.Ok? ==> (!failed && position == old(position) + 4 &&
        target == Prepend(values + [r.value], ReadWordsFrom(bytes, position, m - 1)))
    {
      ghost var before := position;
      var element := ReadInteger(4);
      if element.Err? {
        assert ReadWordsFrom(bytes, before, m) == Err(MalformedData);
        return Err(element.message);
      }
      ReadWordsStep(bytes, before, m, values, element.value);
      r := Ok(element.value as uint32);
    }

    /**
     * The vector `>>` extension for 32-bit elements: the length (which
     * throws if short), then that many elements.
     */
    method ReadVector() returns (r: Result<seq<uint32>>)
      requires Valid()
      modifies this
      ensures Valid() && bytes == old(bytes) && writeSizes == old(writeSizes)
      ensures r == ReadVectorFrom(old(bytes), old(position), old(failed))
      ensures r.Ok? ==> !failed && position == old(position) + 8 + 4 * |r.value|
      ensures r.Err? ==> failed && position == (if old(failed) then old(position) else |bytes|)
    {
      var vectorLength := ReadInteger(8);
      if vectorLength.Err? {
        return Err(vectorLength.message);
      }
      r := ReadElements(vectorLength.value);
    }
  }
}
