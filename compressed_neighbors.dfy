/**
 * The compressed neighbor storage of the compressed neighborhood search
 * (src/libFluid/fluidSolver/neighborhoodSearch/CompressedNeighbors.cpp).
 * A particle's neighbors are stored as the first neighbor's index and the
 * differences between consecutive neighbors. Each difference gets a
 * two-bit control code: 1 and 2 need no bytes, 3 .. 258 one byte (the
 * difference minus 3), anything larger four little-endian bytes (the
 * difference minus 259, as a uint32). The search also finds a grid cell's
 * first particle by binary search over the cell-to-particle map.
 */
module CompressedNeighbors {

  const MaxDeltas := 48
  const DeltasSize := 48
  const MaxControls := MaxDeltas * 2
  /** size_t(-1), the "no neighbor" and "not found" value. */
  const SizeMax := 0xFFFF_FFFF_FFFF_FFFF
  const Two32 := 0x1_0000_0000

  // ------------------------------------------------------------ encoding

  /** The number of delta bytes a control pair stands for. */
  function Width(c0: bool, c1: bool): (w: nat)
    ensures w == 0 || w == 1 || w == 4
  {
    if !c0 then 0 else if !c1 then 1 else 4
  }

  /** Where the bytes of delta k start: the widths of the pairs before it. */
  function StartByte(ctrl: seq<bool>, k: nat): nat
    requires 2 * k <= |ctrl|
  {
    if k == 0 then 0 else StartByte(ctrl, k - 1) + Width(ctrl[2 * k - 2], ctrl[2 * k - 1])
  }

  /** The control pair for a delta. */
  function ControlOf(delta: nat): (bool, bool)
  {
    if delta == 1 then (false, false)
    else if delta == 2 then (false, true)
    else if delta <= 256 + 2 then (true, false)
    else (true, true)
  }

  /** One uint8_t of the delta byte array. */
  newtype Byte = b: int | 0 <= b < 0x100

  function Pow256(n: nat): (p: nat)
    ensures p > 0
  {
    if n == 0 then 1 else 0x100 * Pow256(n - 1)
  }

  /** The n little-endian bytes of v: byte i is `(v >> 8 * i) & 0xff`. */
  function LittleEndian(v: nat, n: nat): (b: seq<Byte>)
    ensures |b| == n
  {
    if n == 0 then [] else [(v % 0x100) as Byte] + LittleEndian(v / 0x100, n - 1)
  }

  /** The number whose little-endian bytes are b. */
  function FromLittleEndian(b: seq<Byte>): (v: nat)
    ensures v < Pow256(|b|)
  {
    if b == [] then 0
    else
      assert Pow256(|b|) == 0x100 * Pow256(|b| - 1);
      b[0] as nat + 0x100 * FromLittleEndian(b[1..])
  }

  /** Splitting a number below 256^n into n bytes and assembling them gives it back. */
  lemma {:induction false} LittleEndianRoundTrip(v: nat, n: nat)
    requires v < Pow256(n)
    ensures FromLittleEndian(LittleEndian(v, n)) == v
  {
    if n > 0 {
      var b := LittleEndian(v, n);
      assert b[1..] == LittleEndian(v / 0x100, n - 1);
      LittleEndianRoundTrip(v / 0x100, n - 1);
    }
  }

  /** The four bytes of a uint32 as the shifts and masks of set_next_neighbor compute them. */
  lemma LittleEndianFour(v: nat)
    ensures LittleEndian(v, 4) == [(v % 0x100) as Byte, ((v / 0x100) % 0x100) as Byte,
                                   ((v / 0x1_0000) % 0x100) as Byte, ((v / 0x100_0000) % 0x100) as Byte]
  {
    var q1 := v / 0x100;
    var q2 := q1 / 0x100;
    var q3 := q2 / 0x100;
    assert v / 0x1_0000 == q2;
    assert v / 0x100_0000 == q3;
    assert LittleEndian(q3, 1) == [(q3 % 0x100) as Byte];
    assert LittleEndian(q2, 2) == [(q2 % 0x100) as Byte] + LittleEndian(q3, 1);
    assert LittleEndian(q1, 3) == [(q1 % 0x100) as Byte] + LittleEndian(q2, 2);
  }

  /** The number of bytes a delta occupies: the width of its control code. */
  function DeltaWidth(delta: nat): (w: nat)
    ensures w == Width(ControlOf(delta).0, ControlOf(delta).1)
  {
    if delta == 1 || delta == 2 then 0 else if delta <= 256 + 2 then 1 else 4
  }

  /** The bytes a delta occupies (the uint32 truncation of delta - 259 for the wide form). */
  function DeltaBytes(delta: nat): (b: seq<Byte>)
    requires delta != 0
    ensures |b| == DeltaWidth(delta)
  {
    if delta <= 2 then []
    else if delta <= 256 + 2 then [(delta - 3) as Byte]
    else LittleEndian((delta - (256 + 3)) % Two32, 4)
  }

  /** The delta control pair k and the bytes at its start byte stand for. */
  function DecodeDelta(ctrl: seq<bool>, bytes: seq<Byte>, k: nat): (r: nat)
    requires 2 * k + 1 < |ctrl|
    requires ctrl[2 * k] ==> StartByte(ctrl, k) + Width(true, ctrl[2 * k + 1]) <= |bytes|
    ensures r < Two32
  {
    if !ctrl[2 * k] then (if !ctrl[2 * k + 1] then 1 else 2)
    else
      var s := StartByte(ctrl, k);
      if !ctrl[2 * k + 1] then bytes[s] as nat + 3
      else
        var v := FromLittleEndian(bytes[s..s + 4]);
        (v + 3 + 256) % Two32
  }

  /** StartByte only looks at the pairs before k. */
  lemma {:induction false} StartBytePrefix(ctrl: seq<bool>, ctrl': seq<bool>, k: nat)
    requires 2 * k <= |ctrl| && 2 * k <= |ctrl'| && ctrl[..2 * k] == ctrl'[..2 * k]
    ensures StartByte(ctrl, k) == StartByte(ctrl', k)
  {
    if k > 0 {
      assert ctrl[..2 * k - 2] == ctrl[..2 * k][..2 * k - 2];
      assert ctrl'[..2 * k - 2] == ctrl'[..2 * k][..2 * k - 2];
      assert ctrl[2 * k - 2] == ctrl[..2 * k][2 * k - 2] && ctrl[2 * k - 1] == ctrl[..2 * k][2 * k - 1];
      assert ctrl'[2 * k - 2] == ctrl'[..2 * k][2 * k - 2] && ctrl'[2 * k - 1] == ctrl'[..2 * k][2 * k - 1];
      StartBytePrefix(ctrl, ctrl', k - 1);
    }
  }

  /** The bytes of earlier deltas end where later ones start. */
  lemma {:induction false} StartByteMonotone(ctrl: seq<bool>, k: nat, p: nat)
    requires k < p && 2 * p <= |ctrl|
    ensures StartByte(ctrl, k) + Width(ctrl[2 * k], ctrl[2 * k + 1]) <= StartByte(ctrl, p)
    decreases p - k
  {
    if k + 1 < p {
      StartByteMonotone(ctrl, k + 1, p);
    }
  }

  /** Control pair k and the bytes at its start byte hold `delta`. */
  ghost predicate EncodedAt(ctrl: seq<bool>, bytes: seq<Byte>, k: nat, delta: nat)
    requires 2 * k + 1 < |ctrl|
  {
    && delta != 0
    && (ctrl[2 * k], ctrl[2 * k + 1]) == ControlOf(delta)
    && StartByte(ctrl, k) + DeltaWidth(delta) <= |bytes|
    && bytes[StartByte(ctrl, k)..StartByte(ctrl, k) + DeltaWidth(delta)] == DeltaBytes(delta)
  }

  /**
   * The control pairs and bytes hold the deltas `ds`, in order, in the
   * first |ds| pairs and the first StartByte(ctrl, |ds|) bytes.
   */
  ghost predicate Encodes(ctrl: seq<bool>, bytes: seq<Byte>, ds: seq<nat>)
  {
    && 2 * |ds| <= |ctrl|
    && StartByte(ctrl, |ds|) <= |bytes|
    && forall k {:trigger EncodedAt(ctrl, bytes, k, ds[k])} :: 0 <= k < |ds| ==> EncodedAt(ctrl, bytes, k, ds[k])
  }

  /** A stored delta stays stored when only later pairs and bytes change. */
  lemma EncodedAtKept(ctrl: seq<bool>, bytes: seq<Byte>, ctrl': seq<bool>, bytes': seq<Byte>,
                      k: nat, delta: nat, p: nat)
    requires k < p && 2 * p <= |ctrl| && |ctrl'| == |ctrl| && |bytes'| == |bytes|
    requires EncodedAt(ctrl, bytes, k, delta)
    requires StartByte(ctrl, p) <= |bytes|
    requires ctrl'[..2 * p] == ctrl[..2 * p]
    requires bytes'[..StartByte(ctrl, p)] == bytes[..StartByte(ctrl, p)]
    ensures EncodedAt(ctrl', bytes', k, delta)
  {
    assert ctrl'[..2 * k] == ctrl[..2 * k] by {
      assert ctrl'[..2 * k] == ctrl'[..2 * p][..2 * k];
      assert ctrl[..2 * k] == ctrl[..2 * p][..2 * k];
    }
    assert ctrl'[2 * k] == ctrl'[..2 * p][2 * k] && ctrl'[2 * k + 1] == ctrl'[..2 * p][2 * k + 1];
    StartBytePrefix(ctrl, ctrl', k);
    StartByteMonotone(ctrl, k, p);
    var s := StartByte(ctrl, k);
    var n := DeltaWidth(delta);
    var at := StartByte(ctrl, p);
    assert n == Width(ctrl[2 * k], ctrl[2 * k + 1]);
    assert s + n <= at;
    SlicePrefix(bytes', bytes, at, s, n);
  }

  /** Two sequences that agree below `at` agree on every slice below `at`. */
  lemma SlicePrefix(a: seq<Byte>, b: seq<Byte>, at: nat, s: nat, n: nat)
    requires s + n <= at <= |a| && at <= |b|
    requires a[..at] == b[..at]
    ensures a[s..s + n] == b[s..s + n]
  {
    assert a[s..s + n] == a[..at][s..s + n];
    assert b[s..s + n] == b[..at][s..s + n];
  }

  /** The control sequence after setting pair p to the code of `delta`. */
  function SetControl(ctrl: seq<bool>, p: nat, delta: nat): (r: seq<bool>)
    requires 2 * p + 1 < |ctrl|
    ensures |r| == |ctrl| && r[..2 * p] == ctrl[..2 * p]
  {
    ctrl[2 * p := ControlOf(delta).0][2 * p + 1 := ControlOf(delta).1]
  }

  /** The byte array after writing `b` at offset `at`. */
  function WriteBytes(bytes: seq<Byte>, at: nat, b: seq<Byte>): (r: seq<Byte>)
    requires at + |b| <= |bytes|
    ensures |r| == |bytes| && r[..at] == bytes[..at] && r[at..at + |b|] == b
  {
    bytes[..at] + b + bytes[at + |b|..]
  }

  /**
   * Writing a delta's code into the next pair and its bytes where the
   * stored ones end stores the delta after them and keeps the earlier ones.
   */
  lemma EncodesAppend(ctrl: seq<bool>, bytes: seq<Byte>, ds: seq<nat>, delta: nat,
                      ctrl': seq<bool>, bytes': seq<Byte>)
    requires Encodes(ctrl, bytes, ds) && delta != 0 && 2 * |ds| + 1 < |ctrl|
    requires StartByte(ctrl, |ds|) + DeltaWidth(delta) <= |bytes|
    requires ctrl' == SetControl(ctrl, |ds|, delta)
    requires bytes' == WriteBytes(bytes, StartByte(ctrl, |ds|), DeltaBytes(delta))
    ensures Encodes(ctrl', bytes', ds + [delta])
    ensures StartByte(ctrl', |ds| + 1) == StartByte(ctrl, |ds|) + DeltaWidth(delta)
  {
    var p := |ds|;
    var ds' := ds + [delta];
    EncodedAtNew(ctrl, bytes, p, delta);
    forall k | 0 <= k < |ds'|
      ensures EncodedAt(ctrl', bytes', k, ds'[k])
    {
      if k < p {
        EncodedAtKept(ctrl, bytes, ctrl', bytes', k, ds[k], p);
      }
    }
  }

  /** The delta written at pair p and at the pair's start byte is stored there. */
  lemma EncodedAtNew(ctrl: seq<bool>, bytes: seq<Byte>, p: nat, delta: nat)
    requires delta != 0 && 2 * p + 1 < |ctrl| && StartByte(ctrl, p) + DeltaWidth(delta) <= |bytes|
    ensures var ctrl' := SetControl(ctrl, p, delta);
      && EncodedAt(ctrl', WriteBytes(bytes, StartByte(ctrl, p), DeltaBytes(delta)), p, delta)
      && StartByte(ctrl', p + 1) == StartByte(ctrl, p) + DeltaWidth(delta)
  {
    StartBytePrefix(ctrl, SetControl(ctrl, p, delta), p);
  }

  /** The four bytes of a wide delta decode back to it. */
  lemma DecodeWide(delta: nat, b: seq<Byte>)
    requires 256 + 2 < delta < Two32 - 1 && b == DeltaBytes(delta)
    ensures (FromLittleEndian(b) + 3 + 256) % Two32 == delta
  {
    var reduced := delta - (256 + 3);
    assert reduced % Two32 == reduced;
    assert Pow256(4) == Two32;
    LittleEndianRoundTrip(reduced, 4);
  }

  /** A delta below 2^32 - 1 stored at pair k decodes to itself. */
  lemma DecodeAt(ctrl: seq<bool>, bytes: seq<Byte>, k: nat, d: nat)
    requires 2 * k + 1 < |ctrl| && EncodedAt(ctrl, bytes, k, d) && d < Two32 - 1
    ensures ctrl[2 * k] ==> StartByte(ctrl, k) + Width(true, ctrl[2 * k + 1]) <= |bytes|
    ensures DecodeDelta(ctrl, bytes, k) == d
  {
    var s := StartByte(ctrl, k);
    if d > 256 + 2 {
      assert bytes[s..s + 4] == DeltaBytes(d);
      DecodeWide(d, DeltaBytes(d));
    } else if d > 2 {
      assert bytes[s] == bytes[s..s + 1][0];
    }
  }

  /** An encoded delta below 2^32 - 1 decodes to itself. */
  lemma DecodeEncoded(ctrl: seq<bool>, bytes: seq<Byte>, ds: seq<nat>, k: nat)
    requires Encodes(ctrl, bytes, ds) && k < |ds| && ds[k] < Two32 - 1
    ensures 2 * k + 1 < |ctrl|
    ensures ctrl[2 * k] ==> StartByte(ctrl, k) + Width(true, ctrl[2 * k + 1]) <= |bytes|
    ensures DecodeDelta(ctrl, bytes, k) == ds[k]
  {
    assert EncodedAt(ctrl, bytes, k, ds[k]);
    DecodeAt(ctrl, bytes, k, ds[k]);
  }

  // ------------------------------------------------------- the storage

  class NeighborStorage {
    var firstNeighbor: nat
    var controlSequence: array<bool>
    var deltas: array<Byte>
    var sizeValue: nat
    var currentDeltasByteSize: nat
    /** The deltas passed to set_next_neighbor since the first neighbor was set. */
    ghost var stored: seq<nat>

    ghost predicate Valid()
      reads this, controlSequence, deltas
    {
      && controlSequence.Length == MaxControls && deltas.Length == DeltasSize
      && (if sizeValue == 0 then stored == [] else sizeValue == |stored| + 1)
      && |stored| <= MaxDeltas
      && Encodes(controlSequence[..], deltas[..], stored)
      && currentDeltasByteSize == StartByte(controlSequence[..], |stored|)
    }

    /** The constructor clears the storage. */
    constructor ()
      ensures Valid() && fresh(controlSequence) && fresh(deltas)
      ensures sizeValue == 0 && stored == [] && firstNeighbor == SizeMax
    {
      controlSequence := new bool[MaxControls](_ => false);
      deltas := new Byte[DeltasSize](_ => 0);
      sizeValue := 0;
      currentDeltasByteSize := 0;
      firstNeighbor := SizeMax;
      stored := [];
    }

    /** clear: no neighbors, no delta bytes, no first neighbor, all codes and bytes zero. */
    method Clear()
      requires Valid()
      modifies this, controlSequence, deltas
      ensures Valid() && controlSequence == old(controlSequence) && deltas == old(deltas)
      ensures sizeValue == 0 && currentDeltasByteSize == 0 && firstNeighbor == SizeMax && stored == []
      ensures forall i :: 0 <= i < MaxControls ==> !controlSequence[i]
      ensures forall i :: 0 <= i < DeltasSize ==> deltas[i] == 0
    {
      forall i | 0 <= i < controlSequence.Length {
        controlSequence[i] := false;
      }
      var i := 0;
      while i < DeltasSize
        invariant 0 <= i <= DeltasSize == deltas.Length && controlSequence.Length == MaxControls
        invariant controlSequence == old(controlSequence) && deltas == old(deltas)
        invariant forall k :: 0 <= k < i ==> deltas[k] == 0
        invariant forall k :: 0 <= k < MaxControls ==> !controlSequence[k]
      {
        deltas[i] := 0;
        i := i + 1;
      }
      currentDeltasByteSize := 0;
      sizeValue := 0;
      firstNeighbor := SizeMax;
      stored := [];
    }

    /** set_first_neighbor: one neighbor, no deltas yet. */
    method SetFirstNeighbor(index: nat)
      requires Valid()
      modifies this
      ensures Valid()
      ensures controlSequence == old(controlSequence) && deltas == old(deltas)
      ensures firstNeighbor == index && sizeValue == 1 && currentDeltasByteSize == 0 && stored == []
    {
      firstNeighbor := index;
      sizeValue := 1;
      currentDeltasByteSize := 0;
      stored := [];
    }

    /**
     * set_next_neighbor: the delta's code goes into pair size - 1 and its
     * bytes after the bytes in use; the size grows by one.
     */
    method SetNextNeighbor(delta: nat)
      requires Valid()
      requires 1 <= sizeValue && sizeValue - 1 < MaxDeltas
      requires delta != 0
      requires 2 < delta <= 256 + 2 ==> currentDeltasByteSize < DeltasSize
      requires delta > 256 + 2 ==> currentDeltasByteSize + 3 < DeltasSize
      modifies this, controlSequence, deltas
      ensures Valid() && controlSequence == old(controlSequence) && deltas == old(deltas)
      ensures stored == old(stored) + [delta] && sizeValue == old(sizeValue) + 1
      ensures firstNeighbor == old(firstNeighbor)
      ensures controlSequence[..] == SetControl(old(controlSequence[..]), old(sizeValue) - 1, delta)
      ensures deltas[..] == WriteBytes(old(deltas[..]), old(currentDeltasByteSize), DeltaBytes(delta))
      ensures currentDeltasByteSize == old(currentDeltasByteSize) + DeltaWidth(delta)
    {
      ghost var ctrl0, bytes0 := controlSequence[..], deltas[..];
      var width := WriteCode(sizeValue - 1, currentDeltasByteSize, delta);
      EncodesAppend(ctrl0, bytes0, stored, delta, controlSequence[..], deltas[..]);
      currentDeltasByteSize := currentDeltasByteSize + width;
      sizeValue := sizeValue + 1;
      stored := stored + [delta];
    }

    /**
     * The branch of set_next_neighbor on the size of the delta: the control
     * pair's code and, for the wide forms, the bytes at `at`.
     */
    method WriteCode(bitPairIndex: nat, at: nat, delta: nat) returns (width: nat)
      requires controlSequence.Length == MaxControls && bitPairIndex < MaxDeltas && delta != 0
      requires at <= deltas.Length
      requires 2 < delta <= 256 + 2 ==> at < deltas.Length
      requires delta > 256 + 2 ==> at + 3 < deltas.Length
      modifies controlSequence, deltas
      ensures controlSequence[..] == SetControl(old(controlSequence[..]), bitPairIndex, delta)
      ensures at + DeltaWidth(delta) <= deltas.Length
      ensures deltas[..] == WriteBytes(old(deltas[..]), at, DeltaBytes(delta))
      ensures width == DeltaWidth(delta)
    {
      if delta == 1 {
        WriteControlPair(bitPairIndex, false, false);
        assert WriteBytes(deltas[..], at, []) == deltas[..];
        width := 0;
      } else if delta == 2 {
        WriteControlPair(bitPairIndex, false, true);
        assert WriteBytes(deltas[..], at, []) == deltas[..];
        width := 0;
      } else if delta <= 256 + 2 {
        WriteControlPair(bitPairIndex, true, false);
        WriteDeltaByte(at, (delta - 3) as Byte);
        width := 1;
      } else {
        WriteControlPair(bitPairIndex, true, true);
        var reducedDelta := (delta - (256 + 3)) % Two32;
        WriteReducedDelta(at, reducedDelta);
        width := 4;
      }
    }

    /** The two control bits of pair p. */
    method WriteControlPair(p: nat, c0: bool, c1: bool)
      requires controlSequence.Length == MaxControls && p < MaxDeltas
      modifies controlSequence
      ensures controlSequence[..] == old(controlSequence[..])[2 * p := c0][2 * p + 1 := c1]
    {
      controlSequence[p * 2 + 0] := c0;
      controlSequence[p * 2 + 1] := c1;
    }

    /** The one byte of a delta of 3 .. 258. */
    method WriteDeltaByte(at: nat, b: Byte)
      requires at < deltas.Length
      modifies deltas
      ensures deltas[..] == WriteBytes(old(deltas[..]), at, [b])
    {
      deltas[at] := b;
    }

    /** The four little-endian bytes of a reduced delta. */
    method WriteReducedDelta(at: nat, reducedDelta: nat)
      requires at + 4 <= deltas.Length && reducedDelta < Two32
      modifies deltas
      ensures deltas[..] == WriteBytes(old(deltas[..]), at, LittleEndian(reducedDelta, 4))
    {
      LittleEndianFour(reducedDelta);
      deltas[at + 0] := (reducedDelta % 0x100) as Byte;
      deltas[at + 1] := ((reducedDelta / 0x100) % 0x100) as Byte;
      deltas[at + 2] := ((reducedDelta / 0x1_0000) % 0x100) as Byte;
      deltas[at + 3] := ((reducedDelta / 0x100_0000) % 0x100) as Byte;
    }

    /** size */
    function Size(): (r: nat)
      requires Valid()
      reads this, controlSequence, deltas
      ensures r == 0 || r == |stored| + 1
    {
      sizeValue
    }

    /** get_first_neighbor returns the index as a uint32. */
    function GetFirstNeighbor(): (r: nat)
      reads this
      ensures r < Two32 && r == firstNeighbor % Two32
    {
      firstNeighbor % Two32
    }

    /**
     * get_delta: the pair's code gives 1 or 2 directly; otherwise the
     * widths of the pairs before it locate the delta's bytes.
     */
    method GetDelta(deltaIndex: nat) returns (r: nat)
      requires Valid() && deltaIndex < MaxDeltas
      requires controlSequence[2 * deltaIndex] ==>
        StartByte(controlSequence[..], deltaIndex) + Width(true, controlSequence[2 * deltaIndex + 1]) <= DeltasSize
      requires controlSequence[2 * deltaIndex] && controlSequence[2 * deltaIndex + 1] ==>
        DecodeDelta(controlSequence[..], deltas[..], deltaIndex) != Two32 - 1
      ensures r == DecodeDelta(controlSequence[..], deltas[..], deltaIndex)
      ensures deltaIndex < |stored| && stored[deltaIndex] < Two32 - 1 ==> r == stored[deltaIndex]
    {
      if deltaIndex < |stored| && stored[deltaIndex] < Two32 - 1 {
        DecodeEncoded(controlSequence[..], deltas[..], stored, deltaIndex);
      }
      if controlSequence[deltaIndex * 2 + 0] == false {
        if controlSequence[deltaIndex * 2 + 1] == false {
          return 1;
        } else {
          return 2;
        }
      }
      var startingByteIndex := StartingByteIndex(deltaIndex);
      if controlSequence[deltaIndex * 2 + 1] == false {
        r := deltas[startingByteIndex] as nat + 3;
      } else {
        var value := FromLittleEndian(deltas[startingByteIndex..startingByteIndex + 4]);
        r := (value + 3 + 256) % Two32;
      }
    }

    /** The scan of get_delta over the pairs before deltaIndex, adding up their widths. */
    method StartingByteIndex(deltaIndex: nat) returns (startingByteIndex: nat)
      requires controlSequence.Length == MaxControls && deltaIndex < MaxDeltas
      ensures startingByteIndex == StartByte(controlSequence[..], deltaIndex)
    {
      startingByteIndex := 0;
      var i := 0;
      while i < deltaIndex
        invariant 0 <= i <= deltaIndex
        invariant startingByteIndex == StartByte(controlSequence[..], i)
      {
        if controlSequence[i * 2 + 0] == false {
          i := i + 1;
          continue;
        }
        if controlSequence[i * 2 + 1] == false {
          startingByteIndex := startingByteIndex + 1;
        } else {
          startingByteIndex := startingByteIndex + 4;
        }
        i := i + 1;
      }
    }

    /**
     * The neighbors NeighborsIterator visits from begin() to end(): none
     * when the size is 0, otherwise the first neighbor and then each
     * get_delta added on.
     */
    method Neighbors() returns (ns: seq<nat>)
      requires Valid() && firstNeighbor < Two32
      requires forall k :: 0 <= k < |stored| ==> stored[k] < Two32 - 1
      ensures sizeValue == 0 ==> ns == []
      ensures sizeValue != 0 ==> ns == Walk(firstNeighbor, stored)
    {
      if sizeValue == 0 {
        return [];
      }
      var current := GetFirstNeighbor();
      ns := [current];
      ghost var walked: seq<nat> := [];
      var currentCounter := 1;
      while currentCounter < sizeValue
        invariant 1 <= currentCounter <= sizeValue
        invariant walked == stored[..currentCounter - 1]
        invariant ns == Walk(firstNeighbor, walked) && current == ns[|ns| - 1]
      {
        var delta := StoredDelta(currentCounter - 1);
        WalkSnoc(firstNeighbor, walked, delta);
        current := current + delta;
        ns := ns + [current];
        walked := walked + [delta];
        currentCounter := currentCounter + 1;
      }
      assert walked == stored;
    }

    /** get_delta of a stored delta below 2^32 - 1 is that delta. */
    method StoredDelta(k: nat) returns (delta: nat)
      requires Valid() && k < |stored| && stored[k] < Two32 - 1
      ensures delta == stored[k]
    {
      DecodeEncoded(controlSequence[..], deltas[..], stored, k);
      delta := GetDelta(k);
    }

    /**
     * The storing half of find_neighbors_and_save_in_storage: the storage
     * is cleared, the first neighbor found is set and every later one is
     * added as its distance to the previous one.
     */
    method StoreNeighbors(found: seq<nat>)
      requires Valid() && Increasing(found) && |found| <= MaxDeltas + 1
      requires BytesUpTo(found, |found|) <= DeltasSize
      modifies this, controlSequence, deltas
      ensures Valid() && controlSequence == old(controlSequence) && deltas == old(deltas)
      ensures found == [] ==> sizeValue == 0 && firstNeighbor == SizeMax
      ensures found != [] ==> sizeValue == |found| && Walk(firstNeighbor, stored) == found
      ensures Positive(stored)
    {
      Clear();
      var i := 0;
      while i < |found|
        invariant 0 <= i <= |found|
        invariant Valid() && controlSequence == old(controlSequence) && deltas == old(deltas)
        invariant Positive(stored)
        invariant i == 0 ==> sizeValue == 0 && firstNeighbor == SizeMax
        invariant i > 0 ==> sizeValue == i && Walk(firstNeighbor, stored) == found[..i]
        invariant i > 0 ==> currentDeltasByteSize == BytesUpTo(found, i)
      {
        if i == 0 {
          SetFirstNeighbor(found[0]);
          assert found[..1] == [found[0]];
        } else {
          StoreNext(found, i);
        }
        i := i + 1;
      }
      assert found[..i] == found;
    }

    /** One step of find_neighbors_and_save_in_storage after the first neighbor: store the distance to the previous one. */
    method StoreNext(found: seq<nat>, i: nat)
      requires Valid() && Increasing(found) && 0 < i < |found| <= MaxDeltas + 1
      requires BytesUpTo(found, |found|) <= DeltasSize
      requires Positive(stored) && sizeValue == i && Walk(firstNeighbor, stored) == found[..i]
      requires currentDeltasByteSize == BytesUpTo(found, i)
      modifies this, controlSequence, deltas
      ensures Valid() && controlSequence == old(controlSequence) && deltas == old(deltas)
      ensures Positive(stored) && sizeValue == i + 1 && Walk(firstNeighbor, stored) == found[..i + 1]
      ensures currentDeltasByteSize == BytesUpTo(found, i + 1)
    {
      var delta := found[i] - found[i - 1];
      NextDeltaFits(found, i, firstNeighbor, stored);
      SetNextNeighbor(delta);
    }
  }

  // ------------------------------------------------------ neighbor lists

  /** The neighbors the iterator visits: the first one, then each delta added on. */
  function Walk(first: nat, ds: seq<nat>): (r: seq<nat>)
    ensures |r| == |ds| + 1 && r[0] == first
    decreases |ds|
  {
    if ds == [] then [first]
    else
      var walked := Walk(first, ds[..|ds| - 1]);
      walked + [walked[|ds| - 1] + ds[|ds| - 1]]
  }

  /** Walking one more delta adds the last neighbor plus that delta. */
  lemma WalkSnoc(first: nat, ds: seq<nat>, x: nat)
    ensures Walk(first, ds + [x]) == Walk(first, ds) + [Walk(first, ds)[|ds|] + x]
  {
    assert (ds + [x])[..|ds|] == ds;
  }

  /** Deltas set_next_neighbor accepts: none is 0. */
  predicate Positive(ds: seq<nat>) {
    forall k :: 0 <= k < |ds| ==> ds[k] != 0
  }

  /** Strictly increasing particle indices, as find_neighbors_and_save_in_storage finds them. */
  predicate Increasing(ns: seq<nat>) {
    forall a, b :: 0 <= a < b < |ns| ==> ns[a] < ns[b]
  }

  /** Positive deltas give strictly increasing neighbors. */
  lemma {:induction false} WalkIncreasing(first: nat, ds: seq<nat>)
    requires Positive(ds)
    ensures Increasing(Walk(first, ds))
    decreases |ds|
  {
    if ds != [] {
      var init := ds[..|ds| - 1];
      WalkIncreasing(first, init);
      var w := Walk(first, init);
      var r := Walk(first, ds);
      assert r == w + [w[|ds| - 1] + ds[|ds| - 1]];
      forall a, b | 0 <= a < b < |r| ensures r[a] < r[b] {
        if b == |r| - 1 && a < |r| - 2 {
          assert w[a] < w[|ds| - 1];
        }
      }
    }
  }

  /** The delta bytes the first i neighbors of a list need. */
  function BytesUpTo(ns: seq<nat>, i: nat): nat
    requires Increasing(ns) && i <= |ns|
  {
    if i <= 1 then 0 else BytesUpTo(ns, i - 1) + DeltaWidth(ns[i - 1] - ns[i - 2])
  }

  /**
   * Storing the step to neighbor i after the deltas of the ones before it:
   * the step is positive, walking gives the neighbors up to i, and its
   * bytes stay within the bytes all neighbors need.
   */
  lemma NextDeltaFits(found: seq<nat>, i: nat, first: nat, ds: seq<nat>)
    requires Increasing(found) && 0 < i < |found| && Positive(ds) && Walk(first, ds) == found[..i]
    ensures found[i - 1] < found[i] && Positive(ds + [found[i] - found[i - 1]])
    ensures Walk(first, ds + [found[i] - found[i - 1]]) == found[..i + 1]
    ensures BytesUpTo(found, i + 1) == BytesUpTo(found, i) + DeltaWidth(found[i] - found[i - 1])
    ensures BytesUpTo(found, i + 1) <= BytesUpTo(found, |found|)
  {
    var delta := found[i] - found[i - 1];
    BytesUpToMonotone(found, i + 1, |found|);
    WalkSnoc(first, ds, delta);
    assert found[..i][i - 1] + delta == found[i];
    assert found[..i + 1] == found[..i] + [found[i]];
  }

  /** Fewer neighbors need no more bytes. */
  lemma {:induction false} BytesUpToMonotone(ns: seq<nat>, i: nat, j: nat)
    requires Increasing(ns) && i <= j <= |ns|
    ensures BytesUpTo(ns, i) <= BytesUpTo(ns, j)
    decreases j
  {
    if i < j {
      BytesUpToMonotone(ns, i, j - 1);
    }
  }

  // ------------------------------------------------- cell index lookup

  datatype GridCellToParticle = GridCellToParticle(indexOfFirstParticle: nat, cellIndex: nat)

  /** The map is ordered by strictly increasing cell index, as find_neighbors builds it. */
  predicate CellsIncreasing(m: seq<GridCellToParticle>) {
    forall a, b :: 0 <= a < b < |m| ==> m[a].cellIndex < m[b].cellIndex
  }

  /**
   * get_particle_index_by_cell_index's recursive search of [left, right):
   * the first particle of the cell, or size_t(-1) when the cell has none.
   */
  function SearchCell(m: seq<GridCellToParticle>, cellIndex: nat, left: nat, right: nat): (r: nat)
    requires left <= right <= |m| < SizeMax && CellsIncreasing(m)
    ensures r == SizeMax <==>
      ((forall k :: left <= k < right ==> m[k].cellIndex != cellIndex) ||
       (exists k :: left <= k < right && m[k].cellIndex == cellIndex && m[k].indexOfFirstParticle == SizeMax))
    ensures r != SizeMax ==> exists k :: left <= k < right && m[k].cellIndex == cellIndex && m[k].indexOfFirstParticle == r
    decreases right - left
  {
    if left >= |m| || right == SizeMax || left == right then SizeMax
    else
      var middle := (right - left) / 2 + left;
      if m[middle].cellIndex > cellIndex then SearchCell(m, cellIndex, left, middle)
      else if m[middle].cellIndex < cellIndex then SearchCell(m, cellIndex, middle + 1, right)
      else m[middle].indexOfFirstParticle
  }

  /** get_particle_index_by_cell_index */
  function GetParticleIndexByCellIndex(m: seq<GridCellToParticle>, cellIndex: nat): (r: nat)
    requires CellsIncreasing(m) && |m| < SizeMax
    ensures r != SizeMax ==> exists k :: 0 <= k < |m| && m[k].cellIndex == cellIndex && m[k].indexOfFirstParticle == r
    ensures (forall k :: 0 <= k < |m| ==> m[k].cellIndex != cellIndex) ==> r == SizeMax
  {
    SearchCell(m, cellIndex, 0, |m|)
  }
}
