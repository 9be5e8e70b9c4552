/**
 * The hash table of the compact-hashing neighborhood search
 * (src/core/fluidSolver/neighborhoodSearch/CompactHashingNeighborhoodSearch.cpp).
 * It maps grid cells to storage sections. A cell is placed at its hash slot
 * or, after a collision, in a slot further along; each handle that caused a
 * collision carries a 6-bit relative link to the next handle of its chain.
 *
 * The handle vector never changes its size, so it is an array. Termination
 * of the probes is justified by a ghost rank: every link goes to a slot of
 * strictly higher rank, and all ranks lie below a ghost bound.
 */
module CompactHashTable {
  import opened Wrappers

  /** A grid cell; its coordinates are 32-bit integers in the source. */
  datatype GridCell = GridCell(x: int, y: int)

  const Two32: int := 0x1_0000_0000
  const Two64: int := 0x1_0000_0000_0000_0000
  const PrimeOne: int := 73856093
  const PrimeTwo: int := 19349663
  /** relativeHashCollisionNextEntry is a 6-bit field; -1 stored into it reads back as 63. */
  const LinkLimit: nat := 64
  const MaxLink: nat := 63
  const NoEmptyCell := "Could not find a empty hash table cell!"

  /** A product of two int32 values, wrapped to 32 bits. */
  function WrapInt32(v: int): (r: int)
    ensures -0x8000_0000 <= r < 0x8000_0000
    ensures (v - r) % Two32 == 0
  {
    var m := (v + 0x8000_0000) % Two32;
    assert v + 0x8000_0000 == (v + 0x8000_0000) / Two32 * Two32 + m;
    m - 0x8000_0000
  }

  /** An int32 converted to uint64_t: negative values are sign-extended. */
  function ToUInt64(v: int): (r: int)
    requires -0x8000_0000 <= v < 0x8000_0000
    ensures 0 <= r < Two64
    ensures v >= 0 ==> r == v
    ensures v < 0 ==> r == v + Two64
  {
    if v < 0 then v + Two64 else v
  }

  /** CalculateHashValue: the xor of the two scaled coordinates, modulo the table size. */
  function CalculateHashValue(cell: GridCell, size: nat): (h: nat)
    requires size > 0
    ensures h < size
  {
    var a := ToUInt64(WrapInt32(cell.x * PrimeOne));
    var b := ToUInt64(WrapInt32(cell.y * PrimeTwo));
    Xor(a, b) % size
  }

  /** Bitwise exclusive or of two naturals, one bit at a time from the lowest. */
  function Xor(a: nat, b: nat): nat
    decreases a + b
  {
    if a == 0 then b
    else if b == 0 then a
    else 2 * Xor(a / 2, b / 2) + (if a % 2 == b % 2 then 0 else 1)
  }

  /**
   * One slot of the table. `collision` says that a later key whose probe
   * passed this slot was placed `link` slots further on.
   */
  datatype Handle = Handle(mapped: nat, cell: GridCell, collision: bool, hasValue: bool, link: nat)

  const EmptyHandle := Handle(0, GridCell(0, 0), false, false, 0)

  /** The slot the link of slot `s` points to. */
  function Next(t: seq<Handle>, s: nat): (n: nat)
    requires s < |t|
    ensures n < |t|
  {
    (s + t[s].link) % |t|
  }

  /** Every link climbs in rank, and all ranks lie below `bound`: following links terminates. */
  ghost predicate Ranked(t: seq<Handle>, rank: seq<nat>, bound: nat) {
    && |rank| == |t|
    && (forall s :: 0 <= s < |t| ==> rank[s] < bound)
    && (forall s :: 0 <= s < |t| && t[s].collision ==> rank[s] < rank[Next(t, s)])
  }

  /**
   * The shape every operation keeps: chains terminate, links fit in six
   * bits, and only occupied slots carry a link. A link may lead to an
   * emptied slot: RemoveKey clears the last slot of a chain without
   * touching the link into it.
   */
  ghost predicate Chained(t: seq<Handle>, rank: seq<nat>, bound: nat) {
    && Ranked(t, rank, bound)
    && (forall s :: 0 <= s < |t| ==> t[s].link < LinkLimit)
    && (forall s :: 0 <= s < |t| && t[s].collision ==> t[s].hasValue)
  }

  /**
   * The slot where a probe for `key` that starts at `h` stops: an empty
   * slot, the key's own slot, or an occupied slot without a link.
   */
  ghost function Stop(t: seq<Handle>, rank: seq<nat>, bound: nat, h: nat, key: GridCell): (e: nat)
    requires Ranked(t, rank, bound) && h < |t|
    ensures e < |t|
    ensures !t[e].hasValue || t[e].cell == key || !t[e].collision
    decreases bound - rank[h]
  {
    if t[h].hasValue && t[h].cell != key && t[h].collision then Stop(t, rank, bound, Next(t, h), key) else h
  }

  /** What a probe for `key` from slot `h` answers. */
  ghost function Probe(t: seq<Handle>, rank: seq<nat>, bound: nat, h: nat, key: GridCell): Option<nat>
    requires Ranked(t, rank, bound) && h < |t|
  {
    var e := Stop(t, rank, bound, h, key);
    if t[e].hasValue && t[e].cell == key then Some(t[e].mapped) else None
  }

  /**
   * GetValueByKey as a function of the table: the probe from the key's
   * hash slot. A value found is one stored for the key, and a key stored
   * nowhere is not found.
   */
  ghost function Lookup(t: seq<Handle>, rank: seq<nat>, bound: nat, key: GridCell): (r: Option<nat>)
    requires Ranked(t, rank, bound) && |t| > 0
    ensures r.Some? ==> exists s :: 0 <= s < |t| && t[s].hasValue && t[s].cell == key && t[s].mapped == r.value
    ensures (forall s :: 0 <= s < |t| && t[s].hasValue ==> t[s].cell != key) ==> r == None
  {
    Probe(t, rank, bound, CalculateHashValue(key, |t|), key)
  }

  /** Two tables that agree on occupancy, keys, flags and live links probe alike. */
  ghost predicate SameProbes(t: seq<Handle>, t': seq<Handle>) {
    && |t'| == |t|
    && (forall s :: 0 <= s < |t| ==>
          t'[s].hasValue == t[s].hasValue && t'[s].cell == t[s].cell && t'[s].collision == t[s].collision &&
          (t[s].collision ==> t'[s].link == t[s].link))
  }

  lemma {:induction false} SameProbesStop(t: seq<Handle>, t': seq<Handle>, rank: seq<nat>, bound: nat,
                                         h: nat, key: GridCell)
    requires Ranked(t, rank, bound) && SameProbes(t, t') && h < |t|
    ensures Ranked(t', rank, bound)
    ensures Stop(t', rank, bound, h, key) == Stop(t, rank, bound, h, key)
    decreases bound - rank[h]
  {
    assert forall s :: 0 <= s < |t| && t'[s].collision ==> Next(t', s) == Next(t, s);
    if t[h].hasValue && t[h].cell != key && t[h].collision {
      SameProbesStop(t, t', rank, bound, Next(t, h), key);
    }
  }

  /** Filling an empty slot leaves every probe stopping where it stopped. */
  lemma {:induction false} FillStop(t: seq<Handle>, rank: seq<nat>, bound: nat, e: nat, w: Handle,
                                   h: nat, key: GridCell)
    requires Ranked(t, rank, bound) && e < |t| && h < |t| && !t[e].hasValue && !w.collision
    ensures Ranked(t[e := w], rank, bound)
    ensures Stop(t[e := w], rank, bound, h, key) == Stop(t, rank, bound, h, key)
    decreases bound - rank[h]
  {
    var t' := t[e := w];
    assert forall s :: 0 <= s < |t| && t'[s].collision ==> s != e && Next(t', s) == Next(t, s);
    if h != e && t[h].hasValue && t[h].cell != key && t[h].collision {
      FillStop(t, rank, bound, e, w, Next(t, h), key);
    }
  }

  /** The handle SetValueByKey writes into an empty slot: only the flag, key and value change. */
  function Filled(old_: Handle, key: GridCell, value: nat): Handle {
    old_.(hasValue := true, cell := key, mapped := value)
  }

  /** Filling the empty slot a key's probe ends at keeps the shape of the table. */
  lemma FillChained(t: seq<Handle>, rank: seq<nat>, bound: nat, e: nat, key: GridCell, value: nat)
    requires Chained(t, rank, bound) && e < |t| && !t[e].hasValue
    ensures Chained(t[e := Filled(t[e], key, value)], rank, bound)
  {
    var t' := t[e := Filled(t[e], key, value)];
    assert forall s :: 0 <= s < |t| && t'[s].collision ==> s != e && Next(t', s) == Next(t, s);
  }

  /**
   * Storing a key in the empty slot its probe ends at maps the key to the
   * value and leaves the answer for every other key `k` as it was.
   */
  lemma FillUpdates(t: seq<Handle>, rank: seq<nat>, bound: nat, key: GridCell, value: nat, k: GridCell)
    requires Chained(t, rank, bound) && |t| > 0
    requires !t[Stop(t, rank, bound, CalculateHashValue(key, |t|), key)].hasValue
    ensures var e := Stop(t, rank, bound, CalculateHashValue(key, |t|), key);
      var t' := t[e := Filled(t[e], key, value)];
      Ranked(t', rank, bound) &&
      Lookup(t', rank, bound, k) == if k == key then Some(value) else Lookup(t, rank, bound, k)
  {
    var e := Stop(t, rank, bound, CalculateHashValue(key, |t|), key);
    var w := Filled(t[e], key, value);
    FillStop(t, rank, bound, e, w, CalculateHashValue(key, |t|), key);
    FillStop(t, rank, bound, e, w, CalculateHashValue(k, |t|), k);
  }

  /** Overwriting the value of the slot that holds the key changes only that key's answer. */
  lemma OverwriteUpdates(t: seq<Handle>, rank: seq<nat>, bound: nat, key: GridCell, value: nat, k: GridCell)
    requires Ranked(t, rank, bound) && |t| > 0
    requires var e := Stop(t, rank, bound, CalculateHashValue(key, |t|), key);
      t[e].hasValue && t[e].cell == key
    ensures var e := Stop(t, rank, bound, CalculateHashValue(key, |t|), key);
      var t' := t[e := t[e].(mapped := value)];
      Ranked(t', rank, bound) &&
      Lookup(t', rank, bound, k) == if k == key then Some(value) else Lookup(t, rank, bound, k)
  {
    var e := Stop(t, rank, bound, CalculateHashValue(key, |t|), key);
    var t' := t[e := t[e].(mapped := value)];
    assert SameProbes(t, t');
    SameProbesStop(t, t', rank, bound, CalculateHashValue(k, |t|), k);
  }

  /** The table after the key is placed `i` slots past the slot `s` its probe ended at. */
  function Linked(t: seq<Handle>, s: nat, i: nat, key: GridCell, value: nat): (r: seq<Handle>)
    requires s < |t|
    ensures |r| == |t|
  {
    var j := (s + i) % |t|;
    t[s := t[s].(collision := true, link := i)][j := Filled(t[j], key, value)]
  }

  /** Linking a new slot keeps the shape, with the new slot ranked above all others. */
  lemma LinkedChained(t: seq<Handle>, rank: seq<nat>, bound: nat, s: nat, i: nat, key: GridCell, value: nat)
    requires Chained(t, rank, bound) && s < |t| && 0 < i < LinkLimit
    requires t[s].hasValue && !t[s].collision && !t[(s + i) % |t|].hasValue
    ensures Chained(Linked(t, s, i, key, value), rank[(s + i) % |t| := bound], bound + 1)
  {
    var j := (s + i) % |t|;
    var t' := Linked(t, s, i, key, value);
    var rank' := rank[j := bound];
    assert Next(t', s) == j;
    assert forall u :: 0 <= u < |t| && u != s && t'[u].collision ==>
      u != j && t'[u] == t[u] && Next(t', u) == Next(t, u);
  }

  /**
   * After linking, a probe answers the new value for the key exactly when
   * its old probe stopped at the linking slot or at the new slot; every
   * other answer is unchanged.
   */
  lemma {:induction false} LinkedProbe(t: seq<Handle>, rank: seq<nat>, bound: nat, s: nat, i: nat,
                                       key: GridCell, value: nat, h: nat, k: GridCell)
    requires Chained(t, rank, bound) && s < |t| && h < |t| && 0 < i < LinkLimit
    requires t[s].hasValue && t[s].cell != key && !t[s].collision && !t[(s + i) % |t|].hasValue
    requires Ranked(Linked(t, s, i, key, value), rank[(s + i) % |t| := bound], bound + 1)
    ensures var e := Stop(t, rank, bound, h, k);
      Probe(Linked(t, s, i, key, value), rank[(s + i) % |t| := bound], bound + 1, h, k) ==
      if k == key && (e == s || e == (s + i) % |t|) then Some(value) else Probe(t, rank, bound, h, k)
    decreases bound - rank[h]
  {
    var j := (s + i) % |t|;
    var t' := Linked(t, s, i, key, value);
    var rank' := rank[j := bound];
    assert j != s;
    assert t'[j] == Filled(t[j], key, value) && !t'[j].collision;
    if h == s {
      assert t'[s].cell == t[s].cell && t'[s].collision && Next(t', s) == j;
      assert Stop(t, rank, bound, s, k) == s;
      if t[s].cell != k {
        assert Stop(t', rank', bound + 1, s, k) == Stop(t', rank', bound + 1, j, k) == j;
      }
    } else if h != j && t[h].hasValue && t[h].cell != k && t[h].collision {
      assert t'[h] == t[h] && Next(t', h) == Next(t, h);
      LinkedProbe(t, rank, bound, s, i, key, value, Next(t, h), k);
    } else if h != j {
      assert t'[h] == t[h];
    }
  }

  /** Linking a new slot for a key maps it to the value and leaves every other key's answer alone. */
  lemma LinkedUpdates(t: seq<Handle>, rank: seq<nat>, bound: nat, s: nat, i: nat,
                      key: GridCell, value: nat, k: GridCell)
    requires Chained(t, rank, bound) && |t| > 0 && 0 < i < LinkLimit
    requires s == Stop(t, rank, bound, CalculateHashValue(key, |t|), key)
    requires t[s].hasValue && t[s].cell != key && !t[(s + i) % |t|].hasValue
    requires Ranked(Linked(t, s, i, key, value), rank[(s + i) % |t| := bound], bound + 1)
    ensures Lookup(Linked(t, s, i, key, value), rank[(s + i) % |t| := bound], bound + 1, k) ==
      if k == key then Some(value) else Lookup(t, rank, bound, k)
  {
    LinkedProbe(t, rank, bound, s, i, key, value, CalculateHashValue(k, |t|), k);
  }

  /**
   * The offset of the first empty slot among `s + i`, ..., `s + 63`
   * (modulo the table size): the probe SetValueByKey makes after a new
   * collision.
   */
  function FirstEmpty(t: seq<Handle>, s: nat, i: nat): (r: Option<nat>)
    requires s < |t| && 0 < i <= LinkLimit
    ensures r.Some? ==> i <= r.value < LinkLimit && !OffsetOccupied(t, s, r.value)
    ensures r.Some? ==> forall d :: i <= d < r.value ==> OffsetOccupied(t, s, d)
    ensures r.None? ==> forall d :: i <= d < LinkLimit ==> OffsetOccupied(t, s, d)
    decreases LinkLimit - i
  {
    if i == LinkLimit then None
    else if !OffsetOccupied(t, s, i) then Some(i)
    else FirstEmpty(t, s, i + 1)
  }

  /** Whether the slot `d` places after `s` (wrapping around) holds a key. */
  predicate OffsetOccupied(t: seq<Handle>, s: nat, d: nat)
    requires s < |t|
  {
    t[(s + d) % |t|].hasValue
  }

  /**
   * The table after SetValueByKey, and whether it succeeded: the key's probe
   * ends at an empty slot (filled), at the key's own slot (overwritten) or
   * at the end of a chain, where the first empty slot within 63 places is
   * linked; when there is none the link field is left at 63 and the call
   * fails.
   */
  ghost function SetSpec(t: seq<Handle>, rank: seq<nat>, bound: nat, key: GridCell, value: nat)
    : (r: (seq<Handle>, bool))
    requires Ranked(t, rank, bound) && |t| > 0
    ensures |r.0| == |t|
  {
    var s := Stop(t, rank, bound, CalculateHashValue(key, |t|), key);
    if !t[s].hasValue then (t[s := Filled(t[s], key, value)], true)
    else if t[s].cell == key then (t[s := t[s].(mapped := value)], true)
    else match FirstEmpty(t, s, 1)
      case Some(i) => (Linked(t, s, i, key, value), true)
      case None => (t[s := t[s].(link := MaxLink)], false)
  }

  /**
   * The collision probe as the source writes it: the probe position moves
   * on by `i` at step `i`, so the slot tried at step `i` is `i(i+1)/2`
   * places after the chain's end, while the link stored is `i`. Returns
   * the step and the slot of the first empty one.
   */
  function CumulativeProbe(t: seq<Handle>, pos: nat, i: nat): (r: Option<(nat, nat)>)
    requires pos < |t| && 0 < i <= LinkLimit
    ensures r.Some? ==> i <= r.value.0 < LinkLimit && r.value.1 < |t| && !t[r.value.1].hasValue
    decreases LinkLimit - i
  {
    if i == LinkLimit then None
    else
      var p := (pos + i) % |t|;
      if !t[p].hasValue then Some((i, p)) else CumulativeProbe(t, p, i + 1)
  }

  /** SetValueByKey as written: like SetSpec, except for where a new collision's key is put. */
  ghost function SetAsWritten(t: seq<Handle>, rank: seq<nat>, bound: nat, key: GridCell, value: nat)
    : (r: (seq<Handle>, bool))
    requires Ranked(t, rank, bound) && |t| > 0
    ensures |r.0| == |t|
  {
    var s := Stop(t, rank, bound, CalculateHashValue(key, |t|), key);
    if !t[s].hasValue then (t[s := Filled(t[s], key, value)], true)
    else if t[s].cell == key then (t[s := t[s].(mapped := value)], true)
    else match CumulativeProbe(t, s, 1)
      case Some((i, p)) => (t[s := t[s].(collision := true, link := i)][p := Filled(t[p], key, value)], true)
      case None => (t[s := t[s].(link := MaxLink)], false)
  }

  /** A product already within the int32 range is not changed by the wrap-around. */
  lemma WrapInt32InRange(v: int)
    requires -0x8000_0000 <= v < 0x8000_0000
    ensures WrapInt32(v) == v
  {
    assert (v + 0x8000_0000) % Two32 == v + 0x8000_0000;
  }

  /** The hash slots of the cells the examples below use, in a four-slot table. */
  lemma SmallHashes()
    ensures CalculateHashValue(GridCell(0, 0), 4) == 0
    ensures CalculateHashValue(GridCell(4, 0), 4) == 0
    ensures CalculateHashValue(GridCell(1, 0), 4) == 1
  {
    WrapInt32InRange(0);
    WrapInt32InRange(295424372);
    WrapInt32InRange(73856093);
  }

  /** The table of the example below: (0, 0) in slot 0, (1, 0) in slot 1. */
  function TwoKeys(): seq<Handle> {
    [Handle(0, GridCell(0, 0), false, true, 0), Handle(1, GridCell(1, 0), false, true, 0), EmptyHandle, EmptyHandle]
  }

  /**
   * The cell (4, 0) hashes to slot 0 of TwoKeys(). As written, the probe
   * tries slot 1, then slot 3, and stores the key there with link 2, so its
   * lookup follows the link to the empty slot 2 and misses it.
   */
  lemma CumulativeProbeLosesKey()
    ensures var w := SetAsWritten(TwoKeys(), [0, 0, 0, 0], 1, GridCell(4, 0), 2);
      && w.1 && w.0[3] == Filled(EmptyHandle, GridCell(4, 0), 2)
      && Ranked(w.0, [0, 0, 1, 0], 2)
      && Lookup(w.0, [0, 0, 1, 0], 2, GridCell(4, 0)) == None
  {
    var t, rank, rank', key := TwoKeys(), [0, 0, 0, 0], [0, 0, 1, 0], GridCell(4, 0);
    assert CalculateHashValue(key, 4) == 0 by { SmallHashes(); }
    assert !t[0].collision && !t[1].collision && !t[2].collision && !t[3].collision;
    assert Ranked(t, rank, 1);
    assert Stop(t, rank, 1, 0, key) == 0;
    assert CumulativeProbe(t, 1, 2) == Some((2, 3));
    assert CumulativeProbe(t, 0, 1) == Some((2, 3));
    var w := t[0 := t[0].(collision := true, link := 2)][3 := Filled(t[3], key, 2)];
    assert SetAsWritten(t, rank, 1, key, 2) == (w, true);
    assert w[0].collision && Next(w, 0) == 2 && !w[1].collision && !w[2].collision && !w[3].collision;
    assert Ranked(w, rank', 2) by {
      forall s | 0 <= s < |w| && w[s].collision
        ensures rank'[s] < rank'[Next(w, s)]
      {
        assert s == 0;
      }
    }
    assert !w[2].hasValue;
    assert Stop(w, rank', 2, 2, key) == 2;
    assert Stop(w, rank', 2, 0, key) == 2;
  }

  /** SetSpec on the same table links the slot the key is stored in, and the key is found. */
  lemma LinkedProbeFindsKey()
    ensures var c := SetSpec(TwoKeys(), [0, 0, 0, 0], 1, GridCell(4, 0), 2);
      && c.1 && Ranked(c.0, [0, 0, 1, 0], 2)
      && Lookup(c.0, [0, 0, 1, 0], 2, GridCell(4, 0)) == Some(2)
  {
    var t, rank, rank', key := TwoKeys(), [0, 0, 0, 0], [0, 0, 1, 0], GridCell(4, 0);
    assert CalculateHashValue(key, 4) == 0 by { SmallHashes(); }
    assert !t[0].collision && !t[1].collision && !t[2].collision && !t[3].collision;
    assert Ranked(t, rank, 1);
    assert Stop(t, rank, 1, 0, key) == 0;
    assert FirstEmpty(t, 0, 2) == Some(2);
    assert FirstEmpty(t, 0, 1) == Some(2);
    var c := Linked(t, 0, 2, key, 2);
    assert SetSpec(t, rank, 1, key, 2) == (c, true);
    assert c[0].collision && Next(c, 0) == 2 && !c[1].collision && !c[2].collision && !c[3].collision;
    assert Ranked(c, rank', 2) by {
      forall s | 0 <= s < |c| && c[s].collision
        ensures rank'[s] < rank'[Next(c, s)]
      {
        assert s == 0;
      }
    }
    assert c[2] == Filled(EmptyHandle, key, 2);
    assert Stop(c, rank', 2, 2, key) == 2;
    assert Stop(c, rank', 2, 0, key) == 2;
  }

  /** A failed insertion only rewrites the unused link of the chain's last slot, which keeps the shape... */
  lemma FailedChained(t: seq<Handle>, rank: seq<nat>, bound: nat, s: nat)
    requires Chained(t, rank, bound) && s < |t| && !t[s].collision
    ensures Chained(t[s := t[s].(link := MaxLink)], rank, bound)
  {
    var t' := t[s := t[s].(link := MaxLink)];
    assert forall u :: 0 <= u < |t| && t'[u].collision ==> Next(t', u) == Next(t, u);
  }

  /** ... and every answer. */
  lemma FailedKeeps(t: seq<Handle>, rank: seq<nat>, bound: nat, s: nat, k: GridCell)
    requires Ranked(t, rank, bound) && |t| > 0 && s < |t| && !t[s].collision
    ensures Ranked(t[s := t[s].(link := MaxLink)], rank, bound)
    ensures Lookup(t[s := t[s].(link := MaxLink)], rank, bound, k) == Lookup(t, rank, bound, k)
  {
    var t' := t[s := t[s].(link := MaxLink)];
    assert SameProbes(t, t');
    SameProbesStop(t, t', rank, bound, CalculateHashValue(k, |t|), k);
  }

  /**
   * What SetValueByKey promises: the shape is kept, the key maps to the
   * value when the call succeeds, and every other key keeps its answer.
   */
  ghost predicate UpdatedBySet(t: seq<Handle>, rank: seq<nat>, bound: nat,
                               t': seq<Handle>, rank': seq<nat>, bound': nat,
                               key: GridCell, value: nat, ok: bool)
  {
    && Ranked(t, rank, bound) && |t| > 0 && |t'| == |t|
    && Chained(t', rank', bound')
    && MapsAfterSet(t, rank, bound, t', rank', bound', key, value, ok)
  }

  /** Every key's answer after a set, relative to its answer before. */
  ghost predicate MapsAfterSet(t: seq<Handle>, rank: seq<nat>, bound: nat,
                               t': seq<Handle>, rank': seq<nat>, bound': nat,
                               key: GridCell, value: nat, ok: bool)
    requires Ranked(t, rank, bound) && Ranked(t', rank', bound') && |t| > 0 && |t'| == |t|
  {
    forall k :: Lookup(t', rank', bound', k) == if k == key && ok then Some(value) else Lookup(t, rank, bound, k)
  }

  lemma FillSets(t: seq<Handle>, rank: seq<nat>, bound: nat, key: GridCell, value: nat)
    requires Chained(t, rank, bound) && |t| > 0
    requires !t[Stop(t, rank, bound, CalculateHashValue(key, |t|), key)].hasValue
    ensures var e := Stop(t, rank, bound, CalculateHashValue(key, |t|), key);
      UpdatedBySet(t, rank, bound, t[e := Filled(t[e], key, value)], rank, bound, key, value, true)
  {
    var e := Stop(t, rank, bound, CalculateHashValue(key, |t|), key);
    var t' := t[e := Filled(t[e], key, value)];
    FillChained(t, rank, bound, e, key, value);
    forall k
      ensures Lookup(t', rank, bound, k) == if k == key then Some(value) else Lookup(t, rank, bound, k)
    {
      FillUpdates(t, rank, bound, key, value, k);
    }
  }

  lemma OverwriteSets(t: seq<Handle>, rank: seq<nat>, bound: nat, key: GridCell, value: nat)
    requires Chained(t, rank, bound) && |t| > 0
    requires var e := Stop(t, rank, bound, CalculateHashValue(key, |t|), key);
      t[e].hasValue && t[e].cell == key
    ensures var e := Stop(t, rank, bound, CalculateHashValue(key, |t|), key);
      UpdatedBySet(t, rank, bound, t[e := t[e].(mapped := value)], rank, bound, key, value, true)
  {
    var e := Stop(t, rank, bound, CalculateHashValue(key, |t|), key);
    var t' := t[e := t[e].(mapped := value)];
    assert SameProbes(t, t');
    assert forall u :: 0 <= u < |t| && t'[u].collision ==> Next(t', u) == Next(t, u);
    forall k
      ensures Lookup(t', rank, bound, k) == if k == key then Some(value) else Lookup(t, rank, bound, k)
    {
      OverwriteUpdates(t, rank, bound, key, value, k);
    }
  }

  lemma FailedSets(t: seq<Handle>, rank: seq<nat>, bound: nat, key: GridCell, value: nat, s: nat)
    requires Chained(t, rank, bound) && |t| > 0 && s < |t| && !t[s].collision
    ensures UpdatedBySet(t, rank, bound, t[s := t[s].(link := MaxLink)], rank, bound, key, value, false)
  {
    var t' := t[s := t[s].(link := MaxLink)];
    FailedChained(t, rank, bound, s);
    forall k
      ensures Lookup(t', rank, bound, k) == Lookup(t, rank, bound, k)
    {
      FailedKeeps(t, rank, bound, s, k);
    }
  }

  lemma LinkedSets(t: seq<Handle>, rank: seq<nat>, bound: nat, s: nat, i: nat, key: GridCell, value: nat,
                    rank': seq<nat>, bound': nat)
    requires Chained(t, rank, bound) && |t| > 0 && 0 < i < LinkLimit
    requires s == Stop(t, rank, bound, CalculateHashValue(key, |t|), key)
    requires t[s].hasValue && t[s].cell != key && !t[(s + i) % |t|].hasValue
    requires rank' == rank[(s + i) % |t| := bound] && bound' == bound + 1
    ensures UpdatedBySet(t, rank, bound, Linked(t, s, i, key, value), rank', bound', key, value, true)
  {
    LinkedChained(t, rank, bound, s, i, key, value);
    LinkedMaps(t, rank, bound, s, i, key, value, Linked(t, s, i, key, value), rank', bound');
  }

  lemma LinkedMaps(t: seq<Handle>, rank: seq<nat>, bound: nat, s: nat, i: nat, key: GridCell, value: nat,
                    t': seq<Handle>, rank': seq<nat>, bound': nat)
    requires Chained(t, rank, bound) && |t| > 0 && 0 < i < LinkLimit
    requires s == Stop(t, rank, bound, CalculateHashValue(key, |t|), key)
    requires t[s].hasValue && t[s].cell != key && !t[(s + i) % |t|].hasValue
    requires t' == Linked(t, s, i, key, value) && rank' == rank[(s + i) % |t| := bound] && bound' == bound + 1
    requires Ranked(t', rank', bound')
    ensures MapsAfterSet(t, rank, bound, t', rank', bound', key, value, true)
  {
    forall k
      ensures Lookup(t', rank', bound', k) == if k == key then Some(value) else Lookup(t, rank, bound, k)
    {
      LinkedUpdates(t, rank, bound, s, i, key, value, k);
    }
  }

  /**
   * One step of RemoveKey's shift: the handle `link` slots after `cur` is
   * copied into `cur`, which keeps its own link.
   */
  function ShiftStep(t: seq<Handle>, cur: nat): (r: seq<Handle>)
    requires cur < |t|
    ensures |r| == |t|
  {
    t[cur := t[Next(t, cur)].(link := t[cur].link)]
  }

  /**
   * The state inside RemoveKey's shift: `cur` has just received a copy of
   * `rep`, the slot it still links to.
   */
  ghost predicate Copied(t: seq<Handle>, rank: seq<nat>, bound: nat, cur: nat, rep: nat) {
    && Chained(t, rank, bound) && cur < |t| && rep < |t| && Next(t, cur) == rep
    && t[cur].collision == t[rep].collision
  }

  /** A shift step keeps the shape of the table and reaches the state the shift loop expects. */
  lemma ShiftStepChained(t: seq<Handle>, rank: seq<nat>, bound: nat, cur: nat)
    requires Chained(t, rank, bound) && cur < |t| && t[cur].collision
    ensures Copied(ShiftStep(t, cur), rank, bound, cur, Next(t, cur))
    ensures ShiftStep(t, cur)[Next(t, cur)] == t[Next(t, cur)]
  {
    var rep := Next(t, cur);
    var t1 := ShiftStep(t, cur);
    assert rep != cur;
    assert forall u :: 0 <= u < |t| ==> Next(t1, u) == Next(t, u);
  }

  /**
   * The table after RemoveKey's shift starting at `cur`: every handle along
   * the chain moves one link back, and the slot of the last one is emptied.
   */
  ghost function ShiftFrom(t: seq<Handle>, rank: seq<nat>, bound: nat, cur: nat): (r: seq<Handle>)
    requires Chained(t, rank, bound) && cur < |t| && t[cur].collision
    ensures |r| == |t|
    decreases bound - rank[cur], 0
  {
    ShiftStepChained(t, rank, bound, cur);
    AfterCopy(ShiftStep(t, cur), rank, bound, cur, Next(t, cur))
  }

  /** The rest of the shift once `cur` holds a copy of `rep`. */
  ghost function AfterCopy(t: seq<Handle>, rank: seq<nat>, bound: nat, cur: nat, rep: nat): (r: seq<Handle>)
    requires Copied(t, rank, bound, cur, rep)
    ensures |r| == |t|
    decreases bound - rank[rep], 1
  {
    if t[rep].collision then ShiftFrom(t, rank, bound, rep) else t[rep := t[rep].(hasValue := false)]
  }

  /** One more turn of RemoveKey's shift loop leads to the same final table. */
  lemma ShiftAdvance(t: seq<Handle>, rank: seq<nat>, bound: nat, cur: nat, rep: nat)
    requires Copied(t, rank, bound, cur, rep) && t[rep].collision
    ensures rank[rep] < rank[Next(t, rep)]
    ensures Copied(ShiftStep(t, rep), rank, bound, rep, Next(t, rep))
    ensures AfterCopy(ShiftStep(t, rep), rank, bound, rep, Next(t, rep)) == AfterCopy(t, rank, bound, cur, rep)
  {
    ShiftStepChained(t, rank, bound, rep);
  }

  /**
   * RemoveKey as a function of the table: the probe for the key stops at
   * its slot or shows it absent; an absent key leaves the table alone, a
   * slot without a link is just marked empty, and a linked one is replaced
   * by shifting its chain.
   */
  ghost function RemoveSpec(t: seq<Handle>, rank: seq<nat>, bound: nat, key: GridCell): (r: seq<Handle>)
    requires Chained(t, rank, bound) && |t| > 0
    ensures |r| == |t|
  {
    var e := Stop(t, rank, bound, CalculateHashValue(key, |t|), key);
    if !(t[e].hasValue && t[e].cell == key) then t
    else if t[e].collision then ShiftFrom(t, rank, bound, e)
    else t[e := t[e].(hasValue := false)]
  }

  /** Emptying the last slot of a shift keeps the shape. */
  lemma CutChained(t: seq<Handle>, rank: seq<nat>, bound: nat, cur: nat, rep: nat)
    requires Copied(t, rank, bound, cur, rep) && !t[rep].collision
    ensures Chained(t[rep := t[rep].(hasValue := false)], rank, bound)
  {
    var t' := t[rep := t[rep].(hasValue := false)];
    assert forall u :: 0 <= u < |t| ==> Next(t', u) == Next(t, u);
  }

  lemma {:induction false} ShiftFromChained(t: seq<Handle>, rank: seq<nat>, bound: nat, cur: nat)
    requires Chained(t, rank, bound) && cur < |t| && t[cur].collision
    ensures Chained(ShiftFrom(t, rank, bound, cur), rank, bound)
    decreases bound - rank[cur], 0
  {
    ShiftStepChained(t, rank, bound, cur);
    AfterCopyChained(ShiftStep(t, cur), rank, bound, cur, Next(t, cur));
  }

  lemma {:induction false} AfterCopyChained(t: seq<Handle>, rank: seq<nat>, bound: nat, cur: nat, rep: nat)
    requires Copied(t, rank, bound, cur, rep)
    ensures Chained(AfterCopy(t, rank, bound, cur, rep), rank, bound)
    decreases bound - rank[rep], 1
  {
    if t[rep].collision {
      ShiftFromChained(t, rank, bound, rep);
    } else {
      CutChained(t, rank, bound, cur, rep);
    }
  }

  /** RemoveKey keeps the shape of the table. */
  lemma RemoveChained(t: seq<Handle>, rank: seq<nat>, bound: nat, key: GridCell)
    requires Chained(t, rank, bound) && |t| > 0
    ensures Chained(RemoveSpec(t, rank, bound, key), rank, bound)
  {
    var e := Stop(t, rank, bound, CalculateHashValue(key, |t|), key);
    if t[e].hasValue && t[e].cell == key {
      if t[e].collision {
        ShiftFromChained(t, rank, bound, e);
      } else {
        var t' := t[e := t[e].(hasValue := false)];
        assert forall u :: 0 <= u < |t| ==> Next(t', u) == Next(t, u);
      }
    }
  }

  /** Whether a handle stores `cell` mapped to `section`: 1 or 0. */
  function Holds(h: Handle, cell: GridCell, section: nat): nat {
    if h.hasValue && h.cell == cell && h.mapped == section then 1 else 0
  }

  /** How many slots from `i` on store `cell` mapped to `section`. */
  function CountFrom(t: seq<Handle>, i: nat, cell: GridCell, section: nat): nat
    requires i <= |t|
    decreases |t| - i
  {
    if i == |t| then 0 else Holds(t[i], cell, section) + CountFrom(t, i + 1, cell, section)
  }

  /** How many slots of the table store `cell` mapped to `section`. */
  function Count(t: seq<Handle>, cell: GridCell, section: nat): nat {
    CountFrom(t, 0, cell, section)
  }

  /** Slots before `i` do not contribute to the count from `i` on. */
  lemma {:induction false} CountFromKept(t: seq<Handle>, i: nat, j: nat, h: Handle, c: GridCell, v: nat)
    requires j < i <= |t|
    ensures CountFrom(t[j := h], i, c, v) == CountFrom(t, i, c, v)
    decreases |t| - i
  {
    if i < |t| {
      CountFromKept(t, i + 1, j, h, c, v);
    }
  }

  lemma {:induction false} CountFromUpdate(t: seq<Handle>, i: nat, j: nat, h: Handle, c: GridCell, v: nat)
    requires i <= j < |t|
    ensures CountFrom(t[j := h], i, c, v) + Holds(t[j], c, v) == CountFrom(t, i, c, v) + Holds(h, c, v)
    decreases j - i
  {
    if i == j {
      CountFromKept(t, j + 1, j, h, c, v);
    } else {
      CountFromUpdate(t, i + 1, j, h, c, v);
    }
  }

  /** Replacing one handle replaces its pair among the table's pairs. */
  lemma CountUpdate(t: seq<Handle>, i: nat, h: Handle, c: GridCell, v: nat)
    requires i < |t|
    ensures Count(t[i := h], c, v) + Holds(t[i], c, v) == Count(t, c, v) + Holds(h, c, v)
  {
    CountFromUpdate(t, 0, i, h, c, v);
  }

  lemma {:induction false} ShiftFromCount(t: seq<Handle>, rank: seq<nat>, bound: nat, cur: nat, c: GridCell, v: nat)
    requires Chained(t, rank, bound) && cur < |t| && t[cur].collision
    ensures Count(ShiftFrom(t, rank, bound, cur), c, v) + Holds(t[cur], c, v) == Count(t, c, v)
    decreases bound - rank[cur], 0
  {
    var rep := Next(t, cur);
    var t1 := ShiftStep(t, cur);
    ShiftStepChained(t, rank, bound, cur);
    CountUpdate(t, cur, t1[cur], c, v);
    AfterCopyCount(t1, rank, bound, cur, rep, c, v);
    assert Holds(t1[cur], c, v) == Holds(t[rep], c, v) == Holds(t1[rep], c, v);
  }

  lemma {:induction false} AfterCopyCount(t: seq<Handle>, rank: seq<nat>, bound: nat, cur: nat, rep: nat,
                                          c: GridCell, v: nat)
    requires Copied(t, rank, bound, cur, rep)
    ensures Count(AfterCopy(t, rank, bound, cur, rep), c, v) + Holds(t[rep], c, v) == Count(t, c, v)
    decreases bound - rank[rep], 1
  {
    if t[rep].collision {
      ShiftFromCount(t, rank, bound, rep, c, v);
    } else {
      CountUpdate(t, rep, t[rep].(hasValue := false), c, v);
    }
  }

  /**
   * What RemoveKey does to the stored pairs: a key that is not found leaves
   * the table unchanged, and a key that is found loses one copy of exactly
   * the pair the lookup returned while every other pair keeps its count.
   */
  lemma RemoveCount(t: seq<Handle>, rank: seq<nat>, bound: nat, key: GridCell, c: GridCell, v: nat)
    requires Chained(t, rank, bound) && |t| > 0
    ensures Lookup(t, rank, bound, key).None? ==> RemoveSpec(t, rank, bound, key) == t
    ensures Count(RemoveSpec(t, rank, bound, key), c, v) +
      (if Lookup(t, rank, bound, key) == Some(v) && c == key then 1 else 0) == Count(t, c, v)
  {
    var e := Stop(t, rank, bound, CalculateHashValue(key, |t|), key);
    if t[e].hasValue && t[e].cell == key {
      assert Holds(t[e], c, v) == if Lookup(t, rank, bound, key) == Some(v) && c == key then 1 else 0;
      if t[e].collision {
        ShiftFromCount(t, rank, bound, e, c, v);
      } else {
        CountUpdate(t, e, t[e].(hasValue := false), c, v);
      }
    }
  }

  /**
   * A chain 0 -> 1 -> 2 in a four-slot table: (0, 0) in its hash slot 0,
   * (4, 0), which also hashes to 0, linked into slot 1, and (1, 0), which
   * hashes to 1, linked from there into slot 2 (the order SetSpec would
   * build it in).
   */
  function ChainOfThree(): seq<Handle> {
    [Handle(10, GridCell(0, 0), true, true, 1), Handle(11, GridCell(4, 0), true, true, 1),
     Handle(12, GridCell(1, 0), false, true, 0), EmptyHandle]
  }

  /** ChainOfThree() after removing (0, 0): the other two move one link back. */
  function ChainAfterOneRemoval(): seq<Handle> {
    [Handle(11, GridCell(4, 0), true, true, 1), Handle(12, GridCell(1, 0), false, true, 1),
     Handle(12, GridCell(1, 0), false, false, 0), EmptyHandle]
  }

  /** ... and after removing (4, 0) as well: (1, 0) lands in slot 0, before its hash slot. */
  function ChainAfterTwoRemovals(): seq<Handle> {
    [Handle(12, GridCell(1, 0), false, true, 1), Handle(12, GridCell(1, 0), false, false, 1),
     Handle(12, GridCell(1, 0), false, false, 0), EmptyHandle]
  }

  lemma ChainOfThreeShape()
    ensures Chained(ChainOfThree(), [0, 1, 2, 0], 3)
    ensures Chained(ChainAfterOneRemoval(), [0, 1, 2, 0], 3)
  {
    var t, t1 := ChainOfThree(), ChainAfterOneRemoval();
    assert Next(t, 0) == 1 && Next(t, 1) == 2 && !t[2].collision && !t[3].collision;
    assert Next(t1, 0) == 1 && !t1[1].collision && !t1[2].collision && !t1[3].collision;
  }

  /** In ChainOfThree(), (1, 0) is found by following the chain from its hash slot. */
  lemma FoundBeforeRemovals()
    ensures Chained(ChainOfThree(), [0, 1, 2, 0], 3)
    ensures Lookup(ChainOfThree(), [0, 1, 2, 0], 3, GridCell(1, 0)) == Some(12)
  {
    var t, rank := ChainOfThree(), [0, 1, 2, 0];
    ChainOfThreeShape();
    assert CalculateHashValue(GridCell(1, 0), 4) == 1 by { SmallHashes(); }
    assert Stop(t, rank, 3, 2, GridCell(1, 0)) == 2;
    assert Stop(t, rank, 3, 1, GridCell(1, 0)) == 2;
  }

  /** Removing (0, 0) from ChainOfThree() moves the other two keys one link back. */
  lemma FirstRemoval()
    ensures Chained(ChainOfThree(), [0, 1, 2, 0], 3)
    ensures RemoveSpec(ChainOfThree(), [0, 1, 2, 0], 3, GridCell(0, 0)) == ChainAfterOneRemoval()
  {
    var t, rank := ChainOfThree(), [0, 1, 2, 0];
    ChainOfThreeShape();
    assert CalculateHashValue(GridCell(0, 0), 4) == 0 by { SmallHashes(); }
    assert Stop(t, rank, 3, 0, GridCell(0, 0)) == 0;
    var t1 := ShiftStep(t, 0);
    ShiftStepChained(t, rank, 3, 0);
    var t2 := ShiftStep(t1, 1);
    ShiftStepChained(t1, rank, 3, 1);
    assert AfterCopy(t2, rank, 3, 1, 2) == ChainAfterOneRemoval();
  }

  /** Removing (4, 0) next moves (1, 0) into slot 0. */
  lemma SecondRemoval()
    ensures Chained(ChainAfterOneRemoval(), [0, 1, 2, 0], 3)
    ensures RemoveSpec(ChainAfterOneRemoval(), [0, 1, 2, 0], 3, GridCell(4, 0)) == ChainAfterTwoRemovals()
  {
    var t, rank := ChainAfterOneRemoval(), [0, 1, 2, 0];
    ChainOfThreeShape();
    assert CalculateHashValue(GridCell(4, 0), 4) == 0 by { SmallHashes(); }
    assert Stop(t, rank, 3, 0, GridCell(4, 0)) == 0;
    var t1 := ShiftStep(t, 0);
    ShiftStepChained(t, rank, 3, 0);
    assert AfterCopy(t1, rank, 3, 0, 1) == ChainAfterTwoRemovals();
  }

  /**
   * RemoveKey as written can make another key unreachable: after the two
   * removals above, the pair for (1, 0) is still stored, in slot 0, but its
   * probe starts at the now empty slot 1 and finds nothing.
   */
  lemma RemovalsLoseKey()
    ensures Ranked(ChainAfterTwoRemovals(), [0, 1, 2, 0], 3)
    ensures Count(ChainAfterTwoRemovals(), GridCell(1, 0), 12) == 1
    ensures Lookup(ChainAfterTwoRemovals(), [0, 1, 2, 0], 3, GridCell(1, 0)) == None
  {
    var t, rank, k := ChainAfterTwoRemovals(), [0, 1, 2, 0], GridCell(1, 0);
    assert !t[0].collision && !t[1].collision && !t[2].collision && !t[3].collision;
    assert Ranked(t, rank, 3);
    assert CalculateHashValue(k, 4) == 1 by { SmallHashes(); }
    assert Stop(t, rank, 3, 1, k) == 1;
    assert CountFrom(t, 3, k, 12) == 0 && CountFrom(t, 2, k, 12) == 0 && CountFrom(t, 1, k, 12) == 0;
  }

  /**
   * The slots of the table, in order, that hold a key: what iterating from
   * begin() to end() visits. A cell is listed exactly when some occupied
   * slot holds it.
   */
  function OccupiedCells(t: seq<Handle>, i: nat): (r: seq<GridCell>)
    requires i <= |t|
    ensures forall c :: c in r <==> exists s :: i <= s < |t| && t[s].hasValue && t[s].cell == c
    ensures |r| <= |t| - i
    decreases |t| - i
  {
    if i == |t| then []
    else if t[i].hasValue then [t[i].cell] + OccupiedCells(t, i + 1)
    else OccupiedCells(t, i + 1)
  }

  /** The first occupied slot at or after `i`, or the table size when there is none. */
  function NextOccupied(t: seq<Handle>, i: nat): (r: nat)
    requires i <= |t|
    ensures i <= r <= |t| && (r < |t| ==> t[r].hasValue)
    ensures forall s :: i <= s < r ==> !t[s].hasValue
    decreases |t| - i
  {
    if i == |t| || t[i].hasValue then i else NextOccupied(t, i + 1)
  }

  /** Empty slots add nothing to the cells iteration visits. */
  lemma {:induction false} OccupiedCellsSkip(t: seq<Handle>, i: nat)
    requires i <= |t|
    ensures OccupiedCells(t, i) == OccupiedCells(t, NextOccupied(t, i))
    decreases |t| - i
  {
    if i < |t| && !t[i].hasValue {
      OccupiedCellsSkip(t, i + 1);
    }
  }

  /** From an occupied slot, iteration visits its cell and then continues at the next occupied slot. */
  lemma OccupiedCellsStep(t: seq<Handle>, i: nat)
    requires i < |t| && t[i].hasValue
    ensures OccupiedCells(t, i) == [t[i].cell] + OccupiedCells(t, NextOccupied(t, i + 1))
  {
    OccupiedCellsSkip(t, i + 1);
  }

  class HashTable {
    const hashTableSize: nat
    const table: array<Handle>
    /** The ranks that order every chain, and the bound they lie below. */
    ghost var rank: seq<nat>
    ghost var bound: nat

    ghost predicate Valid()
      reads this, table
    {
      table.Length == hashTableSize && Chained(table[..], rank, bound)
    }

    /** HashTable(size): every handle is empty, so no key is found and begin() == end(). */
    constructor (size: nat)
      ensures Valid() && hashTableSize == size && fresh(table)
      ensures table[..] == seq(size, _ => EmptyHandle)
      ensures size > 0 ==> forall k :: Lookup(table[..], rank, bound, k) == None
      ensures NextOccupied(table[..], 0) == size
    {
      hashTableSize := size;
      table := new Handle[size](_ => EmptyHandle);
      rank := seq(size, _ => 0);
      bound := 1;
    }

    /** The slot the probe for `key` stops at: GetValueByKeyInternal's and SetValueByKeyInternal's walk. */
    method FindSlot(key: GridCell) returns (s: nat)
      requires Valid() && hashTableSize > 0
      ensures s == Stop(table[..], rank, bound, CalculateHashValue(key, hashTableSize), key)
    {
      ghost var t := table[..];
      s := CalculateHashValue(key, hashTableSize);
      ghost var start := s;
      while table[s].hasValue && table[s].cell != key && table[s].collision
        invariant s < table.Length
        invariant Stop(t, rank, bound, start, key) == Stop(t, rank, bound, s, key)
        decreases bound - rank[s]
      {
        s := (s + table[s].link) % hashTableSize;
      }
    }

    /** GetValueByKey: `found` is whether the key is in the table and `value` its section when it is. */
    method GetValueByKey(key: GridCell) returns (found: bool, value: nat)
      requires Valid() && hashTableSize > 0
      ensures found <==> Lookup(table[..], rank, bound, key).Some?
      ensures found ==> value == Lookup(table[..], rank, bound, key).value
    {
      var s := FindSlot(key);
      if table[s].hasValue && table[s].cell == key {
        return true, table[s].mapped;
      }
      return false, 0;
    }

    /** The collision probe: the offset of the first empty slot within 63 places of `s`. */
    method FindEmptyOffset(s: nat) returns (r: Option<nat>)
      requires s < table.Length
      ensures r == FirstEmpty(table[..], s, 1)
    {
      var i := 1;
      while i < LinkLimit
        invariant 1 <= i <= LinkLimit
        invariant forall d :: 1 <= d < i ==> OffsetOccupied(table[..], s, d)
      {
        if !table[(s + i) % table.Length].hasValue {
          assert !OffsetOccupied(table[..], s, i);
          return Some(i);
        }
        i := i + 1;
      }
      return None;
    }

    /**
     * SetValueByKey. Afterwards the key maps to `value` and every other key
     * to what it mapped to before; the call fails only when the 63 slots
     * after a new collision are all occupied, and then nothing is found
     * differently.
     */
    method SetValueByKey(key: GridCell, value: nat) returns (r: Result<()>)
      requires Valid() && hashTableSize > 0
      modifies this, table
      ensures Valid()
      ensures (table[..], r.Ok?) == SetSpec(old(table[..]), old(rank), old(bound), key, value)
      ensures r.Err? ==> r.message == NoEmptyCell
      ensures UpdatedBySet(old(table[..]), old(rank), old(bound), table[..], rank, bound, key, value, r.Ok?)
    {
      ghost var t := table[..];
      var s := FindSlot(key);
      if !table[s].hasValue {
        FillSets(t, rank, bound, key, value);
        table[s] := Filled(table[s], key, value);
        assert table[..] == t[s := Filled(t[s], key, value)];
        return Ok(());
      }
      if table[s].cell == key {
        OverwriteSets(t, rank, bound, key, value);
        table[s] := table[s].(mapped := value);
        assert table[..] == t[s := t[s].(mapped := value)];
        return Ok(());
      }
      var offset := FindEmptyOffset(s);
      if offset.None? {
        FailedSets(t, rank, bound, key, value, s);
        table[s] := table[s].(link := MaxLink);
        assert table[..] == t[s := t[s].(link := MaxLink)];
        return Err(NoEmptyCell);
      }
      assert !OffsetOccupied(table[..], s, offset.value);
      LinkSlot(key, value, s, offset.value);
      r := Ok(());
    }

    /**
     * RemoveKey. A key that is absent leaves the table unchanged; otherwise
     * its slot is emptied or, when other handles are linked after it, each
     * of them moves one link back and the last slot is emptied.
     */
    method RemoveKey(key: GridCell)
      requires Valid() && hashTableSize > 0
      modifies table
      ensures Valid()
      ensures table[..] == RemoveSpec(old(table[..]), rank, bound, key)
    {
      ghost var t := table[..];
      RemoveChained(t, rank, bound, key);
      var s := FindSlot(key);
      if !table[s].hasValue || table[s].cell != key {
        return;
      }
      if !table[s].collision {
        table[s] := table[s].(hasValue := false);
        return;
      }
      ShiftStepChained(t, rank, bound, s);
      var cur := s;
      var rep := MoveBack(s);
      while table[rep].collision
        invariant Copied(table[..], rank, bound, cur, rep)
        invariant AfterCopy(table[..], rank, bound, cur, rep) == ShiftFrom(t, rank, bound, s)
        decreases bound - rank[rep]
      {
        ShiftAdvance(table[..], rank, bound, cur, rep);
        var next := MoveBack(rep);
        cur, rep := rep, next;
      }
      table[rep] := table[rep].(hasValue := false);
    }

    /**
     * One copy of RemoveKey's shift: the handle `cur` links to is copied
     * into `cur`, which keeps its link; the slot copied from is returned.
     */
    method MoveBack(cur: nat) returns (rep: nat)
      requires cur < table.Length == hashTableSize
      modifies table
      ensures rep == Next(old(table[..]), cur)
      ensures table[..] == ShiftStep(old(table[..]), cur)
    {
      rep := (cur + table[cur].link) % hashTableSize;
      table[cur] := table[rep].(link := table[cur].link);
    }

    /** begin(): the first occupied slot, or the table size when there is none. */
    method Begin() returns (i: nat)
      requires Valid()
      ensures i == NextOccupied(table[..], 0)
    {
      i := 0;
      while i < table.Length && !table[i].hasValue
        invariant i <= table.Length
        invariant NextOccupied(table[..], i) == NextOccupied(table[..], 0)
      {
        i := i + 1;
      }
    }

    /** The iterator's operator++: the next occupied slot after `i`, or the table size. */
    method Increment(i: nat) returns (r: nat)
      requires Valid() && i < hashTableSize
      ensures r == NextOccupied(table[..], i + 1)
    {
      r := i + 1;
      while r < table.Length && !table[r].hasValue
        invariant r <= table.Length
        invariant NextOccupied(table[..], r) == NextOccupied(table[..], i + 1)
      {
        r := r + 1;
      }
    }

    /**
     * The loop from begin() to end() over the table, collecting the cell
     * each position dereferences to: every occupied slot's cell, in slot order.
     */
    method Cells() returns (cells: seq<GridCell>)
      requires Valid()
      ensures cells == OccupiedCells(table[..], 0)
    {
      ghost var t := table[..];
      cells := [];
      var it := Begin();
      OccupiedCellsSkip(t, 0);
      while it != hashTableSize
        invariant it <= hashTableSize && (it < hashTableSize ==> t[it].hasValue)
        invariant cells + OccupiedCells(t, it) == OccupiedCells(t, 0)
        decreases hashTableSize - it
      {
        OccupiedCellsStep(t, it);
        ghost var rest := OccupiedCells(t, NextOccupied(t, it + 1));
        assert cells + OccupiedCells(t, it) == (cells + [t[it].cell]) + rest;
        cells := cells + [table[it].cell];
        it := Increment(it);
      }
    }

    /** The end of SetValueByKey after a new collision: the key goes `i` slots past `s`, linked from `s`. */
    method LinkSlot(key: GridCell, value: nat, s: nat, i: nat)
      requires Valid() && hashTableSize > 0 && 0 < i < LinkLimit
      requires s == Stop(table[..], rank, bound, CalculateHashValue(key, hashTableSize), key)
      requires table[s].hasValue && table[s].cell != key && !OffsetOccupied(table[..], s, i)
      modifies this, table
      ensures Valid()
      ensures table[..] == Linked(old(table[..]), s, i, key, value)
      ensures UpdatedBySet(old(table[..]), old(rank), old(bound), table[..], rank, bound, key, value, true)
    {
      ghost var t := table[..];
      var j := (s + i) % hashTableSize;
      ghost var rank', bound' := rank[j := bound], bound + 1;
      LinkedSets(t, rank, bound, s, i, key, value, rank', bound');
      table[j] := Filled(table[j], key, value);
      table[s] := table[s].(collision := true, link := i);
      assert table[..] == Linked(t, s, i, key, value);
      rank, bound := rank', bound';
    }
  }
}
