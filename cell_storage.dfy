/**
 * The cell storage of the compact-hashing neighborhood search
 * (src/core/fluidSolver/neighborhoodSearch/CompactHashingNeighborhoodSearch.cpp,
 * class CellStorage). A growable vector is cut into storage sections; each
 * section is a header followed by `capacity` particle slots. The header keeps
 * how many slots are used, a relative link to an overflow section further on
 * (0 for none) and the grid cell. The particles of a grid cell are the used
 * slots along its chain of linked sections.
 *
 * The flat vector is a sequence of sections here: section s, which starts at
 * index s * (capacity + 1) in the source, is the header fields plus its slot
 * sequence.
 */
module CellStorage {
  import opened Wrappers
  import opened CompactHashTable

  /** GridCellParticleHandle as stored in a slot: a particle index and its cell. */
  datatype ParticleHandle = ParticleHandle(particle: nat, cell: GridCell)

  /** A section header (count, relativeLink, particleGridCell) and its slots. */
  datatype Section = Section(count: nat, link: nat, cell: GridCell, slots: seq<ParticleHandle>)

  /**
   * One more than the largest particleAmount_t. The compact-hashing headers
   * use the type without defining it; the other neighborhood searches of
   * the repository define it as uint16_t, and so does this model.
   */
  const Two16: nat := 0x1_0000

  /** The value a default-constructed handle holds. */
  const DefaultHandle := ParticleHandle(0, GridCell(0, 0))

  /** A section appended by growing the vector: every entry is the reset handle. */
  function EmptySection(capacity: nat): (r: Section)
    ensures r.count == 0 && r.link == 0 && |r.slots| == capacity
  {
    Section(0, 0, GridCell(0, 0), seq(capacity, _ => DefaultHandle))
  }

  /** Counts fit the slots and links lead to a later section. */
  ghost predicate Shaped(secs: seq<Section>) {
    forall s :: 0 <= s < |secs| ==>
      secs[s].count <= |secs[s].slots| && (secs[s].link != 0 ==> s + secs[s].link < |secs|)
  }

  /**
   * The storage invariant: every section has `capacity` slots, and a section
   * links on only once it is full. The capacity lies between 1 and 254: the
   * section size `capacity + 1` is an 8-bit value in the source.
   */
  ghost predicate WellFormed(secs: seq<Section>, capacity: nat) {
    && 0 < capacity < 255
    && Shaped(secs)
    && forall s :: 0 <= s < |secs| ==>
         |secs[s].slots| == capacity && (secs[s].link != 0 ==> secs[s].count == capacity)
  }

  /** The particles of the chain that starts at section s, in order. */
  ghost function Chain(secs: seq<Section>, s: nat): seq<ParticleHandle>
    requires Shaped(secs) && s < |secs|
    decreases |secs| - s
  {
    secs[s].slots[..secs[s].count] +
    (if secs[s].link != 0 then Chain(secs, s + secs[s].link) else [])
  }

  /**
   * GetStorageSectionElementCount: the counts along the chain, added up
   * recursively and returned as a 16-bit value.
   */
  function ElementCount(secs: seq<Section>, s: nat): (r: nat)
    requires Shaped(secs) && s < |secs|
    ensures r == |Chain(secs, s)| % Two16
    decreases |secs| - s
  {
    if secs[s].link != 0 then
      var rest := ElementCount(secs, s + secs[s].link);
      ModAdd(secs[s].count, |Chain(secs, s + secs[s].link)|, rest);
      (secs[s].count + rest) % Two16
    else
      secs[s].count % Two16
  }

  lemma ModAdd(c: nat, total: nat, rest: nat)
    requires rest == total % Two16
    ensures (c + rest) % Two16 == (c + total) % Two16
  {
    assert total == total / Two16 * Two16 + rest;
  }

  /** The last section of the chain that starts at s: the first one without a link. */
  function ChainEnd(secs: seq<Section>, s: nat): (e: nat)
    requires Shaped(secs) && s < |secs|
    ensures s <= e < |secs| && secs[e].link == 0
    ensures secs[s].link == 0 ==> e == s
    decreases |secs| - s
  {
    if secs[s].link != 0 then ChainEnd(secs, s + secs[s].link) else s
  }

  /** The chain ends with the used slots of its last section. */
  lemma {:induction false} ChainEndsWithEnd(secs: seq<Section>, s: nat)
    requires Shaped(secs) && s < |secs|
    ensures var e := ChainEnd(secs, s);
      |Chain(secs, s)| >= secs[e].count &&
      Chain(secs, s)[|Chain(secs, s)| - secs[e].count..] == secs[e].slots[..secs[e].count]
    decreases |secs| - s
  {
    if secs[s].link != 0 {
      ChainEndsWithEnd(secs, s + secs[s].link);
    }
  }

  /** The first section from `min` on whose count is 0, if any. */
  function FirstEmptySection(secs: seq<Section>, min: nat): (r: Option<nat>)
    ensures r.Some? ==> min <= r.value < |secs| && secs[r.value].count == 0
    ensures r.Some? ==> forall k :: min <= k < r.value ==> secs[k].count != 0
    ensures r.None? ==> forall k :: min <= k < |secs| ==> secs[k].count != 0
    decreases |secs| - min
  {
    if min >= |secs| then None
    else if secs[min].count == 0 then Some(min)
    else FirstEmptySection(secs, min + 1)
  }

  /**
   * GetEmptyStorageSection(min) as a value: the first empty section from
   * `min` on, or a new reset section appended at the end.
   */
  function NewSection(secs: seq<Section>, capacity: nat, min: nat): (r: (seq<Section>, nat))
    ensures r.1 < |r.0| && r.0[r.1].count == 0
    ensures min <= |secs| ==> min <= r.1
    ensures r.0 == secs || (r.0 == secs + [EmptySection(capacity)] && r.1 == |secs|)
  {
    match FirstEmptySection(secs, min)
    case Some(i) => (secs, i)
    case None => (secs + [EmptySection(capacity)], |secs|)
  }

  /** Put a handle into the next free slot of section s. */
  function Fill(secs: seq<Section>, s: nat, h: ParticleHandle): (r: seq<Section>)
    requires s < |secs| && secs[s].count < |secs[s].slots|
    ensures |r| == |secs|
  {
    secs[s := secs[s].(slots := secs[s].slots[secs[s].count := h], count := secs[s].count + 1)]
  }

  /**
   * AddParticleToStorageSection, with the overflow link written: a full
   * section passes the particle on along its link; the last full section
   * of the chain gets a new empty section after it and links to it.
   */
  ghost function AddSpec(secs: seq<Section>, capacity: nat, s: nat, h: ParticleHandle): (r: seq<Section>)
    requires WellFormed(secs, capacity) && s < |secs|
    ensures |r| >= |secs|
    ensures forall k :: 0 <= k < s ==> r[k] == secs[k]
    decreases |secs| - s
  {
    if secs[s].count < capacity then Fill(secs, s, h)
    else if secs[s].link != 0 then AddSpec(secs, capacity, s + secs[s].link, h)
    else
      var (g, n) := NewSection(secs, capacity, s + 1);
      var g1 := g[n := g[n].(cell := h.cell)];
      Fill(g1[s := g1[s].(link := n - s)], n, h)
  }

  /**
   * AddParticleToStorageSection as written: in the overflow case the new
   * section is filled but the full section's link is never set.
   */
  ghost function AddAsWritten(secs: seq<Section>, capacity: nat, s: nat, h: ParticleHandle): (r: seq<Section>)
    requires WellFormed(secs, capacity) && s < |secs|
    ensures |r| >= |secs|
    decreases |secs| - s
  {
    if secs[s].count < capacity then Fill(secs, s, h)
    else if secs[s].link != 0 then AddAsWritten(secs, capacity, s + secs[s].link, h)
    else
      var (g, n) := NewSection(secs, capacity, s + 1);
      Fill(g[n := g[n].(cell := h.cell)], n, h)
  }

  /** Filling a slot of a section that is not full keeps the storage well formed. */
  lemma FillWellFormed(secs: seq<Section>, capacity: nat, s: nat, h: ParticleHandle)
    requires WellFormed(secs, capacity) && s < |secs| && secs[s].count < capacity
    ensures WellFormed(Fill(secs, s, h), capacity)
  {
  }

  /** The overflow step: a new section, linked from the full section s, takes the particle. */
  lemma LinkNewWellFormed(secs: seq<Section>, capacity: nat, s: nat, h: ParticleHandle)
    requires WellFormed(secs, capacity) && s < |secs|
    requires secs[s].count == capacity && secs[s].link == 0
    ensures WellFormed(AddSpec(secs, capacity, s, h), capacity)
  {
    var (g, n) := NewSection(secs, capacity, s + 1);
    var g1 := g[n := g[n].(cell := h.cell)];
    var g2 := g1[s := g1[s].(link := n - s)];
    assert WellFormed(g, capacity);
    assert WellFormed(g2, capacity);
    FillWellFormed(g2, capacity, n, h);
  }

  lemma {:induction false} AddWellFormed(secs: seq<Section>, capacity: nat, s: nat, h: ParticleHandle)
    requires WellFormed(secs, capacity) && s < |secs|
    ensures WellFormed(AddSpec(secs, capacity, s, h), capacity)
    decreases |secs| - s
  {
    if secs[s].count < capacity {
      FillWellFormed(secs, capacity, s, h);
    } else if secs[s].link != 0 {
      AddWellFormed(secs, capacity, s + secs[s].link, h);
    } else {
      LinkNewWellFormed(secs, capacity, s, h);
    }
  }

  /** A particle put into a section that is not full ends its chain. */
  lemma AppendHere(secs: seq<Section>, capacity: nat, s: nat, h: ParticleHandle)
    requires WellFormed(secs, capacity) && s < |secs| && secs[s].count < capacity
    ensures Shaped(Fill(secs, s, h))
    ensures Chain(Fill(secs, s, h), s) == Chain(secs, s) + [h]
  {
    var r := Fill(secs, s, h);
    FillWellFormed(secs, capacity, s, h);
    var c := secs[s].count;
    assert r[s].link == 0 && secs[s].link == 0;
    assert r[s].slots[..c + 1] == secs[s].slots[..c] + [h];
  }

  /** A particle put into a new section linked from the last, full one ends the chain. */
  lemma AppendNew(secs: seq<Section>, capacity: nat, s: nat, h: ParticleHandle)
    requires WellFormed(secs, capacity) && s < |secs|
    requires secs[s].count == capacity && secs[s].link == 0
    ensures Shaped(AddSpec(secs, capacity, s, h))
    ensures Chain(AddSpec(secs, capacity, s, h), s) == Chain(secs, s) + [h]
  {
    var r := AddSpec(secs, capacity, s, h);
    LinkNewWellFormed(secs, capacity, s, h);
    var c := secs[s].count;
    var (g, n) := NewSection(secs, capacity, s + 1);
    assert g[n].link == 0;
    assert r[n].slots[..1] == [h];
    assert Chain(r, n) == [h];
    assert r[s].slots == secs[s].slots && r[s].count == c && r[s].link == n - s;
    assert Chain(r, s) == secs[s].slots[..c] + Chain(r, n);
  }

  /**
   * Adding a particle appends it to the chain it is added to.
   */
  lemma {:induction false} AddAppends(secs: seq<Section>, capacity: nat, s: nat, h: ParticleHandle)
    requires WellFormed(secs, capacity) && s < |secs|
    ensures WellFormed(AddSpec(secs, capacity, s, h), capacity)
    ensures Chain(AddSpec(secs, capacity, s, h), s) == Chain(secs, s) + [h]
    decreases |secs| - s
  {
    AddWellFormed(secs, capacity, s, h);
    if secs[s].count < capacity {
      AppendHere(secs, capacity, s, h);
    } else if secs[s].link != 0 {
      var next := s + secs[s].link;
      var r := AddSpec(secs, capacity, next, h);
      assert AddSpec(secs, capacity, s, h) == r;
      AddAppends(secs, capacity, next, h);
      ChainLinked(r, s, secs[s], next);
      ChainLinked(secs, s, secs[s], next);
    } else {
      AppendNew(secs, capacity, s, h);
    }
  }

  /** A chain through a linked section: its used slots, then the chain it links to. */
  lemma ChainLinked(secs: seq<Section>, s: nat, sec: Section, next: nat)
    requires Shaped(secs) && s < |secs| && secs[s] == sec && sec.link != 0 && next == s + sec.link
    ensures next < |secs| && Chain(secs, s) == sec.slots[..sec.count] + Chain(secs, next)
  {
  }

  lemma ModSucc(total: nat)
    ensures (total + 1) % Two16 == (total % Two16 + 1) % Two16
  {
    ModAdd(1, total, total % Two16);
  }

  /** Adding a particle adds one to the chain's element count, modulo 2^16. */
  lemma AddCounts(secs: seq<Section>, capacity: nat, s: nat, h: ParticleHandle)
    requires WellFormed(secs, capacity) && s < |secs|
    ensures WellFormed(AddSpec(secs, capacity, s, h), capacity)
    ensures ElementCount(AddSpec(secs, capacity, s, h), s) == (ElementCount(secs, s) + 1) % Two16
  {
    AddAppends(secs, capacity, s, h);
    var after := AddSpec(secs, capacity, s, h);
    var total := |Chain(secs, s)|;
    assert |Chain(after, s)| == total + 1;
    assert ElementCount(after, s) == (total + 1) % Two16;
    assert ElementCount(secs, s) == total % Two16;
    ModSucc(total);
  }

  /** A fresh storage with one section; the particles of the example. */
  function OneSection(): seq<Section> {
    [EmptySection(1)]
  }

  const First := ParticleHandle(1, GridCell(0, 0))
  const Second := ParticleHandle(2, GridCell(0, 0))

  /**
   * With one slot per section, the second particle added to a cell goes to a
   * new section that the cell's section does not link to: the chain keeps
   * only the first particle and the count says 1.
   */
  lemma AddAsWrittenLosesParticle()
    ensures var a := AddAsWritten(AddAsWritten(OneSection(), 1, 0, First), 1, 0, Second);
      Shaped(a) && Chain(a, 0) == [First] && ElementCount(a, 0) == 1
  {
    var e := EmptySection(1);
    assert e.slots[0 := First] == [First] && e.slots[0 := Second] == [Second];
    assert WellFormed(OneSection(), 1);
    var a1 := AddAsWritten(OneSection(), 1, 0, First);
    assert a1 == [Section(1, 0, GridCell(0, 0), [First])];
    assert WellFormed(a1, 1);
    var a2 := AddAsWritten(a1, 1, 0, Second);
    assert FirstEmptySection(a1, 1) == None;
    assert NewSection(a1, 1, 1) == (a1 + [e], 1);
    assert a2 == a1 + [Section(1, 0, GridCell(0, 0), [Second])];
    assert Chain(a2, 0) == [First];
  }

  /** The same two additions with the link written keep both particles. */
  lemma AddKeepsBothParticles()
    ensures var a := AddSpec(AddSpec(OneSection(), 1, 0, First), 1, 0, Second);
      Shaped(a) && Chain(a, 0) == [First, Second] && ElementCount(a, 0) == 2
  {
    var a0 := OneSection();
    assert WellFormed(a0, 1);
    AddAppends(a0, 1, 0, First);
    var a1 := AddSpec(a0, 1, 0, First);
    AddAppends(a1, 1, 0, Second);
    assert Chain(a0, 0) == [];
  }

  /** ClearStorage's reset of one header: no particles, no link, the default cell. */
  function Cleared(sec: Section): (r: Section)
    ensures r.count == 0 && r.link == 0 && r.slots == sec.slots
  {
    sec.(count := 0, link := 0, cell := GridCell(0, 0))
  }

  /** After ClearStorage every chain is empty and the storage stays well formed. */
  lemma ClearEmptiesChains(secs: seq<Section>, capacity: nat, cleared: seq<Section>)
    requires WellFormed(secs, capacity)
    requires |cleared| == |secs| && forall k :: 0 <= k < |secs| ==> cleared[k] == Cleared(secs[k])
    ensures WellFormed(cleared, capacity)
    ensures forall s :: 0 <= s < |cleared| ==> Chain(cleared, s) == [] && ElementCount(cleared, s) == 0
  {
  }

  /** The particles in a sequence of handles other than `p`, in order. */
  function Without(xs: seq<ParticleHandle>, p: nat): seq<ParticleHandle>
  {
    if xs == [] then []
    else Without(xs[..|xs| - 1], p) + (if xs[|xs| - 1].particle == p then [] else [xs[|xs| - 1]])
  }

  /**
   * One step of RemoveParticleFromStorageSectionInternal's loop on a section
   * without a link, at slot k: a match in the last used slot is dropped by
   * lowering the count; a match elsewhere is overwritten by the last used
   * handle (ExtractLastOne on the same section), which lowers the count too.
   */
  function RemoveStep(slots: seq<ParticleHandle>, count: nat, p: nat, k: nat): (r: (seq<ParticleHandle>, nat))
    requires k < count <= |slots|
    ensures |r.0| == |slots| && k <= r.1 <= count
  {
    if slots[k].particle != p then (slots, count)
    else if k + 1 == count then (slots, count - 1)
    else (slots[k := slots[count - 1]], count - 1)
  }

  /** The loop from slot k - 1 down to slot 0. */
  function RemoveFrom(slots: seq<ParticleHandle>, count: nat, p: nat, k: nat): (r: (seq<ParticleHandle>, nat))
    requires k <= count <= |slots|
    ensures |r.0| == |slots| && r.1 <= count
    decreases k
  {
    if k == 0 then (slots, count)
    else
      var (slots', count') := RemoveStep(slots, count, p, k - 1);
      RemoveFrom(slots', count', p, k - 1)
  }

  /** The whole removal on one section. */
  function RemovedFrom(sec: Section, p: nat): (r: Section)
    requires sec.count <= |sec.slots|
  {
    var (slots, count) := RemoveFrom(sec.slots, sec.count, p, sec.count);
    sec.(slots := slots, count := count)
  }

  /** A handle as Without keeps it: none when it holds `p`, else itself. */
  function Kept(h: ParticleHandle, p: nat): (r: seq<ParticleHandle>)
    ensures r == [] <==> h.particle == p
  {
    if h.particle == p then [] else [h]
  }

  lemma WithoutLast(xs: seq<ParticleHandle>, k: nat, p: nat)
    requires 0 < k <= |xs|
    ensures Without(xs[..k], p) == Without(xs[..k - 1], p) + Kept(xs[k - 1], p)
  {
    assert xs[..k][..k - 1] == xs[..k - 1];
  }

  /** A step at slot k - 1 leaves no `p` from slot k - 1 up to the new count. */
  lemma StepNoMatch(slots: seq<ParticleHandle>, count: nat, p: nat, k: nat)
    requires 0 < k <= count <= |slots|
    requires forall j :: k <= j < count ==> slots[j].particle != p
    ensures var r := RemoveStep(slots, count, p, k - 1);
      forall j :: k - 1 <= j < r.1 ==> r.0[j].particle != p
  {
    if slots[k - 1].particle == p && k < count {
      var s1 := slots[k - 1 := slots[count - 1]];
      assert s1[k - 1] == slots[count - 1];
    }
  }

  /**
   * A step at slot k - 1 leaves the slots before it alone, and the used
   * slots from k - 1 on become those from k on and the one at k - 1 unless
   * it holds `p`.
   */
  lemma StepSlots(slots: seq<ParticleHandle>, count: nat, p: nat, k: nat)
    requires 0 < k <= count <= |slots|
    ensures var r := RemoveStep(slots, count, p, k - 1);
      && r.0[..k - 1] == slots[..k - 1]
      && multiset(r.0[k - 1..r.1]) == multiset(Kept(slots[k - 1], p)) + multiset(slots[k..count])
  {
    if slots[k - 1].particle != p {
      assert slots[k - 1..count] == [slots[k - 1]] + slots[k..count];
    } else if k == count {
      assert slots[k - 1..k - 1] == [] && slots[k..count] == [];
    } else {
      var s1 := slots[k - 1 := slots[count - 1]];
      assert s1[..k - 1] == slots[..k - 1];
      MiddleKeeps(slots, count, k, s1);
    }
  }

  /** The step that overwrites slot k - 1, which holds the particle, with the last used handle. */
  lemma MiddleKeeps(slots: seq<ParticleHandle>, count: nat, k: nat, s1: seq<ParticleHandle>)
    requires 0 < k < count <= |slots| && s1 == slots[k - 1 := slots[count - 1]]
    ensures multiset(s1[k - 1..count - 1]) == multiset(slots[k..count])
  {
    assert s1[k - 1..count - 1] == [slots[count - 1]] + slots[k..count - 1];
    assert slots[k..count] == slots[k..count - 1] + [slots[count - 1]];
  }

  /**
   * The loop's invariant: slots k..count hold no `p`; then the loop leaves
   * no `p` among the used slots, and the used slots are the earlier ones
   * without `p` plus the later ones, in some order.
   */
  lemma {:induction false} RemoveFromKeeps(slots: seq<ParticleHandle>, count: nat, p: nat, k: nat)
    requires k <= count <= |slots|
    requires forall j :: k <= j < count ==> slots[j].particle != p
    decreases k
    ensures var (r, c) := RemoveFrom(slots, count, p, k);
      && (forall j :: 0 <= j < c ==> r[j].particle != p)
      && multiset(r[..c]) == multiset(Without(slots[..k], p)) + multiset(slots[k..count])
  {
    if k > 0 {
      var r := RemoveStep(slots, count, p, k - 1);
      StepNoMatch(slots, count, p, k);
      StepSlots(slots, count, p, k);
      WithoutLast(slots, k, p);
      RemoveFromKeeps(r.0, r.1, p, k - 1);
    } else {
      assert slots[..0] == [];
      assert slots[0..count] == slots[..count];
    }
  }

  /**
   * Removing a particle from a section without a link deletes every handle
   * of that particle and keeps every other handle.
   */
  lemma RemoveDeletesAll(sec: Section, p: nat)
    requires sec.count <= |sec.slots|
    ensures var r := RemovedFrom(sec, p);
      && r.count <= sec.count && |r.slots| == |sec.slots|
      && (forall j :: 0 <= j < r.count ==> r.slots[j].particle != p)
      && multiset(r.slots[..r.count]) == multiset(Without(sec.slots[..sec.count], p))
  {
    RemoveFromKeeps(sec.slots, sec.count, p, sec.count);
    assert sec.slots[sec.count..sec.count] == [];
  }

  /** Removing a particle that is not in the section changes nothing. */
  lemma {:induction false} RemoveAbsent(slots: seq<ParticleHandle>, count: nat, p: nat, k: nat)
    requires k <= count <= |slots|
    requires forall j :: 0 <= j < k ==> slots[j].particle != p
    ensures RemoveFrom(slots, count, p, k) == (slots, count)
  {
    if k > 0 {
      RemoveAbsent(slots, count, p, k - 1);
    }
  }

  /**
   * GetStorageSectionDataEnd as written: `header` is a reference to the
   * first section's header, so each step of the walk copies the next
   * header over it. The result is the end position and the changed storage.
   */
  function DataEndAsWritten(secs: seq<Section>, s: nat): (r: (nat, nat, seq<Section>))
    requires Shaped(secs) && s < |secs|
  {
    var e := ChainEnd(secs, s);
    if e == s then (e, secs[e].count, secs)
    else (e, secs[e].count, secs[s := secs[s].(count := secs[e].count, link := 0, cell := secs[e].cell)])
  }

  function TwoLinked(): seq<Section> {
    [Section(1, 1, GridCell(0, 0), [First]), Section(1, 0, GridCell(0, 0), [Second])]
  }

  /**
   * On a chain of two one-slot sections, finding the end as written turns
   * the first header into a copy of the last: the link is gone and the
   * chain loses its second particle.
   */
  lemma DataEndCutsChain()
    ensures Shaped(TwoLinked()) && Chain(TwoLinked(), 0) == [First, Second]
    ensures var (e, c, after) := DataEndAsWritten(TwoLinked(), 0);
      e == 1 && c == 1 && Shaped(after) && Chain(after, 0) == [First]
  {
    var t := TwoLinked();
    assert ChainEnd(t, 0) == 1;
    assert Chain(t, 1) == [Second];
  }

  /** Where the iterator's ++ moves from slot `elem` of section `sec`. */
  function Increment(secs: seq<Section>, sec: nat, elem: nat): (r: (nat, nat))
    requires sec < |secs|
  {
    if elem + 1 >= secs[sec].count && secs[sec].link != 0 then (sec + secs[sec].link, 0)
    else (sec, elem + 1)
  }

  /** What an iterator at slot `elem` of section `sec` has still to visit. */
  ghost function Rest(secs: seq<Section>, sec: nat, elem: nat): seq<ParticleHandle>
    requires Shaped(secs) && sec < |secs| && elem <= secs[sec].count
  {
    secs[sec].slots[elem..secs[sec].count] +
    (if secs[sec].link != 0 then Chain(secs, sec + secs[sec].link) else [])
  }

  /** An iterator at the first slot of a section has its whole chain to visit. */
  lemma RestAtStart(secs: seq<Section>, sec: nat)
    requires Shaped(secs) && sec < |secs|
    ensures Rest(secs, sec, 0) == Chain(secs, sec)
  {
    assert secs[sec].slots[0..secs[sec].count] == secs[sec].slots[..secs[sec].count];
  }

  /** An iterator that has not reached the end of its chain is on a used slot. */
  lemma NotAtEnd(secs: seq<Section>, sec: nat, elem: nat, endSection: nat)
    requires Shaped(secs) && sec < |secs| && elem <= secs[sec].count
    requires elem == secs[sec].count ==> secs[sec].link == 0
    requires ChainEnd(secs, sec) == endSection
    requires sec != endSection || elem != secs[endSection].count
    ensures elem < secs[sec].count
  {
  }

  /** One step of the iterator visits the handle it was on. */
  lemma IncrementVisits(secs: seq<Section>, capacity: nat, sec: nat, elem: nat)
    requires WellFormed(secs, capacity) && sec < |secs| && elem < secs[sec].count
    ensures var n := Increment(secs, sec, elem);
      && n.0 < |secs| && n.1 <= secs[n.0].count
      && (n.1 == secs[n.0].count ==> secs[n.0].link == 0)
      && ChainEnd(secs, n.0) == ChainEnd(secs, sec)
      && Rest(secs, sec, elem) == [secs[sec].slots[elem]] + Rest(secs, n.0, n.1)
  {
    if elem + 1 >= secs[sec].count && secs[sec].link != 0 {
      RestJumps(secs, capacity, sec, elem);
    } else {
      RestStays(secs, sec, elem);
    }
  }

  /** The iterator on the last used slot of a linked section moves to the start of the next one. */
  lemma RestJumps(secs: seq<Section>, capacity: nat, sec: nat, elem: nat)
    requires WellFormed(secs, capacity) && sec < |secs| && elem + 1 == secs[sec].count && secs[sec].link != 0
    ensures var next := sec + secs[sec].link;
      && next < |secs| && (secs[next].count == 0 ==> secs[next].link == 0)
      && ChainEnd(secs, next) == ChainEnd(secs, sec)
      && Rest(secs, sec, elem) == [secs[sec].slots[elem]] + Rest(secs, next, 0)
  {
    var sl := secs[sec].slots;
    var next := sec + secs[sec].link;
    RestAtStart(secs, next);
    assert sl[elem..elem + 1] == [sl[elem]];
  }

  /** Elsewhere the iterator moves to the next slot of the same section. */
  lemma RestStays(secs: seq<Section>, sec: nat, elem: nat)
    requires Shaped(secs) && sec < |secs| && elem < secs[sec].count
    requires !(elem + 1 >= secs[sec].count && secs[sec].link != 0)
    ensures elem + 1 == secs[sec].count ==> secs[sec].link == 0
    ensures Rest(secs, sec, elem) == [secs[sec].slots[elem]] + Rest(secs, sec, elem + 1)
  {
    var sl := secs[sec].slots;
    var c := secs[sec].count;
    assert sl[elem..c] == [sl[elem]] + sl[elem + 1..c];
  }

  class Storage {
    /** oneSectionParticleSize */
    const capacity: nat
    var sections: seq<Section>

    ghost predicate Valid()
      reads this
    {
      WellFormed(sections, capacity)
    }

    /** A storage with no sections yet. */
    constructor (capacity: nat)
      requires 0 < capacity < 255
      ensures Valid() && this.capacity == capacity && sections == []
    {
      this.capacity := capacity;
      sections := [];
    }

    /** ClearStorage: every header is reset; the slots keep their old contents. */
    method ClearStorage()
      requires Valid()
      modifies this
      ensures Valid()
      ensures |sections| == |old(sections)|
      ensures forall k :: 0 <= k < |sections| ==> sections[k] == Cleared(old(sections)[k])
    {
      ghost var before := sections;
      var i := 0;
      while i < |sections|
        invariant 0 <= i <= |sections| == |before|
        invariant forall k :: 0 <= k < i ==> sections[k] == Cleared(before[k])
        invariant forall k :: i <= k < |sections| ==> sections[k] == before[k]
      {
        sections := sections[i := Cleared(sections[i])];
        i := i + 1;
      }
      ClearEmptiesChains(before, capacity, sections);
    }

    /**
     * GetEmptyStorageSection(min): the first section from `min` on whose
     * count is 0; when there is none the vector grows by one reset section.
     * GetEmptyStorageSection() is the same with `min` = 0.
     */
    method GetEmptySection(min: nat) returns (r: nat)
      requires Valid()
      modifies this
      ensures Valid()
      ensures (sections, r) == NewSection(old(sections), capacity, min)
    {
      var i := min;
      while i < |sections|
        invariant min <= i
        invariant FirstEmptySection(sections, min) == FirstEmptySection(sections, i)
        decreases |sections| - i
      {
        if sections[i].count == 0 {
          return i;
        }
        i := i + 1;
      }
      r := |sections|;
      sections := sections + [EmptySection(capacity)];
    }

    /**
     * AddParticleToStorageSection, the overflow link written: the chain is
     * followed to its last section; if that one is full, a new empty section
     * after it takes the particle and is linked.
     */
    method AddParticle(s: nat, particle: nat, cell: GridCell)
      requires Valid() && s < |sections|
      modifies this
      ensures Valid()
      ensures sections == AddSpec(old(sections), capacity, s, ParticleHandle(particle, cell))
    {
      var h := ParticleHandle(particle, cell);
      AddWellFormed(sections, capacity, s, h);
      var cur := s;
      while sections[cur].count >= capacity && sections[cur].link != 0
        invariant cur < |sections|
        invariant AddSpec(sections, capacity, cur, h) == AddSpec(old(sections), capacity, s, h)
        decreases |sections| - cur
      {
        cur := cur + sections[cur].link;
      }
      AddToLast(cur, h);
    }

    /** The last step of AddParticle, at a section that is not full or has no link. */
    method AddToLast(cur: nat, h: ParticleHandle)
      requires Valid() && cur < |sections|
      requires sections[cur].count < capacity || sections[cur].link == 0
      modifies this
      ensures sections == AddSpec(old(sections), capacity, cur, h)
    {
      if sections[cur].count < capacity {
        sections := Fill(sections, cur, h);
      } else {
        ghost var before := sections;
        var n := GetEmptySection(cur + 1);
        assert (sections, n) == NewSection(before, capacity, cur + 1);
        sections := sections[n := sections[n].(cell := h.cell)];
        sections := sections[cur := sections[cur].(link := n - cur)];
        sections := Fill(sections, n, h);
      }
    }

    /**
     * RemoveParticleFromStorageSection on a section without a link: the used
     * slots are scanned from the last to the first and each handle of the
     * particle is deleted.
     */
    method RemoveParticle(s: nat, particle: nat)
      requires Valid() && s < |sections| && sections[s].link == 0
      modifies this
      ensures Valid()
      ensures sections == old(sections)[s := RemovedFrom(old(sections)[s], particle)]
    {
      var sec := sections[s];
      var slots := sec.slots;
      var count: nat := sec.count;
      var i: nat := count;
      while i >= 1
        invariant i <= count <= |slots| == |sec.slots|
        invariant RemoveFrom(slots, count, particle, i) == RemoveFrom(sec.slots, sec.count, particle, sec.count)
        decreases i
      {
        if slots[i - 1].particle == particle {
          if i == count {
            count := count - 1;
          } else {
            slots := slots[i - 1 := slots[count - 1]];
            count := count - 1;
          }
        }
        i := i - 1;
      }
      sections := sections[s := sec.(slots := slots, count := count)];
    }

    /**
     * GetStorageSectionDataEnd without overwriting the first header: the end
     * iterator points behind the used slots of the chain's last section.
     */
    method DataEnd(s: nat) returns (endSection: nat, endElement: nat)
      requires Valid() && s < |sections|
      ensures endSection == ChainEnd(sections, s) && endElement == sections[endSection].count
    {
      endSection := s;
      while sections[endSection].link != 0
        invariant endSection < |sections|
        invariant ChainEnd(sections, endSection) == ChainEnd(sections, s)
        decreases |sections| - endSection
      {
        endSection := endSection + sections[endSection].link;
      }
      endElement := sections[endSection].count;
    }

    /**
     * Iterating from GetStorageSectionDataBegin to GetStorageSectionDataEnd
     * with ++ visits exactly the particles of the chain, in order.
     */
    method Particles(s: nat) returns (ps: seq<ParticleHandle>)
      requires Valid() && s < |sections|
      ensures ps == Chain(sections, s)
    {
      var endSection, endElement := DataEnd(s);
      var sec: nat, elem: nat := s, 0;
      ps := [];
      while sec != endSection || elem != endElement
        invariant sec < |sections| && elem <= sections[sec].count
        invariant elem == sections[sec].count ==> sections[sec].link == 0
        invariant ChainEnd(sections, sec) == endSection
        invariant ps + Rest(sections, sec, elem) == Chain(sections, s)
        decreases |sections| - sec, sections[sec].count - elem
      {
        NotAtEnd(sections, sec, elem, endSection);
        IncrementVisits(sections, capacity, sec, elem);
        var h := sections[sec].slots[elem];
        var next := Increment(sections, sec, elem);
        assert ps + [h] + Rest(sections, next.0, next.1) == Chain(sections, s);
        ps := ps + [h];
        sec, elem := next.0, next.1;
      }
      assert sections[sec].slots[elem..sections[sec].count] == [];
    }
  }
}
