/**
 * The component-wise particle collection
 * (src/libFluid/fluidSolver/ParticleCollection.hpp). Each component type
 * gets a numeric id the first time it is used; `data[id]` is that
 * component's array (None for a null pointer), and every registered type
 * contributes one resize, swap, delete and copy callback. `calls` lists the
 * type ids the callbacks were registered for, in registration order;
 * the four callback lists always grow together, so one list stands for all.
 *
 * Components are stored as values of one element type `E`; `blankOf(id)`
 * is the value a fresh element of component `id` gets (std::vector value
 * initialisation).
 */
module ParticleCollection {
  import opened Wrappers
  import Swaps

  /** The array `s` grown with blanks or cut to length `n` (std::vector::resize). */
  function ResizeSeq<E>(s: seq<E>, n: nat, blank: E): (r: seq<E>)
    ensures |r| == n
    ensures forall k :: 0 <= k < n ==> r[k] == if k < |s| then s[k] else blank
  {
    if n <= |s| then s[..n] else s + seq(n - |s|, _ => blank)
  }

  /** Resizing twice to the same length is resizing once. */
  lemma ResizeTwice<E>(s: seq<E>, n: nat, blank: E)
    ensures ResizeSeq(ResizeSeq(s, n, blank), n, blank) == ResizeSeq(s, n, blank)
  {
    var r := ResizeSeq(s, n, blank);
    assert ResizeSeq(r, n, blank) == r by {
      assert forall k :: 0 <= k < n ==> ResizeSeq(r, n, blank)[k] == r[k];
    }
  }

  predicate Present<E>(data: seq<Option<seq<E>>>, id: nat) {
    id < |data| && data[id].Some?
  }

  /** Every registered id names a present component. */
  predicate CallsPresent<E>(data: seq<Option<seq<E>>>, calls: seq<nat>) {
    forall k :: 0 <= k < |calls| ==> Present(data, calls[k])
  }

  lemma CallsPresentPrefix<E>(data: seq<Option<seq<E>>>, calls: seq<nat>, k: nat)
    requires CallsPresent(data, calls) && k <= |calls|
    ensures CallsPresent(data, calls[..k])
  {
    forall a | 0 <= a < k ensures Present(data, calls[..k][a]) {
      assert calls[..k][a] == calls[a];
    }
  }

  /** Every present component has length `size`. */
  predicate AllSized<E>(data: seq<Option<seq<E>>>, size: nat) {
    forall id :: 0 <= id < |data| && data[id].Some? ==> |data[id].value| == size
  }

  /**
   * The collection invariant: callbacks exist exactly for the present
   * components, and every component has the collection's size.
   */
  predicate Consistent<E>(data: seq<Option<seq<E>>>, calls: seq<nat>, size: nat) {
    && CallsPresent(data, calls)
    && AllSized(data, size)
    && (forall id :: 0 <= id < |data| && data[id].Some? ==> id in calls)
  }

  /** How often `id` is registered. */
  function Count(calls: seq<nat>, id: nat): nat
  {
    if calls == [] then 0
    else Count(calls[..|calls| - 1], id) + (if calls[|calls| - 1] == id then 1 else 0)
  }

  predicate Distinct(calls: seq<nat>) {
    forall a, b :: 0 <= a < b < |calls| ==> calls[a] != calls[b]
  }

  /** Component `id`'s entry, None past the end of the table. */
  function At<E>(data: seq<Option<seq<E>>>, id: nat): Option<seq<E>> {
    if id < |data| then data[id] else None
  }

  /** The effect of running the swap callbacks `calls` in order. */
  function SwapAll<E>(data: seq<Option<seq<E>>>, calls: seq<nat>, size: nat, i: nat, j: nat): (r: seq<Option<seq<E>>>)
    requires CallsPresent(data, calls) && AllSized(data, size) && i < size && j < size
    ensures |r| == |data| && AllSized(r, size)
    ensures forall id :: 0 <= id < |r| ==> r[id].None? == data[id].None?
    decreases |calls|
  {
    if calls == [] then data
    else
      var init := calls[..|calls| - 1];
      assert CallsPresent(data, init) by {
        forall k | 0 <= k < |init| ensures Present(data, init[k]) {
          assert init[k] == calls[k];
        }
      }
      var d := SwapAll(data, init, size, i, j);
      var id := calls[|calls| - 1];
      assert Present(data, id);
      d[id := Some(Swaps.Swap(d[id].value, i, j))]
  }

  /** What the swap callbacks leave in component `id`, by how often it is registered. */
  function SwappedBy<E>(data: seq<Option<seq<E>>>, calls: seq<nat>, id: nat, i: nat, j: nat): Option<seq<E>>
    requires id < |data|
    requires data[id].Some? ==> i < |data[id].value| && j < |data[id].value|
  {
    if data[id].None? || Count(calls, id) % 2 == 0 then data[id] else Some(Swaps.Swap(data[id].value, i, j))
  }

  /**
   * The swap callbacks swap elements i and j of a component once for each
   * time it is registered: an odd count swaps, an even count leaves it as
   * it was, and unregistered components are untouched.
   */
  lemma {:induction false} SwapAllParity<E>(data: seq<Option<seq<E>>>, calls: seq<nat>, size: nat, i: nat, j: nat, id: nat)
    requires CallsPresent(data, calls) && AllSized(data, size) && i < size && j < size
    requires id < |data|
    ensures SwapAll(data, calls, size, i, j)[id] == SwappedBy(data, calls, id, i, j)
    decreases |calls|
  {
    if calls != [] {
      var init := calls[..|calls| - 1];
      var last := calls[|calls| - 1];
      CallsPresentPrefix(data, calls, |calls| - 1);
      SwapAllParity(data, init, size, i, j, id);
      var d := SwapAll(data, init, size, i, j);
      assert Present(data, last);
      assert SwapAll(data, calls, size, i, j) == d[last := Some(Swaps.Swap(d[last].value, i, j))];
      assert Count(calls, id) == Count(init, id) + (if last == id then 1 else 0);
      if id == last && Count(init, id) % 2 == 1 {
        Swaps.SwapTwice(data[id].value, i, j);
      }
    }
  }

  lemma {:induction false} DistinctCountsOnce(calls: seq<nat>, id: nat)
    requires Distinct(calls)
    ensures Count(calls, id) == if id in calls then 1 else 0
    decreases |calls|
  {
    if calls != [] {
      var init := calls[..|calls| - 1];
      assert calls == init + [calls[|calls| - 1]];
      DistinctCountsOnce(init, id);
    }
  }

  lemma {:induction false} CountAppend(a: seq<nat>, b: seq<nat>, id: nat)
    ensures Count(a + b, id) == Count(a, id) + Count(b, id)
    decreases |b|
  {
    if b == [] {
      assert a + b == a;
    } else {
      var init := b[..|b| - 1];
      assert (a + b)[..|a + b| - 1] == a + init;
      assert (a + b)[|a + b| - 1] == b[|b| - 1];
      CountAppend(a, init, id);
    }
  }

  /**
   * With every callback registered twice, as on a copied collection, the
   * swap callbacks cancel out: swap changes nothing.
   */
  lemma DoubleRegistrationCancels<E>(data: seq<Option<seq<E>>>, calls: seq<nat>, size: nat, i: nat, j: nat)
    requires CallsPresent(data, calls) && AllSized(data, size) && i < size && j < size
    ensures CallsPresent(data, calls + calls)
    ensures SwapAll(data, calls + calls, size, i, j) == data
  {
    assert CallsPresent(data, calls + calls) by {
      forall a | 0 <= a < |calls + calls| ensures Present(data, (calls + calls)[a]) {
        if a >= |calls| {
          assert (calls + calls)[a] == calls[a - |calls|];
        }
      }
    }
    var r := SwapAll(data, calls + calls, size, i, j);
    forall id | 0 <= id < |data| ensures r[id] == data[id] {
      SwapAllParity(data, calls + calls, size, i, j, id);
      CountAppend(calls, calls, id);
    }
  }

  /**
   * A collection with one component [1, 2]: registered once, swap(0, 1)
   * gives [2, 1]; registered twice, as the copy constructor leaves it,
   * swap(0, 1) leaves [1, 2].
   */
  lemma CopiedSwapCounterexample()
    ensures SwapAll([Some([1, 2])], [0], 2, 0, 1) == [Some([2, 1])]
    ensures SwapAll([Some([1, 2])], [0, 0], 2, 0, 1) == [Some([1, 2])]
  {
    var data: seq<Option<seq<int>>> := [Some([1, 2])];
    assert [0, 0][..1] == [0] && [0][..0] == [];
    assert SwapAll(data, [], 2, 0, 1) == data;
    assert Swaps.Swap([1, 2], 0, 1) == [2, 1];
    assert SwapAll(data, [0], 2, 0, 1) == data[0 := Some(Swaps.Swap([1, 2], 0, 1))];
    DoubleRegistrationCancels(data, [0], 2, 0, 1);
    assert [0] + [0] == [0, 0];
  }

  /** The effect of running the resize callbacks `calls` in order. */
  function ResizeAll<E>(data: seq<Option<seq<E>>>, calls: seq<nat>, n: nat, blankOf: nat -> E): (r: seq<Option<seq<E>>>)
    requires CallsPresent(data, calls)
    ensures |r| == |data|
    ensures forall id :: 0 <= id < |r| ==> r[id].None? == data[id].None?
    decreases |calls|
  {
    if calls == [] then data
    else
      var init := calls[..|calls| - 1];
      assert CallsPresent(data, init) by {
        forall k | 0 <= k < |init| ensures Present(data, init[k]) {
          assert init[k] == calls[k];
        }
      }
      var d := ResizeAll(data, init, n, blankOf);
      var id := calls[|calls| - 1];
      assert Present(data, id);
      d[id := Some(ResizeSeq(d[id].value, n, blankOf(id)))]
  }

  /**
   * Resizing is idempotent, so however often a component is registered,
   * after the resize callbacks every registered component has length n,
   * keeps its first elements and gets blanks after them.
   */
  lemma {:induction false} ResizeAllEffect<E>(data: seq<Option<seq<E>>>, calls: seq<nat>, n: nat, blankOf: nat -> E)
    requires CallsPresent(data, calls)
    ensures forall id :: 0 <= id < |data| ==>
      ResizeAll(data, calls, n, blankOf)[id] ==
        if id in calls then Some(ResizeSeq(data[id].value, n, blankOf(id))) else data[id]
    decreases |calls|
  {
    if calls != [] {
      var init := calls[..|calls| - 1];
      var last := calls[|calls| - 1];
      assert calls == init + [last];
      assert CallsPresent(data, init) by {
        forall k | 0 <= k < |init| ensures Present(data, init[k]) {
          assert init[k] == calls[k];
        }
      }
      ResizeAllEffect(data, init, n, blankOf);
      assert Present(data, last);
      var d := ResizeAll(data, init, n, blankOf);
      assert ResizeAll(data, calls, n, blankOf) == d[last := Some(ResizeSeq(d[last].value, n, blankOf(last)))];
      ResizeTwice(data[last].value, n, blankOf(last));
      forall id | 0 <= id < |data|
        ensures id in calls <==> id in init || id == last
      {
      }
    }
  }

  class ParticleCollection<E> {
    var internalSize: nat
    var data: seq<Option<seq<E>>>
    var calls: seq<nat>
    const blankOf: nat -> E

    ghost predicate Valid()
      reads this
    {
      Consistent(data, calls, internalSize)
    }

    /** The default constructor: no components, size 0. */
    constructor (blanks: nat -> E)
      ensures Valid() && Distinct(calls)
      ensures internalSize == 0 && data == [] && calls == [] && blankOf == blanks
    {
      internalSize := 0;
      data := [];
      calls := [];
      blankOf := blanks;
    }

    /** is_type_present */
    function IsTypePresent(typeId: nat): (r: bool)
      reads this
      ensures r <==> typeId < |data| && data[typeId].Some?
    {
      if |data| <= typeId then false
      else if data[typeId].None? then false
      else true
    }

    /** Every present component has the collection's length. */
    ghost predicate Sized()
      reads this
    {
      AllSized(data, internalSize)
    }

    /**
     * add_type: the id table grows with null entries up to `typeId`; a
     * missing component gets a blank array of the current size and its
     * callbacks; a present one is left alone.
     */
    method AddType(typeId: nat)
      requires Sized()
      modifies this
      ensures Sized()
      ensures old(Valid()) ==> Valid()
      ensures IsTypePresent(typeId) && internalSize == old(internalSize)
      ensures old(IsTypePresent(typeId)) ==> data == old(data) && calls == old(calls)
      ensures !old(IsTypePresent(typeId)) ==>
        && calls == old(calls) + [typeId]
        && data[typeId] == Some(seq(internalSize, _ => blankOf(typeId)))
      ensures |data| == if typeId < |old(data)| then |old(data)| else typeId + 1
      ensures forall id :: 0 <= id < |old(data)| && id != typeId ==> data[id] == old(data)[id]
      ensures forall id :: |old(data)| <= id < |data| && id != typeId ==> data[id] == None
      ensures Distinct(old(calls)) && old(Valid()) ==> Distinct(calls)
    {
      if |data| <= typeId {
        data := data + seq(typeId + 1 - |data|, _ => None);
      }
      if data[typeId] == None {
        data := data[typeId := Some(seq(internalSize, _ => blankOf(typeId)))];
        calls := calls + [typeId];
      }
    }

    /** The resize callbacks with the new size, one after the other. */
    method RunResizeCalls()
      requires CallsPresent(data, calls)
      modifies this
      ensures calls == old(calls) && internalSize == old(internalSize)
      ensures data == ResizeAll(old(data), calls, internalSize, blankOf)
    {
      var k := 0;
      while k < |calls|
        invariant 0 <= k <= |calls|
        invariant calls == old(calls) && internalSize == old(internalSize)
        invariant CallsPresent(old(data), calls[..k])
        invariant data == ResizeAll(old(data), calls[..k], internalSize, blankOf)
      {
        var id := calls[k];
        CallsPresentPrefix(old(data), calls, k + 1);
        assert calls[..k + 1][..k] == calls[..k];
        assert Present(old(data), id);
        data := data[id := Some(ResizeSeq(data[id].value, internalSize, blankOf(id)))];
        k := k + 1;
      }
      assert calls[..k] == calls;
    }

    /** add: returns the old size; every component grows by one blank element. */
    method Add() returns (index: nat)
      requires Valid()
      modifies this
      ensures Valid()
      ensures index == old(internalSize) && internalSize == old(internalSize) + 1
      ensures calls == old(calls) && |data| == |old(data)|
      ensures forall id :: 0 <= id < |data| ==>
        data[id] == if old(data)[id].None? then None else Some(old(data)[id].value + [blankOf(id)])
    {
      index := internalSize;
      internalSize := internalSize + 1;
      RunResizeCalls();
      ResizeAllEffect(old(data), calls, internalSize, blankOf);
      forall id | 0 <= id < |data| && old(data)[id].Some?
        ensures data[id] == Some(old(data)[id].value + [blankOf(id)])
      {
        assert ResizeSeq(old(data)[id].value, internalSize, blankOf(id)) == old(data)[id].value + [blankOf(id)];
      }
    }

    /** resize: the size and every component's length become `newSize`. */
    method Resize(newSize: nat)
      requires Valid()
      modifies this
      ensures Valid()
      ensures internalSize == newSize && calls == old(calls) && |data| == |old(data)|
      ensures forall id :: 0 <= id < |data| ==>
        data[id] == if old(data)[id].None? then None else Some(ResizeSeq(old(data)[id].value, newSize, blankOf(id)))
    {
      internalSize := newSize;
      RunResizeCalls();
      ResizeAllEffect(old(data), calls, internalSize, blankOf);
    }

    /** size */
    function Size(): (r: nat)
      reads this
      ensures r == internalSize
    {
      internalSize
    }

    /** clear is resize(0). */
    method Clear()
      requires Valid()
      modifies this
      ensures Valid()
      ensures internalSize == 0 && calls == old(calls) && |data| == |old(data)|
      ensures forall id :: 0 <= id < |data| ==> data[id] == if old(data)[id].None? then None else Some([])
    {
      Resize(0);
    }

    /**
     * swap: runs every swap callback. When each component is registered
     * once, elements i and j trade places in every component.
     */
    method Swap(i: nat, j: nat)
      requires Valid()
      requires i < internalSize && j < internalSize
      modifies this
      ensures calls == old(calls) && internalSize == old(internalSize)
      ensures Valid()
      ensures data == SwapAll(old(data), calls, internalSize, i, j)
      ensures Distinct(calls) ==> forall id :: 0 <= id < |data| ==>
        data[id] == if old(data)[id].None? then None else Some(Swaps.Swap(old(data)[id].value, i, j))
    {
      var k := 0;
      while k < |calls|
        invariant 0 <= k <= |calls|
        invariant calls == old(calls) && internalSize == old(internalSize)
        invariant CallsPresent(old(data), calls[..k])
        invariant data == SwapAll(old(data), calls[..k], internalSize, i, j)
      {
        var id := calls[k];
        CallsPresentPrefix(old(data), calls, k + 1);
        assert calls[..k + 1][..k] == calls[..k];
        assert Present(old(data), id);
        data := data[id := Some(Swaps.Swap(data[id].value, i, j))];
        k := k + 1;
      }
      assert calls[..k] == calls;
      if Distinct(calls) {
        forall id | 0 <= id < |data|
          ensures data[id] == if old(data)[id].None? then None else Some(Swaps.Swap(old(data)[id].value, i, j))
        {
          SwapAllParity(old(data), calls, internalSize, i, j, id);
          DistinctCountsOnce(calls, id);
        }
      }
    }

    /** get<Component>(id) */
    function Get(typeId: nat, index: nat): (r: E)
      reads this
      requires Valid() && IsTypePresent(typeId) && index < internalSize
      ensures r == data[typeId].value[index]
    {
      data[typeId].value[index]
    }

    /** An assignment through the reference get<Component>(index) returns. */
    method Set(typeId: nat, index: nat, value: E)
      requires Valid() && IsTypePresent(typeId) && index < internalSize
      modifies this
      ensures Valid() && internalSize == old(internalSize) && calls == old(calls)
      ensures data == old(data)[typeId := Some(old(data)[typeId].value[index := value])]
      ensures Get(typeId, index) == value
    {
      data := data[typeId := Some(data[typeId].value[index := value])];
    }

    /**
     * The copy constructor as written: it copies `o`'s callback lists and
     * then runs `o`'s copy callbacks, each of which calls add_type on the
     * new collection and so registers its callbacks a second time.
     */
    constructor CopyAsWritten(o: ParticleCollection<E>)
      requires o.Valid() && Distinct(o.calls)
      ensures Valid()
      ensures internalSize == o.internalSize && blankOf == o.blankOf
      ensures forall id :: At(data, id) == At(o.data, id)
      ensures calls == o.calls + o.calls
    {
      internalSize := o.internalSize;
      blankOf := o.blankOf;
      data := [];
      calls := o.calls;
      new;
      CopyData(o);
    }

    /**
     * The copy constructor with the callback lists left to the copy
     * callbacks, so each component is registered once.
     */
    constructor Copy(o: ParticleCollection<E>)
      requires o.Valid() && Distinct(o.calls)
      ensures Valid() && Distinct(calls)
      ensures internalSize == o.internalSize && blankOf == o.blankOf
      ensures forall id :: At(data, id) == At(o.data, id)
      ensures calls == o.calls
    {
      internalSize := o.internalSize;
      blankOf := o.blankOf;
      data := [];
      calls := [];
      new;
      CopyData(o);
    }

    /** The copy callbacks of `o`, in order: add the type if missing, then assign the array. */
    method CopyData(o: ParticleCollection<E>)
      requires o.Valid() && Distinct(o.calls) && o != this
      requires data == [] && internalSize == o.internalSize && blankOf == o.blankOf
      requires forall id :: id in calls ==> id in o.calls
      modifies this
      ensures Valid() && internalSize == o.internalSize
      ensures forall id :: At(data, id) == At(o.data, id)
      ensures calls == old(calls) + o.calls
    {
      ghost var start := calls;
      var k := 0;
      while k < |o.calls|
        invariant 0 <= k <= |o.calls|
        invariant internalSize == o.internalSize && blankOf == o.blankOf
        invariant calls == start + o.calls[..k]
        invariant Sized()
        invariant forall id :: 0 <= id < |data| ==>
          data[id] == if id in o.calls[..k] then o.data[id] else None
        invariant forall id :: id in o.calls[..k] ==> id < |data|
      {
        var id := o.calls[k];
        assert o.calls[..k + 1] == o.calls[..k] + [id];
        assert id !in o.calls[..k] by {
          forall a | 0 <= a < k ensures o.calls[a] != id {}
        }
        if !IsTypePresent(id) {
          AddType(id);
        }
        data := data[id := o.data[id]];
        k := k + 1;
      }
      assert o.calls[..k] == o.calls;
      forall id | 0 <= id < |o.data| && o.data[id].Some? ensures id < |data| {
      }
      assert CallsPresent(data, calls) by {
        forall a | 0 <= a < |calls| ensures Present(data, calls[a]) {
          var id := calls[a];
          if a < |start| {
            assert id in start;
          } else {
            assert id == o.calls[a - |start|];
          }
          assert id in o.calls;
          var b :| 0 <= b < |o.calls| && o.calls[b] == id;
          assert Present(o.data, o.calls[b]);
        }
      }
    }
  }
}
