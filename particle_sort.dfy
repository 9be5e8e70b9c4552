/**
 * The swap-only sorts of the particle collection
 * (src/libFluid/fluidSolver/ParticleCollectionAlgorithm.cpp). The sorts
 * read the SortInfo component's key and rearrange the collection only
 * through `swap`, which moves every component of a particle together; the
 * collection is therefore modelled as an array of entries, each holding
 * the precalculated key and the rest of the particle.
 */
module ParticleSort {
  import opened Wrappers
  import Swaps

  /** One particle: its SortInfo key (uint64) and its other components. */
  datatype Entry<E> = Entry(key: nat, data: E)

  /** Keys are non-decreasing on [lo, hi). */
  ghost predicate SortedRange<E>(s: seq<Entry<E>>, lo: int, hi: int)
    requires 0 <= lo && hi <= |s|
  {
    forall p, q :: lo <= p < q < hi ==> s[p].key <= s[q].key
  }

  /** Every key on [a0, a1) is at most every key on [b0, b1). */
  ghost predicate LeqRanges<E>(s: seq<Entry<E>>, a0: int, a1: int, b0: int, b1: int)
    requires 0 <= a0 && a1 <= |s| && 0 <= b0 && b1 <= |s|
  {
    forall p, q :: a0 <= p < a1 && b0 <= q < b1 ==> s[p].key <= s[q].key
  }

  /** `s` with the element at `from` moved back to `to` and the ones between shifted up. */
  function MoveBack<E>(s: seq<E>, from: nat, to: nat): (r: seq<E>)
    requires to <= from < |s|
    ensures |r| == |s|
  {
    s[..to] + [s[from]] + s[to..from] + s[from + 1..]
  }

  /** Where each element ends up: the moved one at `to`, the ones from `to` on one place later. */
  lemma MoveBackAt<E>(s: seq<E>, from: nat, to: nat)
    requires to <= from < |s|
    ensures var r := MoveBack(s, from, to);
      forall k :: 0 <= k < |s| ==>
        r[k] == if k < to then s[k] else if k == to then s[from] else if k <= from then s[k - 1] else s[k]
  {
  }

  /** Moving an element back keeps the same elements. */
  lemma MoveBackSameElements<E>(s: seq<E>, from: nat, to: nat)
    requires to <= from < |s|
    ensures multiset(MoveBack(s, from, to)) == multiset(s)
  {
    var a, b, c, d := s[..to], [s[from]], s[to..from], s[from + 1..];
    assert MoveBack(s, from, to) == a + b + c + d;
    assert s == a + c + b + d;
  }

  /** Moving an element back to where it is changes nothing. */
  lemma MoveBackNone<E>(s: seq<E>, from: nat)
    requires from < |s|
    ensures MoveBack(s, from, from) == s
  {
    assert MoveBack(s, from, from) == s[..from] + [s[from]] + s[from + 1..];
    assert s == s[..from] + [s[from]] + s[from + 1..];
  }

  /** One more adjacent swap moves the element one place further back. */
  lemma MoveBackStep<E>(s: seq<E>, from: nat, m: nat)
    requires 0 < m <= from < |s|
    ensures Swaps.Swap(MoveBack(s, from, m), m, m - 1) == MoveBack(s, from, m - 1)
  {
    var l, r := Swaps.Swap(MoveBack(s, from, m), m, m - 1), MoveBack(s, from, m - 1);
    MoveBackAt(s, from, m);
    MoveBackAt(s, from, m - 1);
    forall k | 0 <= k < |s| ensures l[k] == r[k] {
    }
  }

  // ---------------------------------------------------------------- merge

  /**
   * The state of the in-place merge of [left, half) and [half, right):
   * the output [left, li) is sorted and below everything still to merge,
   * and the two remaining runs [li, half) and [half, right) are sorted.
   */
  ghost predicate MergeInv<E>(s: seq<Entry<E>>, left: nat, li: nat, half: nat, right: nat)
  {
    && left <= li <= half <= right <= |s|
    && SortedRange(s, left, li) && SortedRange(s, li, half) && SortedRange(s, half, right)
    && LeqRanges(s, left, li, li, right)
  }

  lemma MergeStart<E>(s: seq<Entry<E>>, left: nat, half: nat, right: nat)
    requires left <= half <= right <= |s|
    requires SortedRange(s, left, half) && SortedRange(s, half, right)
    ensures MergeInv(s, left, left, half, right)
  {
  }

  /** The left run's head is not above the right run's head: it stays. */
  lemma MergeKeep<E>(s: seq<Entry<E>>, left: nat, li: nat, half: nat, right: nat)
    requires MergeInv(s, left, li, half, right) && li < half < right
    requires s[li].key <= s[half].key
    ensures MergeInv(s, left, li + 1, half, right)
  {
    forall p, q | left <= p < li + 1 && li + 1 <= q < right ensures s[p].key <= s[q].key {
      if p == li && q >= half {
        assert s[half].key <= s[q].key;
      }
    }
  }

  /** The right run's head is smaller: it is moved in front of the left run. */
  lemma MergeMove<E>(s: seq<Entry<E>>, left: nat, li: nat, half: nat, right: nat)
    requires MergeInv(s, left, li, half, right) && li < half < right
    requires s[li].key > s[half].key
    ensures MergeInv(MoveBack(s, half, li), left, li + 1, half + 1, right)
  {
    var t := MoveBack(s, half, li);
    MovedOutputSorted(s, t, left, li, half, right);
    MovedRestSorted(s, t, left, li, half, right);
    MovedOutputBelow(s, t, left, li, half, right);
  }

  /** After the move the output [left, li] is still sorted. */
  lemma MovedOutputSorted<E>(s: seq<Entry<E>>, t: seq<Entry<E>>, left: nat, li: nat, half: nat, right: nat)
    requires MergeInv(s, left, li, half, right) && li < half < right
    requires t == MoveBack(s, half, li)
    ensures SortedRange(t, left, li + 1)
  {
    MoveBackAt(s, half, li);
    forall p, q | left <= p < q < li + 1 ensures t[p].key <= t[q].key {
      if q == li {
        assert t[q] == s[half];
      }
    }
  }

  /** The shifted left run [li + 1, half + 1) and the right run [half + 1, right) stay sorted. */
  lemma MovedRestSorted<E>(s: seq<Entry<E>>, t: seq<Entry<E>>, left: nat, li: nat, half: nat, right: nat)
    requires MergeInv(s, left, li, half, right) && li < half < right
    requires t == MoveBack(s, half, li)
    ensures SortedRange(t, li + 1, half + 1) && SortedRange(t, half + 1, right)
  {
    MoveBackAt(s, half, li);
    forall p, q | li + 1 <= p < q < half + 1 ensures t[p].key <= t[q].key {
      assert t[p] == s[p - 1] && t[q] == s[q - 1];
    }
    forall p, q | half + 1 <= p < q < right ensures t[p].key <= t[q].key {
      assert t[p] == s[p] && t[q] == s[q];
    }
  }

  /** The output [left, li] stays below everything still to merge. */
  lemma MovedOutputBelow<E>(s: seq<Entry<E>>, t: seq<Entry<E>>, left: nat, li: nat, half: nat, right: nat)
    requires MergeInv(s, left, li, half, right) && li < half < right
    requires s[li].key > s[half].key
    requires t == MoveBack(s, half, li)
    ensures LeqRanges(t, left, li + 1, li + 1, right)
  {
    MoveBackAt(s, half, li);
    forall p, q | left <= p < li + 1 && li + 1 <= q < right ensures t[p].key <= t[q].key {
      var sq := if q <= half then q - 1 else q;
      assert t[q] == s[sq];
      if p == li {
        assert t[p] == s[half];
        if q <= half {
          assert s[li].key <= s[sq].key;
        } else {
          assert s[half].key <= s[sq].key;
        }
      } else {
        assert t[p] == s[p];
      }
    }
  }

  /** Once either run is used up, the whole range is sorted. */
  lemma MergeDone<E>(s: seq<Entry<E>>, left: nat, li: nat, half: nat, right: nat)
    requires MergeInv(s, left, li, half, right) && (li == half || half == right)
    ensures SortedRange(s, left, right)
  {
    forall p, q | left <= p < q < right ensures s[p].key <= s[q].key {
      if p < li && q >= li {
      }
    }
  }

  /** Two sorted runs whose boundary is in order are one sorted run: merge's early return. */
  lemma AlreadyMerged<E>(s: seq<Entry<E>>, left: nat, half: nat, right: nat)
    requires left < half < right <= |s|
    requires SortedRange(s, left, half) && SortedRange(s, half, right)
    requires s[half - 1].key <= s[half].key
    ensures SortedRange(s, left, right)
  {
    forall p, q | left <= p < q < right ensures s[p].key <= s[q].key {
      if p < half <= q {
        assert s[p].key <= s[half - 1].key;
        assert s[half].key <= s[q].key;
      }
    }
  }

  // ------------------------------------------------------- permutations

  /**
   * `s` is `t` with only the elements of [lo, hi) rearranged: outside the
   * range nothing changed, inside it the same elements are present as often.
   */
  ghost predicate PermutedWithin<E>(s: seq<E>, t: seq<E>, lo: int, hi: int)
  {
    && |s| == |t| && 0 <= lo <= hi <= |s|
    && s[..lo] == t[..lo] && s[hi..] == t[hi..]
    && multiset(s[lo..hi]) == multiset(t[lo..hi])
  }

  lemma PermutedRefl<E>(s: seq<E>, lo: int, hi: int)
    requires 0 <= lo <= hi <= |s|
    ensures PermutedWithin(s, s, lo, hi)
  {
  }

  lemma PermutedTrans<E>(s: seq<E>, t: seq<E>, u: seq<E>, lo: int, hi: int)
    requires PermutedWithin(s, t, lo, hi) && PermutedWithin(t, u, lo, hi)
    ensures PermutedWithin(s, u, lo, hi)
  {
  }

  /** A swap of two positions in [lo, hi) permutes within [lo, hi). */
  lemma SwapPermutes<E>(s: seq<E>, lo: int, hi: int, i: nat, j: nat)
    requires 0 <= lo <= i < hi <= |s| && lo <= j < hi
    ensures PermutedWithin(Swaps.Swap(s, i, j), s, lo, hi)
  {
    var r := Swaps.Swap(s, i, j);
    assert r[lo..hi] == Swaps.Swap(s[lo..hi], i - lo, j - lo);
  }

  /** A swap inside [lo, hi) keeps a permutation within [lo, hi) one. */
  lemma SwapStaysPermuted<E>(s: seq<E>, t: seq<E>, r: seq<E>, lo: int, hi: int, i: nat, j: nat)
    requires PermutedWithin(s, t, lo, hi) && lo <= i < hi && lo <= j < hi && r == Swaps.Swap(s, i, j)
    ensures PermutedWithin(r, t, lo, hi)
  {
    SwapPermutes(s, lo, hi, i, j);
    PermutedTrans(Swaps.Swap(s, i, j), s, t, lo, hi);
  }

  /** Rearranging a sub-range rearranges every range around it. */
  lemma PermutedWiden<E>(s: seq<E>, t: seq<E>, lo: int, a: int, b: int, hi: int)
    requires PermutedWithin(s, t, a, b) && 0 <= lo <= a && b <= hi <= |s|
    ensures PermutedWithin(s, t, lo, hi)
  {
    assert s[lo..hi] == s[lo..a] + s[a..b] + s[b..hi];
    assert t[lo..hi] == t[lo..a] + t[a..b] + t[b..hi];
    assert s[lo..a] == s[..a][lo..] && t[lo..a] == t[..a][lo..];
    assert s[b..hi] == s[b..][..hi - b] && t[b..hi] == t[b..][..hi - b];
  }

  /** Keys below (or at least) a bound on [lo, hi) stay so when the range is rearranged. */
  lemma PermutedKeepsBounds<E>(s: seq<Entry<E>>, t: seq<Entry<E>>, lo: int, hi: int, bound: nat)
    requires PermutedWithin(s, t, lo, hi)
    ensures (forall k :: lo <= k < hi ==> t[k].key < bound) ==> (forall k :: lo <= k < hi ==> s[k].key < bound)
    ensures (forall k :: lo <= k < hi ==> t[k].key >= bound) ==> (forall k :: lo <= k < hi ==> s[k].key >= bound)
  {
    forall k | lo <= k < hi ensures exists k' :: lo <= k' < hi && t[k'] == s[k] {
      assert s[k] == s[lo..hi][k - lo];
      assert s[k] in multiset(t[lo..hi]);
      var m :| 0 <= m < hi - lo && t[lo..hi][m] == s[k];
      assert t[lo + m] == s[k];
    }
  }

  // ---------------------------------------------------------------- swap

  /** ParticleCollection::swap: the two particles trade places. */
  method SwapEntries<E>(a: array<Entry<E>>, i: nat, j: nat)
    requires i < a.Length && j < a.Length
    modifies a
    ensures a[..] == Swaps.Swap(old(a[..]), i, j)
  {
    a[i], a[j] := a[j], a[i];
  }

  /** The entries of `s` with the key recomputed from each particle. */
  function Keyed<E>(s: seq<Entry<E>>, key: E -> nat): (r: seq<Entry<E>>)
    ensures |r| == |s|
    ensures forall i :: 0 <= i < |s| ==> r[i] == Entry(key(s[i].data), s[i].data)
  {
    seq(|s|, (i: int) requires 0 <= i < |s| => Entry(key(s[i].data), s[i].data))
  }

  /** precalculate_keys: slot i's SortInfo key becomes key(i); nothing moves. */
  method PrecalculateKeys<E>(a: array<Entry<E>>, key: E -> nat)
    modifies a
    ensures a[..] == Keyed(old(a[..]), key)
  {
    var i := 0;
    while i < a.Length
      invariant 0 <= i <= a.Length
      invariant forall k :: 0 <= k < i ==> a[k] == Entry(key(old(a[k]).data), old(a[k]).data)
      invariant forall k :: i <= k < a.Length ==> a[k] == old(a[k])
    {
      a[i] := a[i].(key := key(a[i].data));
      i := i + 1;
    }
  }

  // ----------------------------------------------------------- merge sort

  /** Moving an element back inside [lo, hi) permutes within [lo, hi). */
  lemma MoveBackPermutes<E>(s: seq<E>, lo: int, hi: int, from: nat, to: nat)
    requires 0 <= lo <= to <= from < hi <= |s|
    ensures PermutedWithin(MoveBack(s, from, to), s, lo, hi)
  {
    MoveBackOutside(s, lo, hi, from, to);
    MoveBackSliceElements(s, lo, hi, from, to);
  }

  /** Inside [lo, hi) the move keeps the same elements. */
  lemma MoveBackSliceElements<E>(s: seq<E>, lo: int, hi: int, from: nat, to: nat)
    requires 0 <= lo <= to <= from < hi <= |s|
    ensures multiset(MoveBack(s, from, to)[lo..hi]) == multiset(s[lo..hi])
  {
    var f: nat, t: nat := from - lo, to - lo;
    var u := s[lo..hi];
    MoveBackSlice(s, lo, hi, from, to);
    assert MoveBack(s, from, to)[lo..hi] == MoveBack(u, f, t);
    MoveBackSameElements(u, f, t);
  }

  /** Outside [lo, hi) the move changes nothing. */
  lemma MoveBackOutside<E>(s: seq<E>, lo: int, hi: int, from: nat, to: nat)
    requires 0 <= lo <= to <= from < hi <= |s|
    ensures MoveBack(s, from, to)[..lo] == s[..lo] && MoveBack(s, from, to)[hi..] == s[hi..]
  {
    MoveBackAt(s, from, to);
    var r := MoveBack(s, from, to);
    assert r[..lo] == s[..lo];
    assert r[hi..] == s[hi..];
  }

  /** Inside [lo, hi) the move is the same move on the slice. */
  lemma MoveBackSlice<E>(s: seq<E>, lo: int, hi: int, from: nat, to: nat)
    requires 0 <= lo <= to <= from < hi <= |s|
    ensures MoveBack(s, from, to)[lo..hi] == MoveBack(s[lo..hi], from - lo, to - lo)
  {
    var r := MoveBack(s, from, to);
    var m := MoveBack(s[lo..hi], from - lo, to - lo);
    MoveBackAt(s, from, to);
    MoveBackAt(s[lo..hi], from - lo, to - lo);
    forall k | 0 <= k < hi - lo ensures r[lo..hi][k] == m[k] {
      assert r[lo..hi][k] == r[lo + k];
      if k == to - lo {
        assert m[k] == s[lo..hi][from - lo] == s[from];
      } else if to - lo < k <= from - lo {
        assert m[k] == s[lo..hi][k - 1] == s[lo + k - 1];
      } else {
        assert m[k] == s[lo..hi][k] == s[lo + k];
      }
    }
  }

  /** The inner loop of merge: the element at `from` is swapped down to `to`. */
  method MoveByAdjacentSwaps<E>(a: array<Entry<E>>, from: nat, to: nat)
    requires to <= from < a.Length
    modifies a
    ensures a[..] == MoveBack(old(a[..]), from, to)
  {
    var movingIndex: nat := from;
    ghost var s := a[..];
    MoveBackNone(s, from);
    while movingIndex > to
      invariant to <= movingIndex <= from
      invariant a[..] == MoveBack(s, from, movingIndex)
    {
      SwapBack(a, s, from, movingIndex);
      movingIndex := movingIndex - 1;
    }
  }

  /** The swap of the inner loop of merge, one place further back. */
  method SwapBack<E>(a: array<Entry<E>>, ghost s: seq<Entry<E>>, from: nat, m: nat)
    requires 0 < m <= from < |s| && a[..] == MoveBack(s, from, m)
    modifies a
    ensures a[..] == MoveBack(s, from, m - 1)
  {
    MoveBackStep(s, from, m);
    SwapEntries(a, m, m - 1);
  }

  /**
   * merge: the sorted runs [left, half) and [half, right) become one
   * sorted run. A right-run element smaller than the left run's head is
   * carried to it by adjacent swaps; when the runs are already in order
   * nothing is done.
   */
  method Merge<E>(a: array<Entry<E>>, left: nat, half: nat, right: nat)
    requires left < half < right <= a.Length
    requires SortedRange(a[..], left, half) && SortedRange(a[..], half, right)
    modifies a
    ensures SortedRange(a[..], left, right)
    ensures PermutedWithin(a[..], old(a[..]), left, right)
  {
    PermutedRefl(a[..], left, right);
    var leftIndex: nat, rightIndex: nat, h: nat := left, half, half;
    if a[rightIndex - 1].key <= a[rightIndex].key {
      AlreadyMerged(a[..], left, half, right);
      return;
    }
    MergeStart(a[..], left, half, right);
    while leftIndex < h && rightIndex < right
      invariant MergeInv(a[..], left, leftIndex, h, right) && rightIndex == h
      invariant PermutedWithin(a[..], old(a[..]), left, right)
      decreases right - leftIndex
    {
      if a[leftIndex].key <= a[rightIndex].key {
        MergeKeep(a[..], left, leftIndex, h, right);
        leftIndex := leftIndex + 1;
      } else {
        ghost var s0 := a[..];
        MergeMove(s0, left, leftIndex, h, right);
        MoveBackPermutes(s0, left, right, rightIndex, leftIndex);
        MoveByAdjacentSwaps(a, rightIndex, leftIndex);
        PermutedTrans(a[..], s0, old(a[..]), left, right);
        rightIndex := rightIndex + 1;
        h := h + 1;
        leftIndex := leftIndex + 1;
      }
    }
    MergeDone(a[..], left, leftIndex, h, right);
  }

  /** The recursive merge sort of [left, right). */
  method MergeSortRange<E>(a: array<Entry<E>>, left: nat, right: nat)
    requires left <= right <= a.Length
    modifies a
    ensures SortedRange(a[..], left, right)
    ensures PermutedWithin(a[..], old(a[..]), left, right)
    decreases right - left
  {
    if right - left <= 1 {
      PermutedRefl(a[..], left, right);
      return;
    }
    var half := left + (right - left) / 2;
    MergeSortRange(a, left, half);
    ghost var s1 := a[..];
    MergeSortRange(a, half, right);
    assert a[..half] == s1[..half];
    assert forall k :: left <= k < half ==> a[k] == a[..half][k] == s1[..half][k] == s1[k];
    ghost var s2 := a[..];
    Merge(a, left, half, right);
    PermutedWiden(s1, old(a[..]), left, left, half, right);
    PermutedWiden(s2, s1, left, half, right, right);
    PermutedTrans(s2, s1, old(a[..]), left, right);
    PermutedTrans(a[..], s2, old(a[..]), left, right);
  }

  /** merge_sort: keys are precalculated, then the whole collection is sorted. */
  method MergeSort<E>(a: array<Entry<E>>, key: E -> nat)
    modifies a
    ensures SortedRange(a[..], 0, a.Length)
    ensures multiset(a[..]) == multiset(Keyed(old(a[..]), key))
  {
    PrecalculateKeys(a, key);
    ghost var keyed := a[..];
    MergeSortRange(a, 0, a.Length);
    assert a[..] == a[0..a.Length] && keyed == keyed[0..a.Length];
  }

  // ----------------------------------------------------------- quick sort

  /**
   * The state of partition's loop over [low, high) with the pivot at
   * high: keys on [low, i] are below the pivot, keys on (i, j) are not.
   */
  ghost predicate PartitionInv<E>(s: seq<Entry<E>>, low: int, i: int, j: int, high: int, pivot: nat)
  {
    && 0 <= low && low - 1 <= i < j <= high < |s|
    && (forall k :: low <= k <= i ==> s[k].key < pivot)
    && (forall k :: i < k < j ==> s[k].key >= pivot)
    && s[high].key == pivot
  }

  /** The key at j is below the pivot: it is swapped to i + 1. */
  lemma PartitionSwapStep<E>(s: seq<Entry<E>>, r: seq<Entry<E>>, low: int, i: int, j: int, high: int, pivot: nat)
    requires PartitionInv(s, low, i, j, high, pivot) && j < high && s[j].key < pivot
    requires r == Swaps.Swap(s, i + 1, j)
    ensures PartitionInv(r, low, i + 1, j + 1, high, pivot)
  {
  }

  /** The key at j is not below the pivot: it stays. */
  lemma PartitionKeepStep<E>(s: seq<Entry<E>>, low: int, i: int, j: int, high: int, pivot: nat)
    requires PartitionInv(s, low, i, j, high, pivot) && j < high && s[j].key >= pivot
    ensures PartitionInv(s, low, i, j + 1, high, pivot)
  {
  }

  /** After the loop, swapping the pivot to i + 1 splits the range around it. */
  lemma PartitionEnd<E>(s: seq<Entry<E>>, t: seq<Entry<E>>, low: int, i: int, high: int, pivot: nat)
    requires PartitionInv(s, low, i, high, high, pivot) && t == Swaps.Swap(s, i + 1, high)
    ensures low <= i + 1 <= high && t[i + 1].key == pivot
    ensures forall k :: low <= k < i + 1 ==> t[k].key < t[i + 1].key
    ensures forall k :: i + 1 < k <= high ==> t[k].key >= t[i + 1].key
  {
  }

  /** One iteration of partition's loop: a key below the pivot is swapped to i + 1. */
  method PartitionStep<E>(a: array<Entry<E>>, low: int, i: int, j: int, high: int, pivot: nat,
                          ghost start: seq<Entry<E>>) returns (i': int)
    requires PartitionInv(a[..], low, i, j, high, pivot) && j < high
    requires PermutedWithin(a[..], start, low, high + 1)
    modifies a
    ensures PartitionInv(a[..], low, i', j + 1, high, pivot)
    ensures PermutedWithin(a[..], start, low, high + 1)
  {
    ghost var s := a[..];
    i' := i;
    var valueAtJ := a[j].key;
    if valueAtJ < pivot {
      i' := i + 1;
      SwapEntries(a, i', j);
      PartitionSwapStep(s, a[..], low, i, j, high, pivot);
      SwapStaysPermuted(s, start, a[..], low, high + 1, i', j);
    } else {
      PartitionKeepStep(s, low, i, j, high, pivot);
    }
  }

  /** The loop of partition over [low, high). */
  method PartitionLoop<E>(a: array<Entry<E>>, low: int, high: int, pivot: nat) returns (i: int)
    requires 0 <= low <= high < a.Length && a[high].key == pivot
    modifies a
    ensures PartitionInv(a[..], low, i, high, high, pivot)
    ensures PermutedWithin(a[..], old(a[..]), low, high + 1)
  {
    PermutedRefl(a[..], low, high + 1);
    i := low - 1;
    var j := low;
    while j < high
      invariant PartitionInv(a[..], low, i, j, high, pivot)
      invariant PermutedWithin(a[..], old(a[..]), low, high + 1)
    {
      i := PartitionStep(a, low, i, j, high, pivot, old(a[..]));
      j := j + 1;
    }
  }

  /**
   * partition (Lomuto): the last key is the pivot; keys strictly below it
   * are swapped to the front, then the pivot is swapped in after them.
   */
  method Partition<E>(a: array<Entry<E>>, low: int, high: int) returns (p: int)
    requires 0 <= low <= high < a.Length
    modifies a
    ensures low <= p <= high
    ensures a[p].key == old(a[high].key)
    ensures forall k :: low <= k < p ==> a[k].key < a[p].key
    ensures forall k :: p < k <= high ==> a[k].key >= a[p].key
    ensures PermutedWithin(a[..], old(a[..]), low, high + 1)
  {
    var pivot := a[high].key;
    var i := PartitionLoop(a, low, high, pivot);
    ghost var s := a[..];
    SwapEntries(a, i + 1, high);
    p := i + 1;
    PartitionEnd(s, a[..], low, i, high, pivot);
    SwapStaysPermuted(s, old(a[..]), a[..], low, high + 1, p, high);
  }

  /** A pivot between a sorted lower part and a sorted upper part gives a sorted range. */
  lemma PivotJoin<E>(s: seq<Entry<E>>, low: int, p: int, high: int)
    requires 0 <= low <= p <= high < |s|
    requires SortedRange(s, low, p) && SortedRange(s, p + 1, high + 1)
    requires forall k :: low <= k < p ==> s[k].key < s[p].key
    requires forall k :: p < k <= high ==> s[k].key >= s[p].key
    ensures SortedRange(s, low, high + 1)
  {
  }

  /** Sorting the part below the pivot leaves the pivot and the part above it alone. */
  lemma LowerPartSorted<E>(s1: seq<Entry<E>>, s2: seq<Entry<E>>, low: int, p: int, high: int)
    requires 0 <= low <= p <= high < |s1|
    requires forall k :: low <= k < p ==> s1[k].key < s1[p].key
    requires PermutedWithin(s2, s1, low, p)
    ensures forall k :: low <= k < p ==> s2[k].key < s1[p].key
    ensures forall k :: p <= k <= high ==> s2[k] == s1[k]
  {
    PermutedKeepsBounds(s2, s1, low, p, s1[p].key);
    forall k | p <= k <= high ensures s2[k] == s1[k] {
      assert s2[k] == s2[p..][k - p] == s1[p..][k - p] == s1[k];
    }
  }

  /** Sorting the part above the pivot leaves the pivot and the part below it alone. */
  lemma UpperPartSorted<E>(s2: seq<Entry<E>>, s3: seq<Entry<E>>, low: int, p: int, high: int, pivot: nat)
    requires 0 <= low <= p <= high < |s2|
    requires forall k :: p < k <= high ==> s2[k].key >= pivot
    requires PermutedWithin(s3, s2, p + 1, high + 1)
    ensures forall k :: p < k <= high ==> s3[k].key >= pivot
    ensures forall k :: low <= k <= p ==> s3[k] == s2[k]
  {
    PermutedKeepsBounds(s3, s2, p + 1, high + 1, pivot);
    forall k | low <= k <= p ensures s3[k] == s2[k] {
      assert s3[k] == s3[..p + 1][k] == s2[..p + 1][k] == s2[k];
    }
  }

  /**
   * Sorting the parts below and above the pivot in place sorts the whole
   * range and keeps it a permutation of what partition started from.
   */
  lemma QuickSortJoin<E>(s0: seq<Entry<E>>, s1: seq<Entry<E>>, s2: seq<Entry<E>>, s3: seq<Entry<E>>,
                         low: int, p: int, high: int)
    requires 0 <= low <= p <= high < |s1|
    requires PermutedWithin(s1, s0, low, high + 1)
    requires forall k :: low <= k < p ==> s1[k].key < s1[p].key
    requires forall k :: p < k <= high ==> s1[k].key >= s1[p].key
    requires PermutedWithin(s2, s1, low, p) && SortedRange(s2, low, p)
    requires PermutedWithin(s3, s2, p + 1, high + 1) && SortedRange(s3, p + 1, high + 1)
    ensures SortedRange(s3, low, high + 1)
    ensures PermutedWithin(s3, s0, low, high + 1)
  {
    var pivot := s1[p].key;
    LowerPartSorted(s1, s2, low, p, high);
    UpperPartSorted(s2, s3, low, p, high, pivot);
    PivotJoin(s3, low, p, high);
    PermutedAroundPivot(s0, s1, s2, s3, low, p, high);
  }

  lemma PermutedAroundPivot<E>(s0: seq<E>, s1: seq<E>, s2: seq<E>, s3: seq<E>, low: int, p: int, high: int)
    requires 0 <= low <= p <= high < |s1|
    requires PermutedWithin(s1, s0, low, high + 1)
    requires PermutedWithin(s2, s1, low, p)
    requires PermutedWithin(s3, s2, p + 1, high + 1)
    ensures PermutedWithin(s3, s0, low, high + 1)
  {
    PermutedWiden(s2, s1, low, low, p, high + 1);
    PermutedWiden(s3, s2, low, p + 1, high + 1, high + 1);
    PermutedTrans(s2, s1, s0, low, high + 1);
    PermutedTrans(s3, s2, s0, low, high + 1);
  }

  /** The recursive quick sort of [low, high]; ranges with fewer than two elements are left alone. */
  method QuickSortRange<E>(a: array<Entry<E>>, low: int, high: int)
    requires 0 <= low <= high + 1 <= a.Length
    modifies a
    ensures SortedRange(a[..], low, high + 1)
    ensures PermutedWithin(a[..], old(a[..]), low, high + 1)
    decreases high - low
  {
    if low < high {
      var p := Partition(a, low, high);
      ghost var s1 := a[..];
      QuickSortRange(a, low, p - 1);
      ghost var s2 := a[..];
      QuickSortRange(a, p + 1, high);
      QuickSortJoin(old(a[..]), s1, s2, a[..], low, p, high);
    } else {
      PermutedRefl(a[..], low, high + 1);
    }
  }

  /** quick_sort: keys are precalculated, then the range [0, size - 1] is sorted. */
  method QuickSort<E>(a: array<Entry<E>>, key: E -> nat)
    modifies a
    ensures SortedRange(a[..], 0, a.Length)
    ensures multiset(a[..]) == multiset(Keyed(old(a[..]), key))
  {
    PrecalculateKeys(a, key);
    ghost var keyed := a[..];
    QuickSortRange(a, 0, a.Length - 1);
    assert a[..] == a[0..a.Length] && keyed == keyed[0..a.Length];
  }

  // ------------------------------------------------------- insertion sort

  /**
   * The state of the inner loop while inserting the element with key
   * `key`, taken from slot i: it sits at j + 1; the elements before it
   * and the elements after it up to i are sorted, those after it are
   * greater than `key`, and those before are below those after.
   */
  ghost predicate InsertInv<E>(s: seq<Entry<E>>, i: int, j: int, key: nat)
  {
    && -1 <= j < i < |s|
    && s[j + 1].key == key
    && SortedRange(s, 0, j + 1) && SortedRange(s, j + 2, i + 1)
    && (forall k :: j + 2 <= k < i + 1 ==> s[k].key > key)
    && LeqRanges(s, 0, j + 1, j + 2, i + 1)
  }

  lemma InsertStart<E>(s: seq<Entry<E>>, i: nat)
    requires 1 <= i < |s| && SortedRange(s, 0, i)
    ensures InsertInv(s, i, i - 1, s[i].key)
  {
  }

  /** The element before the inserted one is larger: they are swapped. */
  lemma InsertStep<E>(s: seq<Entry<E>>, i: int, j: int, key: nat)
    requires InsertInv(s, i, j, key) && j >= 0 && s[j].key > key
    ensures InsertInv(Swaps.Swap(s, j, j + 1), i, j - 1, key)
  {
    var t := Swaps.Swap(s, j, j + 1);
    forall p, q | j + 1 <= p < q < i + 1 ensures t[p].key <= t[q].key {
      if p == j + 1 {
        assert t[p] == s[j];
      }
    }
    forall p, q | 0 <= p < j && j + 1 <= q < i + 1 ensures t[p].key <= t[q].key {
      if q == j + 1 {
        assert t[q] == s[j];
      }
    }
  }

  /** The element before the inserted one is not larger: the prefix up to i is sorted. */
  lemma InsertDone<E>(s: seq<Entry<E>>, i: int, j: int, key: nat)
    requires InsertInv(s, i, j, key) && (j < 0 || s[j].key <= key)
    ensures SortedRange(s, 0, i + 1)
  {
    forall p, q | 0 <= p < q < i + 1 ensures s[p].key <= s[q].key {
      if p < j + 1 && q == j + 1 {
        assert s[p].key <= s[j].key;
      }
    }
  }

  /**
   * The inner loop of insertion_sort with the key copied and a signed
   * index: the element at i is swapped back past the larger keys before it.
   */
  method InsertElement<E>(a: array<Entry<E>>, i: nat)
    requires 1 <= i < a.Length && SortedRange(a[..], 0, i)
    modifies a
    ensures SortedRange(a[..], 0, i + 1)
    ensures PermutedWithin(a[..], old(a[..]), 0, a.Length)
  {
    PermutedRefl(a[..], 0, a.Length);
    var infoKey := a[i].key;
    var j := i - 1;
    InsertStart(a[..], i);
    while j >= 0 && a[j].key > infoKey
      invariant InsertInv(a[..], i, j, infoKey)
      invariant PermutedWithin(a[..], old(a[..]), 0, a.Length)
    {
      InsertStep(a[..], i, j, infoKey);
      ghost var s := a[..];
      SwapEntries(a, j, j + 1);
      SwapStaysPermuted(s, old(a[..]), a[..], 0, a.Length, j, j + 1);
      j := j - 1;
    }
    InsertDone(a[..], i, j, infoKey);
  }

  /** insertion_sort, corrected: every element from slot 1 on is inserted into the sorted prefix. */
  method InsertionSort<E>(a: array<Entry<E>>, key: E -> nat)
    modifies a
    ensures SortedRange(a[..], 0, a.Length)
    ensures multiset(a[..]) == multiset(Keyed(old(a[..]), key))
  {
    PrecalculateKeys(a, key);
    ghost var keyed := a[..];
    PermutedRefl(a[..], 0, a.Length);
    var i := 1;
    while i < a.Length
      invariant 1 <= i && (i <= a.Length || a.Length == 0)
      invariant SortedRange(a[..], 0, if a.Length == 0 then 0 else i)
      invariant PermutedWithin(a[..], keyed, 0, a.Length)
    {
      ghost var before := a[..];
      InsertElement(a, i);
      PermutedTrans(a[..], before, keyed, 0, a.Length);
      i := i + 1;
    }
    assert a[..] == a[0..a.Length] && keyed == keyed[0..a.Length];
  }

  /**
   * The inner loop of insertion_sort as written: the compared key is read
   * through a reference to slot i, so after the first swap it is the key
   * of the element that moved into slot i; the size_t index is always
   * `>= 0`, so stepping below 0 reads outside the collection (None).
   */
  function InsertAsWritten<E>(s: seq<Entry<E>>, i: nat, j: int): (r: Option<seq<Entry<E>>>)
    requires i < |s| && -1 <= j < i
    ensures r.Some? ==> |r.value| == |s| && multiset(r.value) == multiset(s)
    decreases j + 1
  {
    if j < 0 then None
    else if s[j].key > s[i].key then InsertAsWritten(Swaps.Swap(s, j, j + 1), i, j - 1)
    else Some(s)
  }

  /** insertion_sort as written, from slot i on. */
  function InsertionSortFromAsWritten<E>(s: seq<Entry<E>>, i: nat): (r: Option<seq<Entry<E>>>)
    requires i >= 1
    ensures r.Some? ==> |r.value| == |s| && multiset(r.value) == multiset(s)
    decreases |s| - i
  {
    if i >= |s| then Some(s)
    else match InsertAsWritten(s, i, i - 1)
      case None => None
      case Some(t) => InsertionSortFromAsWritten(t, i + 1)
  }

  function InsertionSortAsWritten<E>(s: seq<Entry<E>>): (r: Option<seq<Entry<E>>>)
    ensures r.Some? ==> |r.value| == |s| && multiset(r.value) == multiset(s)
  {
    InsertionSortFromAsWritten(s, 1)
  }

  /**
   * As written, keys [1, 2, 0] come out as [1, 0, 2]: the 0 moves one
   * place and then is compared through the reference, which now holds 2.
   * Keys [2, 1] swap once and then read slot "-1".
   */
  lemma InsertionSortAsWrittenMisorders()
    ensures InsertionSortAsWritten([Entry(1, 0), Entry(2, 1), Entry(0, 2)]) ==
      Some([Entry(1, 0), Entry(0, 2), Entry(2, 1)])
    ensures !SortedRange([Entry(1, 0), Entry(0, 2), Entry(2, 1)], 0, 3)
  {
    var s := [Entry(1, 0), Entry(2, 1), Entry(0, 2)];
    var t := [Entry(1, 0), Entry(0, 2), Entry(2, 1)];
    assert InsertAsWritten(s, 1, 0) == Some(s);
    assert Swaps.Swap(s, 1, 2) == t;
    assert InsertAsWritten(t, 2, 0) == Some(t);
    assert InsertAsWritten(s, 2, 1) == Some(t);
    assert InsertionSortFromAsWritten(t, 3) == Some(t);
    assert InsertionSortFromAsWritten(s, 2) == Some(t);
  }

  lemma InsertionSortAsWrittenReadsBelowZero()
    ensures InsertionSortAsWritten([Entry(2, 0), Entry(1, 1)]) == None
  {
    var u := [Entry(2, 0), Entry(1, 1)];
    assert Swaps.Swap(u, 0, 1) == [Entry(1, 1), Entry(2, 0)];
    assert InsertAsWritten(u, 1, 0) == None;
  }
}
