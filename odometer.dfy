/**
 * The order in which the parameter sweeps visit combinations, shared by the
 * iterative walk of logViewer/generate_logs.py and the recursive runners of
 * test-series/framework/test_series.py and test-series/test_series.py.
 *
 * A combination is a sequence of cursor positions ("digits"), one per
 * parameter; parameter k has ns[k] values, so its digit lies in 0..ns[k]-1.
 * `Combos(ns)` lists every combination, the first parameter varying slowest
 * and the last one fastest, which is the order of the nested loops of the
 * recursive runners. `Increment` is the carry step of the iterative walk:
 * the last digit advances, and a digit that runs out is reset and carries
 * into the one before it. The lemmas show that stepping with `Increment`
 * from all zeros runs through `Combos(ns)` and wraps back to all zeros.
 */
module Odometer {

  /** The number of combinations: the product of the value counts. */
  function Product(ns: seq<nat>): nat
  {
    if ns == [] then 1 else ns[0] * Product(ns[1..])
  }

  /** Every digit is a valid cursor position for its parameter. */
  predicate InRange(d: seq<nat>, ns: seq<nat>)
  {
    |d| == |ns| && forall k :: 0 <= k < |d| ==> d[k] < ns[k]
  }

  /** A combination of the first k parameters, extended by a value of the next one. */
  lemma InRangeSnoc(d: seq<nat>, ns: seq<nat>, k: nat, v: nat)
    requires k < |ns| && InRange(d, ns[..k]) && v < ns[k]
    ensures InRange(d + [v], ns[..k + 1])
  {
    assert forall j :: 0 <= j < k ==> ns[..k + 1][j] == ns[..k][j];
  }

  /** Every parameter at its first value. */
  function Zeros(n: nat): (z: seq<nat>)
    ensures |z| == n && forall k :: 0 <= k < n ==> z[k] == 0
  {
    seq(n, _ => 0)
  }

  /** Every parameter has at least one value. */
  predicate NonEmpty(ns: seq<nat>)
  {
    forall k :: 0 <= k < |ns| ==> ns[k] >= 1
  }

  /** Each combination of `cs` behind the first digit d. */
  function Prefixed(d: nat, cs: seq<seq<nat>>): (r: seq<seq<nat>>)
    ensures |r| == |cs| && forall k :: 0 <= k < |cs| ==> r[k] == [d] + cs[k]
  {
    seq(|cs|, k requires 0 <= k < |cs| => [d] + cs[k])
  }

  /** The combinations whose first digit is below d, first digit slowest. */
  function CombosUpTo(d: nat, cs: seq<seq<nat>>): seq<seq<nat>>
  {
    if d == 0 then [] else CombosUpTo(d - 1, cs) + Prefixed(d - 1, cs)
  }

  /** Every combination, the first parameter slowest and the last fastest. */
  function Combos(ns: seq<nat>): seq<seq<nat>>
    decreases |ns|
  {
    if ns == [] then [[]] else CombosUpTo(ns[0], Combos(ns[1..]))
  }

  lemma {:induction false} CombosUpToCount(d: nat, cs: seq<seq<nat>>)
    ensures |CombosUpTo(d, cs)| == d * |cs|
  {
    if d > 0 {
      CombosUpToCount(d - 1, cs);
    }
  }

  /** There are as many combinations as the product of the value counts. */
  lemma {:induction false} CombosCount(ns: seq<nat>)
    ensures |Combos(ns)| == Product(ns)
    decreases |ns|
  {
    if ns != [] {
      CombosCount(ns[1..]);
      CombosUpToCount(ns[0], Combos(ns[1..]));
    }
  }

  lemma {:induction false} CombosUpToInRange(d: nat, n: nat, rest: seq<nat>, cs: seq<seq<nat>>)
    requires d <= n && forall k :: 0 <= k < |cs| ==> InRange(cs[k], rest)
    ensures forall k :: 0 <= k < |CombosUpTo(d, cs)| ==>
      InRange(CombosUpTo(d, cs)[k], [n] + rest) && CombosUpTo(d, cs)[k][0] < d
  {
    if d > 0 {
      CombosUpToInRange(d - 1, n, rest, cs);
    }
  }

  /** Every listed combination is valid. */
  lemma {:induction false} CombosInRange(ns: seq<nat>)
    ensures forall k :: 0 <= k < |Combos(ns)| ==> InRange(Combos(ns)[k], ns)
    decreases |ns|
  {
    if ns != [] {
      CombosInRange(ns[1..]);
      CombosUpToInRange(ns[0], ns[0], ns[1..], Combos(ns[1..]));
      assert [ns[0]] + ns[1..] == ns;
    }
  }

  lemma {:induction false} CombosUpToCover(d: nat, e: nat, c: seq<nat>, cs: seq<seq<nat>>)
    requires e < d && c in cs
    ensures [e] + c in CombosUpTo(d, cs)
  {
    if e < d - 1 {
      CombosUpToCover(d - 1, e, c, cs);
    } else {
      var k :| 0 <= k < |cs| && cs[k] == c;
      assert Prefixed(d - 1, cs)[k] == [e] + c;
    }
  }

  /** Every valid combination is listed. */
  lemma {:induction false} CombosCover(ns: seq<nat>, d: seq<nat>)
    requires InRange(d, ns)
    ensures d in Combos(ns)
    decreases |ns|
  {
    if ns != [] {
      CombosCover(ns[1..], d[1..]);
      CombosUpToCover(ns[0], d[0], d[1..], Combos(ns[1..]));
      assert [d[0]] + d[1..] == d;
    }
  }

  /** Lexicographic order, the first digit most significant. */
  predicate LexLess(a: seq<nat>, b: seq<nat>)
    decreases |a|
  {
    |a| > 0 && |b| > 0 && (a[0] < b[0] || (a[0] == b[0] && LexLess(a[1..], b[1..])))
  }

  lemma {:induction false} LexLessIrreflexive(a: seq<nat>)
    ensures !LexLess(a, a)
    decreases |a|
  {
    if |a| > 0 {
      LexLessIrreflexive(a[1..]);
    }
  }

  predicate StrictlySorted(xs: seq<seq<nat>>)
  {
    forall i, j :: 0 <= i < j < |xs| ==> LexLess(xs[i], xs[j])
  }

  lemma {:induction false} CombosUpToSorted(d: nat, n: nat, rest: seq<nat>, cs: seq<seq<nat>>)
    requires d <= n && StrictlySorted(cs) && forall k :: 0 <= k < |cs| ==> InRange(cs[k], rest)
    ensures StrictlySorted(CombosUpTo(d, cs))
  {
    if d > 0 {
      var a := CombosUpTo(d - 1, cs);
      var b := Prefixed(d - 1, cs);
      CombosUpToSorted(d - 1, n, rest, cs);
      CombosUpToInRange(d - 1, n, rest, cs);
      forall i, j | 0 <= i < j < |a + b|
        ensures LexLess((a + b)[i], (a + b)[j])
      {
        if j < |a| {
          assert (a + b)[i] == a[i] && (a + b)[j] == a[j];
        } else if i < |a| {
          assert (a + b)[i] == a[i] && a[i][0] < d - 1;
          assert (a + b)[j] == b[j - |a|] && b[j - |a|][0] == d - 1;
        } else {
          var x, y := cs[i - |a|], cs[j - |a|];
          assert (a + b)[i] == [d - 1] + x && (a + b)[j] == [d - 1] + y;
          assert ([d - 1] + x)[1..] == x && ([d - 1] + y)[1..] == y;
        }
      }
    }
  }

  /**
   * The listing runs in strictly increasing lexicographic order: the last
   * parameter varies fastest, and no combination is listed twice.
   */
  lemma {:induction false} CombosSorted(ns: seq<nat>)
    ensures StrictlySorted(Combos(ns))
    decreases |ns|
  {
    if ns != [] {
      CombosSorted(ns[1..]);
      CombosInRange(ns[1..]);
      CombosUpToSorted(ns[0], ns[0], ns[1..], Combos(ns[1..]));
    }
  }

  lemma CombosDistinct(ns: seq<nat>, i: nat, j: nat)
    requires i < j < |Combos(ns)|
    ensures Combos(ns)[i] != Combos(ns)[j]
  {
    CombosSorted(ns);
    LexLessIrreflexive(Combos(ns)[i]);
  }

  /**
   * The carry loop of the iterative walk over the digits before position i,
   * from i - 1 down to 0: the digit advances; if it runs out it is reset and
   * the carry moves on to the left. The flag says whether the carry ran past
   * the first digit.
   */
  function CarryFrom(d: seq<nat>, ns: seq<nat>, i: nat): (r: (seq<nat>, bool))
    requires |d| == |ns| && i <= |d|
    ensures |r.0| == |d|
    decreases i
  {
    if i == 0 then (d, true)
    else if d[i - 1] + 1 < ns[i - 1] then (d[i - 1 := d[i - 1] + 1], false)
    else CarryFrom(d[i - 1 := 0], ns, i - 1)
  }

  /** One odometer step starting at the last digit. */
  function Increment(d: seq<nat>, ns: seq<nat>): (r: (seq<nat>, bool))
    requires |d| == |ns|
    ensures |r.0| == |d|
  {
    CarryFrom(d, ns, |d|)
  }

  /** The carry step seen from the first digit: the rest steps first, and only its carry reaches the first digit. */
  lemma {:induction false} CarryFromFront(d0: nat, n0: nat, rest: seq<nat>, nrest: seq<nat>, i: nat)
    requires |rest| == |nrest| && i <= |rest|
    ensures CarryFrom([d0] + rest, [n0] + nrest, i + 1) ==
      var r := CarryFrom(rest, nrest, i);
      if !r.1 then ([d0] + r.0, false)
      else if d0 + 1 < n0 then ([d0 + 1] + r.0, false)
      else ([0] + r.0, true)
    decreases i
  {
    var d, ns := [d0] + rest, [n0] + nrest;
    if i == 0 {
      assert d[0 := d0 + 1] == [d0 + 1] + rest;
      assert d[0 := 0] == [0] + rest;
    } else if rest[i - 1] + 1 < nrest[i - 1] {
      assert d[i := d[i] + 1] == [d0] + rest[i - 1 := rest[i - 1] + 1];
    } else {
      assert d[i := 0] == [d0] + rest[i - 1 := 0];
      CarryFromFront(d0, n0, rest[i - 1 := 0], nrest, i - 1);
    }
  }

  lemma IncrementFront(d0: nat, n0: nat, rest: seq<nat>, nrest: seq<nat>)
    requires |rest| == |nrest|
    ensures Increment([d0] + rest, [n0] + nrest) ==
      var r := Increment(rest, nrest);
      if !r.1 then ([d0] + r.0, false)
      else if d0 + 1 < n0 then ([d0 + 1] + r.0, false)
      else ([0] + r.0, true)
  {
    CarryFromFront(d0, n0, rest, nrest, |rest|);
  }

  /** Each combination steps to the next one without a carry out of the first digit. */
  predicate Chained(xs: seq<seq<nat>>, ns: seq<nat>)
  {
    && (forall j :: 0 <= j < |xs| ==> |xs[j]| == |ns|)
    && (forall j :: 0 <= j < |xs| - 1 ==> Increment(xs[j], ns) == (xs[j + 1], false))
  }

  lemma PrefixedChained(d: nat, n: nat, cs: seq<seq<nat>>, rest: seq<nat>)
    requires d + 1 <= n && Chained(cs, rest)
    ensures Chained(Prefixed(d, cs), [n] + rest)
  {
    var p := Prefixed(d, cs);
    forall j | 0 <= j < |p| - 1
      ensures Increment(p[j], [n] + rest) == (p[j + 1], false)
    {
      IncrementFront(d, n, cs[j], rest);
    }
  }

  lemma ChainedConcat(a: seq<seq<nat>>, b: seq<seq<nat>>, c: seq<seq<nat>>, ns: seq<nat>, first: seq<nat>, last: seq<nat>)
    requires c == a + b && Chained(a, ns) && Chained(b, ns) && |a| > 0 && |b| > 0
    requires Increment(a[|a| - 1], ns) == (b[0], false) && a[0] == first && b[|b| - 1] == last
    ensures |c| > 0 && Chained(c, ns) && c[0] == first && c[|c| - 1] == last
  {
    forall j | 0 <= j < |c| - 1
      ensures Increment(c[j], ns) == (c[j + 1], false)
    {
      if j < |a| - 1 {
        assert c[j] == a[j] && c[j + 1] == a[j + 1];
      } else if j == |a| - 1 {
        assert c[j] == a[j] && c[j + 1] == b[0];
      } else {
        assert c[j] == b[j - |a|] && c[j + 1] == b[j - |a| + 1];
      }
    }
  }

  /** The last combination of the block of first digit d - 1 steps to the first one of the block of first digit d. */
  lemma BlockBoundary(d: nat, n: nat, cs: seq<seq<nat>>, rest: seq<nat>, last: seq<nat>)
    requires 1 <= d < n && |cs| > 0 && |last| == |rest| && last == cs[|cs| - 1]
    requires Increment(last, rest) == (cs[0], true)
    ensures Increment([d - 1] + last, [n] + rest) == ([d] + cs[0], false)
  {
    IncrementFront(d - 1, n, last, rest);
  }

  /** The block of first digit d - 1 continues the chain of the blocks before it. */
  lemma CombosUpToChainedStep(d: nat, n: nat, cs: seq<seq<nat>>, rest: seq<nat>, a: seq<seq<nat>>, u: seq<seq<nat>>)
    requires 1 < d <= n && |cs| > 0 && Chained(cs, rest) && Increment(cs[|cs| - 1], rest) == (cs[0], true)
    requires a == CombosUpTo(d - 1, cs) && u == CombosUpTo(d, cs)
    requires |a| > 0 && Chained(a, [n] + rest) && a[0] == [0] + cs[0] && a[|a| - 1] == [d - 2] + cs[|cs| - 1]
    ensures |u| > 0 && Chained(u, [n] + rest) && u[0] == [0] + cs[0] && u[|u| - 1] == [d - 1] + cs[|cs| - 1]
  {
    var b := Prefixed(d - 1, cs);
    PrefixedChained(d - 1, n, cs, rest);
    BlockBoundary(d - 1, n, cs, rest, cs[|cs| - 1]);
    ChainedConcat(a, b, u, [n] + rest, [0] + cs[0], [d - 1] + cs[|cs| - 1]);
  }

  /** The single block of first digit 0. */
  lemma CombosUpToChainedBase(n: nat, cs: seq<seq<nat>>, rest: seq<nat>, p: seq<seq<nat>>, u: seq<seq<nat>>)
    requires |cs| > 0 && p == Prefixed(0, cs) && Chained(p, [n] + rest) && u == CombosUpTo(1, cs)
    ensures |u| > 0 && Chained(u, [n] + rest) && u[0] == [0] + cs[0] && u[|u| - 1] == [0] + cs[|cs| - 1]
  {
    assert u == p;
  }

  /** The blocks of first digit below d chain into one another. */
  lemma {:induction false} CombosUpToChained(d: nat, n: nat, cs: seq<seq<nat>>, rest: seq<nat>)
    requires 1 <= d <= n && |cs| > 0 && Chained(cs, rest)
    requires cs[0] == Zeros(|rest|) && Increment(cs[|cs| - 1], rest) == (cs[0], true)
    ensures var u := CombosUpTo(d, cs);
      |u| > 0 && Chained(u, [n] + rest) && u[0] == [0] + cs[0] && u[|u| - 1] == [d - 1] + cs[|cs| - 1]
  {
    if d > 1 {
      CombosUpToChained(d - 1, n, cs, rest);
      CombosUpToChainedStep(d, n, cs, rest, CombosUpTo(d - 1, cs), CombosUpTo(d, cs));
    } else {
      PrefixedChained(0, n, cs, rest);
      CombosUpToChainedBase(n, cs, rest, Prefixed(0, cs), CombosUpTo(1, cs));
    }
  }

  /**
   * Starting from every parameter at its first value, the odometer step
   * runs through `Combos(ns)` in order, and the step after the last
   * combination carries out of the first digit and is back at the start.
   */
  lemma {:induction false} OdometerRunsThroughCombos(ns: seq<nat>)
    requires NonEmpty(ns)
    ensures var c := Combos(ns);
      |c| > 0 && c[0] == Zeros(|ns|) && Chained(c, ns) && Increment(c[|c| - 1], ns) == (c[0], true)
    decreases |ns|
  {
    if ns != [] {
      var rest := ns[1..];
      var cs := Combos(rest);
      OdometerRunsThroughCombos(rest);
      assert [ns[0]] + rest == ns;
      CombosUpToChained(ns[0], ns[0], cs, rest);
      IncrementFront(ns[0] - 1, ns[0], cs[|cs| - 1], rest);
      assert [0] + Zeros(|rest|) == Zeros(|ns|);
    } else {
      assert Combos(ns) == [[]];
    }
  }

  /** One turn of the odometer from the t-th combination: the next one, or back to the first after the last. */
  lemma OdometerStep(ns: seq<nat>, t: nat)
    requires NonEmpty(ns) && t < |Combos(ns)|
    ensures var c := Combos(ns);
      InRange(c[t], ns) && c[0] == Zeros(|ns|) &&
      Increment(c[t], ns) == (if t == |c| - 1 then (c[0], true) else (c[t + 1], false))
  {
    OdometerRunsThroughCombos(ns);
    CombosInRange(ns);
  }
}
