/**
 * The parameter sweep of logViewer/generate_logs.py: stepping ranges
 * (additive, multiplicative, or an explicit list of values), the odometer
 * walk that hands every combination of their values to a callback, and the
 * numbering of solver runs with the log-description file they write.
 *
 * Values are Python floats; they are modelled as exact reals, so the
 * rounding of repeated float additions is not captured (for the default
 * sweep's step 0.5 the float sums are exact anyway). Python's `str()` of a
 * float is the parameter `show`. The callback is modelled by the list of
 * combinations the walk hands to it, in order; the run numbering, the lines
 * written and the solver argument lists are functions of that list.
 */
module ParamSweep {
  import opened Odometer
  import Text
  import Numerals

  /** ParameterValue: one range's setting as handed to the callback. */
  datatype ParameterValue = ParameterValue(name: string, description: string, value: real)

  /** `str(ParameterValue)`: "name=value". */
  function ValueText(p: ParameterValue, show: real -> string): string
  {
    p.name + "=" + show(p.value)
  }

  /** generate_parameter_list: one "--name=value" flag per value, in order. */
  function GenerateParameterList(params: seq<ParameterValue>, show: real -> string): (r: seq<string>)
    ensures |r| == |params|
    ensures forall i :: 0 <= i < |params| ==> r[i] == "--" + params[i].name + "=" + show(params[i].value)
    decreases |params|
  {
    if params == [] then []
    else GenerateParameterList(params[..|params| - 1], show) + ["--" + ValueText(params[|params| - 1], show)]
  }

  /** How a range steps: ParameterRange adds, ParameterRangeExponential multiplies, ParameterRangeExplicit indexes. */
  datatype Stepping = Additive(step: real) | Multiplicative(factor: real) | Listed(values: seq<real>)

  /**
   * ParameterRange and its two subclasses. `currentIndex` belongs to the
   * explicit kind; for the other two it stays 0.
   */
  class ParameterRange {
    const name: string
    const description: string
    const startValue: real
    const endValue: real
    const stepping: Stepping
    var currentValue: real
    var currentIndex: nat

    /** An explicit range has values; its start and end are its first and last one. */
    predicate Shaped()
    {
      stepping.Listed? ==>
        |stepping.values| > 0 &&
        startValue == stepping.values[0] && endValue == stepping.values[|stepping.values| - 1]
    }

    ghost predicate Valid()
      reads this
    {
      Shaped() && (!stepping.Listed? ==> currentIndex == 0)
    }

    /** ParameterRange(name, description, startValue, endValue, stepSize). */
    constructor (name: string, description: string, startValue: real, endValue: real, stepSize: real)
      ensures Valid() && this.name == name && this.description == description
      ensures this.startValue == startValue && this.endValue == endValue && stepping == Additive(stepSize)
      ensures currentValue == startValue
    {
      this.name := name;
      this.description := description;
      this.startValue := startValue;
      this.endValue := endValue;
      stepping := Additive(stepSize);
      currentValue := startValue;
      currentIndex := 0;
    }

    /** ParameterRangeExponential(name, description, startValue, endValue, stepSize). */
    constructor Exponential(name: string, description: string, startValue: real, endValue: real, stepSize: real)
      ensures Valid() && this.name == name && this.description == description
      ensures this.startValue == startValue && this.endValue == endValue && stepping == Multiplicative(stepSize)
      ensures currentValue == startValue
    {
      this.name := name;
      this.description := description;
      this.startValue := startValue;
      this.endValue := endValue;
      stepping := Multiplicative(stepSize);
      currentValue := startValue;
      currentIndex := 0;
    }

    /**
     * ParameterRangeExplicit(name, description, values): start and end are
     * the first and last value. An empty list raises IndexError in the
     * source, so it is excluded here.
     */
    constructor Explicit(name: string, description: string, values: seq<real>)
      requires |values| > 0
      ensures Valid() && this.name == name && this.description == description
      ensures stepping == Listed(values) && startValue == values[0] && endValue == values[|values| - 1]
      ensures currentValue == values[0] && currentIndex == 0
    {
      this.name := name;
      this.description := description;
      startValue := values[0];
      endValue := values[|values| - 1];
      stepping := Listed(values);
      currentValue := values[0];
      currentIndex := 0;
    }

    /** reset: back to the start value (and, for the explicit kind, to index 0). */
    method Reset()
      requires Valid()
      modifies this
      ensures Valid() && currentValue == startValue && currentIndex == 0
    {
      currentValue := startValue;
      currentIndex := 0;
    }

    /**
     * next_step: add the step, multiply by it, or move to the next listed
     * value; past the end of the list the value stays at the last one.
     */
    method NextStep()
      requires Valid()
      modifies this
      ensures Valid()
      ensures stepping.Additive? ==> currentValue == old(currentValue) + stepping.step && currentIndex == 0
      ensures stepping.Multiplicative? ==> currentValue == old(currentValue) * stepping.factor && currentIndex == 0
      ensures stepping.Listed? ==>
        var vs := stepping.values;
        currentIndex == old(currentIndex) + 1 &&
        currentValue == (if currentIndex >= |vs| then vs[|vs| - 1] else vs[currentIndex])
    {
      match stepping
      case Additive(step) =>
        currentValue := currentValue + step;
      case Multiplicative(factor) =>
        currentValue := currentValue * factor;
      case Listed(values) =>
        currentIndex := currentIndex + 1;
        if currentIndex >= |values| {
          currentValue := values[|values| - 1];
        } else {
          currentValue := values[currentIndex];
        }
    }

    /** get_current_value */
    function GetCurrentValue(): ParameterValue
      reads this
    {
      ParameterValue(name, description, currentValue)
    }

    /**
     * is_at_end: a stepping range is at its end once its value is strictly
     * greater than the end value; an explicit one once its index has left
     * the list.
     */
    predicate IsAtEnd()
      reads this
    {
      if stepping.Listed? then currentIndex >= |stepping.values| else currentValue > endValue
    }

    /** The value after k steps from a reset. */
    function ValueAfter(k: nat): (v: real)
      requires Shaped()
      ensures k == 0 ==> v == startValue
      decreases k
    {
      match stepping
      case Additive(step) => if k == 0 then startValue else ValueAfter(k - 1) + step
      case Multiplicative(factor) => if k == 0 then startValue else ValueAfter(k - 1) * factor
      case Listed(values) => if k < |values| then values[k] else values[|values| - 1]
    }

    /** Whether the range reports its end after k steps from a reset. */
    predicate AtEndAfter(k: nat)
      requires Shaped()
    {
      if stepping.Listed? then k >= |stepping.values| else ValueAfter(k) > endValue
    }

    /** The range stands k steps after a reset. */
    ghost predicate InState(k: nat)
      reads this
    {
      Valid() && currentValue == ValueAfter(k) && currentIndex == (if stepping.Listed? then k else 0)
    }

    /** Some step from the first on reaches the end, so the range has finitely many values. */
    ghost predicate Ends()
    {
      Shaped() && exists k: nat :: 1 <= k && AtEndAfter(k)
    }

    /** The first step from j on that reaches the end, below the witness w. */
    ghost function FirstEnd(j: nat, w: nat): (n: nat)
      requires Shaped() && 1 <= j <= w && AtEndAfter(w)
      ensures j <= n <= w && AtEndAfter(n)
      ensures forall k :: j <= k < n ==> !AtEndAfter(k)
      decreases w - j
    {
      if AtEndAfter(j) then j else FirstEnd(j + 1, w)
    }

    /**
     * The number of values the walk visits: the first step that reaches the
     * end. A range that starts beyond its end still shows its start value
     * once, so the count is at least one.
     */
    ghost function Count(): (n: nat)
      requires Ends()
      ensures n >= 1 && AtEndAfter(n)
      ensures forall k :: 1 <= k < n ==> !AtEndAfter(k)
    {
      var w: nat :| 1 <= w && AtEndAfter(w);
      FirstEnd(1, w)
    }

    /** An explicit range has exactly its listed values. */
    lemma ExplicitCount()
      requires Shaped() && stepping.Listed?
      ensures Ends() && Count() == |stepping.values|
    {
      assert AtEndAfter(|stepping.values|);
    }

    /** An additive range k steps after a reset stands at start + k * step. */
    lemma {:induction false} LinearValue(k: nat)
      requires Shaped() && stepping.Additive?
      ensures ValueAfter(k) == startValue + (k as real) * stepping.step
      decreases k
    {
      if k > 0 {
        LinearValue(k - 1);
      }
    }

    /** An additive range with a positive step ends. */
    lemma LinearEnds()
      requires Shaped() && stepping.Additive? && stepping.step > 0.0
      ensures Ends()
    {
      var s := stepping.step;
      var k: nat;
      var ks: real;
      if endValue < startValue {
        k := 1;
        ks := (k as real) * s;
        assert ks == s;
        assert ks > endValue - startValue;
      } else {
        var q := (endValue - startValue) / s;
        k := q.Floor + 1;
        ks := (k as real) * s;
        PastQuotient(endValue - startValue, s, k as real, ks);
      }
      LinearValue(k);
      assert ValueAfter(k) == startValue + ks;
      assert AtEndAfter(k);
    }

    /** A positive step taken past a quotient overshoots the dividend. */
    static lemma PastQuotient(d: real, s: real, k: real, ks: real)
      requires s > 0.0 && k > d / s && ks == k * s
      ensures ks > d
    {
      var q := d / s;
      var e := k - q;
      assert q * s == d;
      assert e * s > 0.0;
      assert ks == q * s + e * s;
    }

    /** What is_at_end reports after k steps. */
    lemma AtEndIn(k: nat)
      requires InState(k)
      ensures IsAtEnd() == AtEndAfter(k)
    {
    }
  }

  /** No range object appears twice in the list. */
  ghost predicate Distinct(ranges: seq<ParameterRange>)
  {
    forall i, j :: 0 <= i < j < |ranges| ==> ranges[i] != ranges[j]
  }

  /** Every range is well formed and reaches its end. */
  ghost predicate Walkable(ranges: seq<ParameterRange>)
  {
    forall i :: 0 <= i < |ranges| ==> ranges[i].Ends()
  }

  /** The number of values of each range. */
  ghost function Counts(ranges: seq<ParameterRange>): (ns: seq<nat>)
    requires Walkable(ranges)
    ensures |ns| == |ranges| && NonEmpty(ns)
  {
    seq(|ranges|, i requires 0 <= i < |ranges| => ranges[i].Count())
  }

  /** The values the ranges show at the given cursor positions. */
  function ValuesAt(ranges: seq<ParameterRange>, d: seq<nat>): (vs: seq<ParameterValue>)
    requires |d| == |ranges| && forall i :: 0 <= i < |ranges| ==> ranges[i].Shaped()
    ensures |vs| == |ranges|
  {
    seq(|ranges|, i requires 0 <= i < |ranges| =>
      ParameterValue(ranges[i].name, ranges[i].description, ranges[i].ValueAfter(d[i])))
  }

  /** The values shown at each combination of a list. */
  function ValuesList(ranges: seq<ParameterRange>, xs: seq<seq<nat>>): (r: seq<seq<ParameterValue>>)
    requires forall i :: 0 <= i < |ranges| ==> ranges[i].Shaped()
    requires forall j :: 0 <= j < |xs| ==> |xs[j]| == |ranges|
    ensures |r| == |xs| && forall j :: 0 <= j < |xs| ==> r[j] == ValuesAt(ranges, xs[j])
  {
    seq(|xs|, j requires 0 <= j < |xs| => ValuesAt(ranges, xs[j]))
  }

  /**
   * What walk_through_matrix hands to the callback: nothing for an empty
   * list; otherwise every combination in odometer order, and then the
   * all-reset combination once more, from the step whose carry ran out.
   */
  ghost function Sweep(ranges: seq<ParameterRange>): seq<seq<ParameterValue>>
    requires Walkable(ranges)
  {
    if |ranges| == 0 then []
    else
      var c := Combos(Counts(ranges));
      CombosInRange(Counts(ranges));
      OdometerRunsThroughCombos(Counts(ranges));
      ValuesList(ranges, c) + [ValuesAt(ranges, c[0])]
  }

  /** The current values of all ranges. */
  function Current(ranges: seq<ParameterRange>): (vs: seq<ParameterValue>)
    reads ranges
  {
    seq(|ranges|, i requires 0 <= i < |ranges| reads ranges => ranges[i].GetCurrentValue())
  }

  lemma CurrentAt(ranges: seq<ParameterRange>, d: seq<nat>)
    requires |d| == |ranges| && forall i :: 0 <= i < |ranges| ==> ranges[i].Shaped() && ranges[i].InState(d[i])
    ensures Current(ranges) == ValuesAt(ranges, d)
  {
  }

  /**
   * The callback receives one more combination than the product of the
   * value counts; the first and the last are the all-reset one.
   */
  lemma SweepCount(ranges: seq<ParameterRange>)
    requires Walkable(ranges) && |ranges| > 0
    ensures |Sweep(ranges)| == Product(Counts(ranges)) + 1
    ensures Sweep(ranges)[0] == Sweep(ranges)[|Sweep(ranges)| - 1]
  {
    CombosCount(Counts(ranges));
  }

  /**
   * Apart from the final repeat, the callback sees every combination of
   * the ranges' values exactly once, the last range stepping fastest.
   */
  lemma SweepCovers(ranges: seq<ParameterRange>, d: seq<nat>)
    requires Walkable(ranges) && |ranges| > 0 && InRange(d, Counts(ranges))
    ensures exists j :: 0 <= j < |Sweep(ranges)| - 1 && Sweep(ranges)[j] == ValuesAt(ranges, d)
  {
    var c := Combos(Counts(ranges));
    CombosCover(Counts(ranges), d);
    var j :| 0 <= j < |c| && c[j] == d;
    assert Sweep(ranges)[j] == ValuesAt(ranges, d);
  }

  /**
   * The body of the carry loop for the range at `pos - 1`: step it, and
   * reset it if the step reached its end. Every other range is untouched.
   */
  method CarryStep(ranges: seq<ParameterRange>, pos: nat, ghost cur: seq<nat>)
    returns (atEnd: bool, ghost next: seq<nat>)
    requires Distinct(ranges) && Walkable(ranges) && 0 < pos <= |ranges| == |cur|
    requires cur[pos - 1] < ranges[pos - 1].Count()
    requires forall i :: 0 <= i < |ranges| ==> ranges[i].InState(cur[i])
    modifies ranges[pos - 1]
    ensures atEnd == (cur[pos - 1] + 1 == ranges[pos - 1].Count())
    ensures next == cur[pos - 1 := if atEnd then 0 else cur[pos - 1] + 1]
    ensures forall i :: 0 <= i < |ranges| ==> ranges[i].InState(next[i])
  {
    var r := ranges[pos - 1];
    ghost var k := cur[pos - 1];
    r.NextStep();
    assert r.InState(k + 1);
    r.AtEndIn(k + 1);
    atEnd := r.IsAtEnd();
    if atEnd {
      r.Reset();
      next := cur[pos - 1 := 0];
    } else {
      next := cur[pos - 1 := k + 1];
    }
    assert forall i :: 0 <= i < |ranges| && i != pos - 1 ==> ranges[i] != r;
  }

  /**
   * One pass of the carry loop: starting at the last range, a range is
   * stepped; if it is not at its end the pass stops, otherwise it is reset
   * and the carry moves to the range before it. The flag says the first
   * range was reset.
   */
  method Advance(ranges: seq<ParameterRange>, ghost d: seq<nat>, ghost ns: seq<nat>)
    returns (wentThrough: bool, ghost next: seq<nat>)
    requires Distinct(ranges) && Walkable(ranges) && |ranges| > 0 && ns == Counts(ranges) && InRange(d, ns)
    requires forall i :: 0 <= i < |ranges| ==> ranges[i].InState(d[i])
    modifies set r | r in ranges
    ensures |next| == |ranges| && forall i :: 0 <= i < |ranges| ==> ranges[i].InState(next[i])
    ensures Increment(d, ns) == (next, wentThrough)
  {
    var pos := |ranges|;
    next := d;
    var done := false;
    wentThrough := false;
    while pos > 0 && !done
      invariant 0 <= pos <= |ranges| && |next| == |ranges|
      invariant forall i :: 0 <= i < |ranges| ==> ranges[i].InState(next[i])
      invariant !done ==> forall i :: 0 <= i < pos ==> next[i] == d[i]
      invariant done ==> Increment(d, ns) == (next, false)
      invariant !done ==> CarryFrom(next, ns, pos) == Increment(d, ns)
      invariant wentThrough == (!done && pos == 0)
      decreases pos + (if done then 0 else 1)
    {
      ghost var before := next;
      assert next[pos - 1] < ns[pos - 1] == ranges[pos - 1].Count();
      var atEnd;
      atEnd, next := CarryStep(ranges, pos, next);
      if !atEnd {
        assert CarryFrom(before, ns, pos) == (next, false);
        done := true;
      } else {
        assert CarryFrom(before, ns, pos) == CarryFrom(next, ns, pos - 1);
        if pos == 1 {
          wentThrough := true;
        }
        pos := pos - 1;
      }
    }
  }

  /** Every range back at its start value. */
  method ResetAll(ranges: seq<ParameterRange>)
    requires Distinct(ranges) && forall i :: 0 <= i < |ranges| ==> ranges[i].Valid()
    modifies set r | r in ranges
    ensures forall k :: 0 <= k < |ranges| ==> ranges[k].InState(0)
  {
    var i := 0;
    while i < |ranges|
      invariant 0 <= i <= |ranges|
      invariant forall k :: 0 <= k < i ==> ranges[k].InState(0)
      invariant forall k :: i <= k < |ranges| ==> ranges[k].Valid()
    {
      ranges[i].Reset();
      i := i + 1;
    }
  }

  /** The values of one more combination follow those before it. */
  lemma ValuesListGrows(ranges: seq<ParameterRange>, xs: seq<seq<nat>>, t: nat)
    requires forall i :: 0 <= i < |ranges| ==> ranges[i].Shaped()
    requires t < |xs| && forall j :: 0 <= j < |xs| ==> |xs[j]| == |ranges|
    ensures ValuesList(ranges, xs[..t + 1]) == ValuesList(ranges, xs[..t]) + [ValuesAt(ranges, xs[t])]
  {
    assert xs[..t + 1] == xs[..t] + [xs[t]];
  }

  /**
   * walk_through_matrix: every range is reset; with ranges, the callback
   * gets the current values, then after every carry pass, until a pass
   * resets the first range. Afterwards every range is back at its start.
   */
  method WalkThroughMatrix(ranges: seq<ParameterRange>) returns (calls: seq<seq<ParameterValue>>)
    requires Distinct(ranges) && Walkable(ranges)
    requires forall i :: 0 <= i < |ranges| ==> ranges[i].Valid()
    modifies set r | r in ranges
    ensures calls == Sweep(ranges)
    ensures forall i :: 0 <= i < |ranges| ==>
      ranges[i].Valid() && ranges[i].currentValue == ranges[i].startValue && ranges[i].currentIndex == 0
  {
    ResetAll(ranges);
    if |ranges| == 0 {
      return [];
    }
    ghost var ns := Counts(ranges);
    CombosInRange(ns);
    OdometerRunsThroughCombos(ns);
    calls := Walk(ranges, ns, Combos(ns));
  }

  /**
   * The loop of walk_through_matrix, from all ranges reset: the values
   * after each carry pass are collected until a pass runs out of carry.
   */
  method Walk(ranges: seq<ParameterRange>, ghost ns: seq<nat>, ghost c: seq<seq<nat>>)
    returns (calls: seq<seq<ParameterValue>>)
    requires Distinct(ranges) && Walkable(ranges) && |ranges| > 0 && ns == Counts(ranges) && c == Combos(ns)
    requires |c| > 0 && forall j :: 0 <= j < |c| ==> |c[j]| == |ranges| && InRange(c[j], ns)
    requires forall k :: 0 <= k < |ranges| ==> ranges[k].InState(0)
    modifies set r | r in ranges
    ensures forall k :: 0 <= k < |ranges| ==> ranges[k].InState(0)
    ensures calls == ValuesList(ranges, c) + [ValuesAt(ranges, c[0])]
  {
    OdometerStep(ns, 0);
    ghost var d := c[0];
    ghost var t := 0;
    CurrentAt(ranges, d);
    calls := [Current(ranges)];
    var wentThrough := false;
    while !wentThrough
      invariant |d| == |ranges| && forall k :: 0 <= k < |ranges| ==> ranges[k].InState(d[k])
      invariant !wentThrough ==> t < |c| && d == c[t] && calls == ValuesList(ranges, c[..t + 1])
      invariant wentThrough ==> d == c[0] && calls == ValuesList(ranges, c) + [ValuesAt(ranges, c[0])]
      decreases if wentThrough then 0 else |c| - t + 1
    {
      OdometerStep(ns, t);
      wentThrough, d := Advance(ranges, d, ns);
      CurrentAt(ranges, d);
      if !wentThrough {
        ValuesListGrows(ranges, c, t + 1);
        t := t + 1;
      } else {
        assert c[..t + 1] == c;
      }
      calls := calls + [Current(ranges)];
    }
  }

  /** One line of the log-description file: "<prefix><n>.csv:" and the tab-separated "name=value" texts. */
  function DescriptionLine(logPrefix: string, n: nat, values: seq<ParameterValue>, show: real -> string): string
  {
    logPrefix + Numerals.NatToString(n) + ".csv:\t" +
    Text.Join('\t', seq(|values|, i requires 0 <= i < |values| => ValueText(values[i], show))) + "\n"
  }

  /** The name of the n-th run's log file. */
  function LogName(logPrefix: string, n: nat): (r: string)
  {
    logPrefix + Numerals.NatToString(n) + ".csv"
  }

  /** Different runs write different log files. */
  lemma LogNamesDistinct(logPrefix: string, a: nat, b: nat)
    requires a != b
    ensures LogName(logPrefix, a) != LogName(logPrefix, b)
  {
    Numerals.NumberedNamesDistinct(logPrefix, a, b, ".csv");
  }

  /** call_fluid_solver's argument list. */
  function SolverCall(executablePath: string, logName: string, values: seq<ParameterValue>,
                      simulationLength: real, show: real -> string): (args: seq<string>)
    ensures |args| == 4 + |values| && args[0] == executablePath
    ensures args[3] == "--output=" + logName && args[4..] == GenerateParameterList(values, show)
  {
    [executablePath, "-c", "--length=" + show(simulationLength), "--output=" + logName] +
    GenerateParameterList(values, show)
  }

  /**
   * run_for_all: the callback numbers the combinations 1, 2, 3, ... in the
   * order it receives them; for each it writes a line to the
   * log-description file and runs the solver with the numbered log name.
   */
  method RunForAll(ranges: seq<ParameterRange>, executablePath: string, logPrefix: string,
                   simulationLength: real, show: real -> string)
    returns (descriptionLines: seq<string>, solverCalls: seq<seq<string>>)
    requires Distinct(ranges) && Walkable(ranges)
    requires forall i :: 0 <= i < |ranges| ==> ranges[i].Valid()
    modifies set r | r in ranges
    ensures |descriptionLines| == |solverCalls| == |Sweep(ranges)|
    ensures forall j :: 0 <= j < |descriptionLines| ==>
      descriptionLines[j] == DescriptionLine(logPrefix, j + 1, Sweep(ranges)[j], show) &&
      solverCalls[j] == SolverCall(executablePath, LogName(logPrefix, j + 1), Sweep(ranges)[j], simulationLength, show)
  {
    var calls := WalkThroughMatrix(ranges);
    descriptionLines, solverCalls := NumberRuns(calls, executablePath, logPrefix, simulationLength, show);
  }

  /** The callback of run_for_all over the received combinations, counting from 1. */
  method NumberRuns(calls: seq<seq<ParameterValue>>, executablePath: string, logPrefix: string,
                    simulationLength: real, show: real -> string)
    returns (descriptionLines: seq<string>, solverCalls: seq<seq<string>>)
    ensures |descriptionLines| == |solverCalls| == |calls|
    ensures forall j :: 0 <= j < |calls| ==>
      descriptionLines[j] == DescriptionLine(logPrefix, j + 1, calls[j], show) &&
      solverCalls[j] == SolverCall(executablePath, LogName(logPrefix, j + 1), calls[j], simulationLength, show)
  {
    ghost var lines := seq(|calls|, j requires 0 <= j < |calls| => DescriptionLine(logPrefix, j + 1, calls[j], show));
    ghost var runs := seq(|calls|, j requires 0 <= j < |calls| =>
      SolverCall(executablePath, LogName(logPrefix, j + 1), calls[j], simulationLength, show));
    descriptionLines, solverCalls := [], [];
    var currentNumber := 0;
    while currentNumber < |calls|
      invariant 0 <= currentNumber <= |calls|
      invariant descriptionLines == lines[..currentNumber] && solverCalls == runs[..currentNumber]
    {
      var values := calls[currentNumber];
      assert lines[..currentNumber + 1] == lines[..currentNumber] + [lines[currentNumber]];
      assert runs[..currentNumber + 1] == runs[..currentNumber] + [runs[currentNumber]];
      currentNumber := currentNumber + 1;
      descriptionLines := descriptionLines + [DescriptionLine(logPrefix, currentNumber, values, show)];
      solverCalls := solverCalls + [SolverCall(executablePath, LogName(logPrefix, currentNumber), values, simulationLength, show)];
    }
    assert lines[..currentNumber] == lines && runs[..currentNumber] == runs;
  }

  /** main's viscosity range: 0.0 to 5.0 in steps of 0.5 has eleven values. */
  lemma ViscosityCount(r: ParameterRange)
    requires r.Shaped() && r.stepping == Additive(0.5) && r.startValue == 0.0 && r.endValue == 5.0
    ensures r.Ends() && r.Count() == 11
  {
    forall k: nat | k <= 11
      ensures r.ValueAfter(k) == (k as real) * 0.5
    {
      r.LinearValue(k);
    }
    assert r.AtEndAfter(11);
  }

  /**
   * main's sweep: 4 stiffness values, 11 viscosity values and 5 timesteps
   * give 220 combinations, so the solver runs 221 times.
   */
  method DefaultSweep() returns (calls: seq<seq<ParameterValue>>)
    ensures |calls| == 221
  {
    var stiffness := new ParameterRange.Explicit("stiffness", "Stiffness", [1000.0, 10000.0, 100000.0, 1000000.0]);
    var viscosity := new ParameterRange("viscosity", "Viscosity", 0.0, 5.0, 0.5);
    var timestep := new ParameterRange.Explicit("timestep", "Timestep", [0.05, 0.01, 0.005, 0.001, 0.0005]);
    var ranges := [stiffness, viscosity, timestep];
    DefaultCounts(stiffness, viscosity, timestep);
    calls := WalkThroughMatrix(ranges);
    SweepCount(ranges);
  }

  /** The default ranges have 4, 11 and 5 values, so 220 combinations. */
  lemma DefaultCounts(stiffness: ParameterRange, viscosity: ParameterRange, timestep: ParameterRange)
    requires stiffness.Shaped() && stiffness.stepping.Listed? && |stiffness.stepping.values| == 4
    requires viscosity.Shaped() && viscosity.stepping == Additive(0.5)
    requires viscosity.startValue == 0.0 && viscosity.endValue == 5.0
    requires timestep.Shaped() && timestep.stepping.Listed? && |timestep.stepping.values| == 5
    ensures Walkable([stiffness, viscosity, timestep])
    ensures Product(Counts([stiffness, viscosity, timestep])) == 220
  {
    stiffness.ExplicitCount();
    ViscosityCount(viscosity);
    timestep.ExplicitCount();
    assert Counts([stiffness, viscosity, timestep]) == [4, 11, 5];
    assert Product([4, 11, 5]) == 220;
  }
}
