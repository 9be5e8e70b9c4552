/**
 * The test-series runner of test-series/framework/test_series.py. Each
 * parameter is a cursor over a list of values and a path into the JSON
 * configuration. The runner visits every combination of values by
 * recursion, the last parameter fastest. For each combination it writes a
 * configuration derived from the base one and records a documentation
 * entry under the next instance id.
 *
 * Reading the base file, creating directories and launching the solver are
 * I/O: the base configuration is a value, and every written file is an
 * entry (name, content) of the runner's `written` list. An exception from
 * building a configuration ends the whole series. The model records this
 * as a failed run that stops the recursion.
 */
module TestSeries {
  import opened Wrappers
  import opened Odometer
  import Text
  import Numerals

  /** A JSON document as json.load produces it. */
  datatype Json =
    | JNull
    | JBool(b: bool)
    | JInt(i: int)
    | JNumber(r: real)
    | JString(s: string)
    | JArray(items: seq<Json>)
    | JObject(fields: map<string, Json>)

  /** Following a key path through nested objects. */
  function Get(data: Json, path: seq<string>): Option<Json>
    decreases |path|
  {
    if path == [] then Some(data)
    else match data
      case JObject(m) => if path[0] in m then Get(m[path[0]], path[1..]) else None
      case _ => None
  }

  /**
   * One parameter of _create_file: walk to the object that holds the last
   * key (indexing a missing key raises KeyError, indexing a non-object
   * raises TypeError) and set that key. An empty path fails on `path[-1]`.
   */
  function SetAt(data: Json, path: seq<string>, v: Json): Result<Json>
    decreases |path|
  {
    if path == [] then Err("IndexError")
    else match data
      case JObject(m) =>
        if |path| == 1 then Ok(JObject(m[path[0] := v]))
        else if path[0] !in m then Err("KeyError")
        else
          var inner := SetAt(m[path[0]], path[1..], v);
          if inner.Err? then inner else Ok(JObject(m[path[0] := inner.value]))
      case _ => Err("TypeError")
  }

  /** Setting succeeds exactly when every proper prefix of the path leads to an object. */
  lemma {:induction false} SetAtSucceeds(data: Json, path: seq<string>, v: Json)
    ensures SetAt(data, path, v).Ok? <==> |path| > 0 && Get(data, path[..|path| - 1]).Some? && Get(data, path[..|path| - 1]).value.JObject?
    decreases |path|
  {
    if |path| > 1 && data.JObject? && path[0] in data.fields {
      SetAtSucceeds(data.fields[path[0]], path[1..], v);
      assert path[1..][..|path[1..]| - 1] == path[..|path| - 1][1..];
    }
  }

  /** After setting, the path leads to the new value. */
  lemma {:induction false} SetAtGet(data: Json, path: seq<string>, v: Json)
    requires SetAt(data, path, v).Ok?
    ensures Get(SetAt(data, path, v).value, path) == Some(v)
    decreases |path|
  {
    if |path| > 1 {
      SetAtGet(data.fields[path[0]], path[1..], v);
    }
  }

  /** Setting leaves every path that branches off from it unchanged. */
  lemma {:induction false} SetAtKeepsOthers(data: Json, path: seq<string>, v: Json, other: seq<string>, i: nat)
    requires SetAt(data, path, v).Ok?
    requires i < |path| && i < |other| && path[..i] == other[..i] && path[i] != other[i]
    ensures Get(SetAt(data, path, v).value, other) == Get(data, other)
    decreases |path|
  {
    if i > 0 {
      assert other[0] == other[..i][0] == path[..i][0] == path[0];
      assert path[1..][..i - 1] == path[..i][1..];
      assert other[1..][..i - 1] == other[..i][1..];
      SetAtKeepsOthers(data.fields[path[0]], path[1..], v, other[1..], i - 1);
    }
  }

  /**
   * The particle-path correction of _create_file:
   * data["scenario"]["particles"] gets "../" in front.
   */
  function FixParticlePath(data: Json): Result<Json>
  {
    match data
    case JObject(m) =>
      if "scenario" !in m then Err("KeyError")
      else (match m["scenario"]
        case JObject(s) =>
          if "particles" !in s then Err("KeyError")
          else (match s["particles"]
            case JString(p) => Ok(JObject(m["scenario" := JObject(s["particles" := JString("../" + p)])]))
            case _ => Err("TypeError"))
        case _ => Err("TypeError"))
    case _ => Err("TypeError")
  }

  /** The correction succeeds exactly on a string particle path, which it prefixes with "../". */
  lemma FixParticlePathPrefixes(data: Json)
    ensures FixParticlePath(data).Ok? <==>
      Get(data, ["scenario", "particles"]).Some? && Get(data, ["scenario", "particles"]).value.JString?
    ensures FixParticlePath(data).Ok? ==>
      Get(FixParticlePath(data).value, ["scenario", "particles"]) ==
      Some(JString("../" + Get(data, ["scenario", "particles"]).value.s))
  {
    var path := ["scenario", "particles"];
    assert path[1..] == ["particles"] && path[1..][1..] == [];
  }

  /** A parameter: a path into the configuration and the values it takes there. */
  class Parameter {
    const parameterPath: seq<string>
    const parameterValues: seq<Json>
    var current: nat

    /** The constructor asserts that there is at least one value. */
    predicate Valid()
    {
      |parameterValues| > 0
    }

    constructor (parameterPath: seq<string>, parameterValues: seq<Json>)
      requires |parameterValues| > 0
      ensures Valid() && this.parameterPath == parameterPath && this.parameterValues == parameterValues
      ensures current == 0
    {
      this.parameterPath := parameterPath;
      this.parameterValues := parameterValues;
      current := 0;
    }

    /** current(): asserts the cursor is inside the list. */
    function Current(): (v: Json)
      requires current < |parameterValues|
      reads this
      ensures v in parameterValues
    {
      parameterValues[current]
    }

    method Next()
      modifies this
      ensures current == old(current) + 1
    {
      current := current + 1;
    }

    /** at_end: the cursor has left the list. */
    predicate AtEnd()
      reads this
    {
      current >= |parameterValues|
    }

    method Reset()
      modifies this
      ensures current == 0
    {
      current := 0;
    }

    /** path_as_string: the path keys joined by dots. */
    function PathAsString(): string
    {
      Text.Join('.', parameterPath)
    }

    /** A dotted path splits back into its keys when no key holds a dot. */
    lemma PathAsStringSplits()
      requires |parameterPath| > 0 && forall k :: 0 <= k < |parameterPath| ==> '.' !in parameterPath[k]
      ensures Text.Split(PathAsString(), '.') == parameterPath
    {
      Text.SplitJoin('.', parameterPath);
    }
  }

  /** Each combination of `cs` behind the digits `p`. */
  function Extended(p: seq<nat>, cs: seq<seq<nat>>): (r: seq<seq<nat>>)
    ensures |r| == |cs| && forall j :: 0 <= j < |cs| ==> r[j] == p + cs[j]
  {
    seq(|cs|, j requires 0 <= j < |cs| => p + cs[j])
  }

  lemma ExtendedUpTo(p: seq<nat>, d: nat, cs: seq<seq<nat>>)
    ensures Extended(p, CombosUpTo(d + 1, cs)) == Extended(p, CombosUpTo(d, cs)) + Extended(p + [d], cs)
  {
    var a, b := CombosUpTo(d, cs), Prefixed(d, cs);
    assert CombosUpTo(d + 1, cs) == a + b;
    forall j | 0 <= j < |cs|
      ensures p + b[j] == (p + [d]) + cs[j]
    {
      assert b[j] == [d] + cs[j];
    }
  }

  /** The JSON documentation record of one instance, built key by key. */
  function DocUpTo(id: nat, paths: seq<string>, values: seq<Json>, k: nat): map<string, Json>
    requires k <= |paths| == |values|
  {
    if k == 0 then map["instanceId" := JInt(id)]
    else DocUpTo(id, paths, values, k - 1)[paths[k - 1] := values[k - 1]]
  }

  /**
   * With distinct dotted paths, none of them "instanceId", the record maps
   * "instanceId" to the id and each path to its parameter's value, and
   * holds nothing else.
   */
  lemma {:induction false} DocRecord(id: nat, paths: seq<string>, values: seq<Json>, k: nat)
    requires k <= |paths| == |values|
    requires forall i, j :: 0 <= i < j < |paths| ==> paths[i] != paths[j]
    requires forall i :: 0 <= i < |paths| ==> paths[i] != "instanceId"
    ensures var doc := DocUpTo(id, paths, values, k);
      doc.Keys == {"instanceId"} + set i | 0 <= i < k :: paths[i]
    ensures var doc := DocUpTo(id, paths, values, k);
      doc["instanceId"] == JInt(id) && forall i :: 0 <= i < k ==> doc[paths[i]] == values[i]
    decreases k
  {
    if k > 0 {
      DocRecord(id, paths, values, k - 1);
      assert (set i | 0 <= i < k :: paths[i]) == (set i | 0 <= i < k - 1 :: paths[i]) + {paths[k - 1]};
    }
  }

  /** The configuration file of an instance. */
  function ConfigName(outputDirectory: string, id: nat): string
  {
    outputDirectory + "/i" + Numerals.NatToString(id) + ".json"
  }

  /** The output directory of an instance. */
  function OutputDirectoryName(outputDirectory: string, id: nat): string
  {
    outputDirectory + "/i" + Numerals.NatToString(id) + "/"
  }

  /** Different instances get different files and directories. */
  lemma InstanceNamesDistinct(outputDirectory: string, a: nat, b: nat)
    requires a != b
    ensures ConfigName(outputDirectory, a) != ConfigName(outputDirectory, b)
    ensures OutputDirectoryName(outputDirectory, a) != OutputDirectoryName(outputDirectory, b)
  {
    Numerals.NumberedNamesDistinct(outputDirectory + "/i", a, b, ".json");
    Numerals.NumberedNamesDistinct(outputDirectory + "/i", a, b, "/");
  }

  /** TestSeriesRunner */
  class Runner {
    const executable: string
    const baseConfig: Json
    const parameters: seq<Parameter>
    const simulationLength: real
    const outputDirectory: string
    var instanceCounter: nat
    var documentation: seq<map<string, Json>>
    var written: seq<(string, Json)>

    /** Distinct parameter objects, each with at least one value. */
    ghost predicate Valid()
    {
      (forall i, j :: 0 <= i < j < |parameters| ==> parameters[i] != parameters[j]) &&
      forall i :: 0 <= i < |parameters| ==> parameters[i].Valid()
    }

    constructor (executable: string, baseConfig: Json, parameters: seq<Parameter>,
                 simulationLength: real, outputDirectory: string)
      ensures this.executable == executable && this.baseConfig == baseConfig
      ensures this.parameters == parameters && this.simulationLength == simulationLength
      ensures this.outputDirectory == outputDirectory
      ensures instanceCounter == 0 && documentation == [] && written == []
    {
      this.executable := executable;
      this.baseConfig := baseConfig;
      this.parameters := parameters;
      this.simulationLength := simulationLength;
      this.outputDirectory := outputDirectory;
      instanceCounter := 0;
      documentation := [];
      written := [];
    }

    /** The number of values of each parameter. */
    function Ns(): (ns: seq<nat>)
      ensures |ns| == |parameters|
    {
      seq(|parameters|, k requires 0 <= k < |parameters| => |parameters[k].parameterValues|)
    }

    /** The cursors stand at the digits `d`. */
    ghost predicate CursorsAt(d: seq<nat>)
      reads parameters
    {
      |d| == |parameters| && forall k :: 0 <= k < |parameters| ==> parameters[k].current == d[k]
    }

    function Paths(): seq<seq<string>>
    {
      seq(|parameters|, k requires 0 <= k < |parameters| => parameters[k].parameterPath)
    }

    function PathStrings(): seq<string>
    {
      seq(|parameters|, k requires 0 <= k < |parameters| => parameters[k].PathAsString())
    }

    /** The parameter values at a combination of cursor positions. */
    function ValuesOf(d: seq<nat>): (vs: seq<Json>)
      requires InRange(d, Ns())
      ensures |vs| == |parameters|
    {
      seq(|parameters|, k requires 0 <= k < |parameters| => parameters[k].parameterValues[d[k]])
    }

    /** The configuration after setting the first k parameters. */
    function ConfigUpTo(values: seq<Json>, k: nat): Result<Json>
      requires k <= |parameters| == |values|
    {
      if k == 0 then Ok(baseConfig)
      else
        var before := ConfigUpTo(values, k - 1);
        if before.Err? then before else SetAt(before.value, parameters[k - 1].parameterPath, values[k - 1])
    }

    /** The configuration _create_file writes for a combination. */
    function Config(d: seq<nat>): Result<Json>
      requires InRange(d, Ns())
    {
      var configured := ConfigUpTo(ValuesOf(d), |parameters|);
      if configured.Err? then configured else FixParticlePath(configured.value)
    }

    /** The documentation record of a combination run as instance `id`. */
    function Doc(id: nat, d: seq<nat>): map<string, Json>
      requires InRange(d, Ns())
    {
      DocUpTo(id, PathStrings(), ValuesOf(d), |parameters|)
    }

    /**
     * What building a combination's configuration gives. A cursor outside
     * its list fails current()'s assertion; the runner never gets there.
     */
    function Outcome(d: seq<nat>): Result<Json>
    {
      if InRange(d, Ns()) then Config(d) else Err("AssertionError")
    }

    /** Whether each combination's configuration builds. */
    ghost function Oks(cs: seq<seq<nat>>): (r: seq<bool>)
      ensures |r| == |cs|
    {
      seq(|cs|, j requires 0 <= j < |cs| => Outcome(cs[j]).Ok?)
    }

    /** The records of the combinations run from instance id `start` on (only built ones are recorded). */
    ghost function DocsOf(cs: seq<seq<nat>>, start: nat): (r: seq<map<string, Json>>)
      ensures |r| == |cs|
    {
      seq(|cs|, j requires 0 <= j < |cs| => if InRange(cs[j], Ns()) then Doc(start + j, cs[j]) else map[])
    }

    /** The configuration files written for those combinations (only built ones are written). */
    ghost function FilesOf(cs: seq<seq<nat>>, start: nat): (r: seq<(string, Json)>)
      ensures |r| == |cs|
    {
      seq(|cs|, j requires 0 <= j < |cs| =>
        var c := Outcome(cs[j]); (ConfigName(outputDirectory, start + j), if c.Ok? then c.value else JNull))
    }

    /** The combinations with the digits `prefix` in front, in visiting order. */
    ghost function All(index: nat, prefix: seq<nat>): (r: seq<seq<nat>>)
      requires index <= |parameters| && InRange(prefix, Ns()[..index])
      ensures AllInRange(r)
    {
      var ns := Ns();
      var cs := Combos(ns[index..]);
      CombosInRange(ns[index..]);
      assert ns[..index] + ns[index..] == ns;
      Extended(prefix, cs)
    }

    /** Every combination of the list is a valid set of cursor positions. */
    ghost predicate AllInRange(cs: seq<seq<nat>>)
    {
      forall j :: 0 <= j < |cs| ==> InRange(cs[j], Ns())
    }

    /** The per-combination outcomes of a concatenation are those of its parts. */
    lemma AppendParts(a: seq<seq<nat>>, b: seq<seq<nat>>, start: nat)
      ensures Oks(a + b) == Oks(a) + Oks(b)
      ensures DocsOf(a + b, start) == DocsOf(a, start) + DocsOf(b, start + |a|)
      ensures FilesOf(a + b, start) == FilesOf(a, start) + FilesOf(b, start + |a|)
    {
      assert Oks(a + b) == Oks(a) + Oks(b);
      assert DocsOf(a + b, start) == DocsOf(a, start) + DocsOf(b, start + |a|);
    }

    /** The runner's bookkeeping: instance counter, records and written files. */
    function State(): Progress<Doc>
      reads this
    {
      Progress(instanceCounter, documentation, written)
    }

    /**
     * Running the combinations `cs` from `s0` leads to `s1`: the ones
     * whose configuration builds are run in order, each with the next
     * instance id, until the first that does not, which ends the series.
     */
    ghost predicate Ran(s0: Progress<Doc>, s1: Progress<Doc>, cs: seq<seq<nat>>, ok: bool)
    {
      Accounted(s0, s1, Oks(cs), DocsOf(cs, s0.counter), FilesOf(cs, s0.counter), ok)
    }

    /** Running one list completely and then another is running their concatenation. */
    lemma RanThen(s0: Progress<Doc>, s1: Progress<Doc>, s2: Progress<Doc>, a: seq<seq<nat>>, b: seq<seq<nat>>, ok: bool)
      requires Ran(s0, s1, a, true) && Ran(s1, s2, b, ok)
      ensures Ran(s0, s2, a + b, ok)
    {
      AppendParts(a, b, s0.counter);
      AccountedThen(s0, s1, s2, Oks(a), DocsOf(a, s0.counter), FilesOf(a, s0.counter),
                    Oks(b), DocsOf(b, s1.counter), FilesOf(b, s1.counter), ok);
    }

    /** A run that stopped early stops the same way within any longer list. */
    lemma RanStops(s0: Progress<Doc>, s1: Progress<Doc>, a: seq<seq<nat>>, all: seq<seq<nat>>)
      requires a <= all && Ran(s0, s1, a, false)
      ensures Ran(s0, s1, all, false)
    {
      var rest := all[|a|..];
      assert all == a + rest;
      AppendParts(a, rest, s0.counter);
      AccountedStops(s0, s1, Oks(a), DocsOf(a, s0.counter), FilesOf(a, s0.counter),
                     Oks(rest), DocsOf(rest, s0.counter + |a|), FilesOf(rest, s0.counter + |a|));
    }

    /** Fewer leading values give a prefix of the combinations. */
    lemma {:induction false} ExtendedUpToPrefix(p: seq<nat>, d: nat, n: nat, cs: seq<seq<nat>>)
      requires d <= n
      ensures Extended(p, CombosUpTo(d, cs)) <= Extended(p, CombosUpTo(n, cs))
      decreases n - d
    {
      if d < n {
        ExtendedUpToPrefix(p, d, n - 1, cs);
        ExtendedUpTo(p, n - 1, cs);
      }
    }

    /**
     * _create_file: set every parameter's current value at its path, in
     * parameter order, then prefix the particle path with "../". On
     * success the file is written.
     */
    method CreateFile(newFilename: string, ghost d: seq<nat>) returns (r: Result<Json>)
      requires InRange(d, Ns()) && CursorsAt(d)
      modifies this
      ensures r == Config(d)
      ensures instanceCounter == old(instanceCounter) && documentation == old(documentation)
      ensures written == if r.Ok? then old(written) + [(newFilename, r.value)] else old(written)
    {
      var data := Ok(baseConfig);
      var k := 0;
      while k < |parameters|
        invariant 0 <= k <= |parameters|
        invariant data.Ok? && data == ConfigUpTo(ValuesOf(d), k)
      {
        var param := parameters[k];
        var next := SetAt(data.value, param.parameterPath, param.Current());
        if next.Err? {
          assert forall i :: k < i <= |parameters| ==> ConfigUpTo(ValuesOf(d), i) == next by {
            ConfigStaysFailed(ValuesOf(d), k + 1);
          }
          return next;
        }
        data := next;
        k := k + 1;
      }
      r := FixParticlePath(data.value);
      if r.Ok? {
        written := written + [(newFilename, r.value)];
      }
    }

    /** Once a parameter fails, the configuration stays failed. */
    lemma {:induction false} ConfigStaysFailed(values: seq<Json>, k: nat)
      requires 0 < k <= |parameters| == |values| && ConfigUpTo(values, k).Err?
      ensures forall i :: k <= i <= |parameters| ==> ConfigUpTo(values, i) == ConfigUpTo(values, k)
      decreases |parameters| - k
    {
      if k < |parameters| {
        ConfigStaysFailed(values, k + 1);
      }
    }

    /** _create_param_documentation */
    method CreateParamDocumentation(ghost d: seq<nat>) returns (res: map<string, Json>)
      requires InRange(d, Ns()) && CursorsAt(d)
      ensures res == Doc(instanceCounter, d)
    {
      res := map["instanceId" := JInt(instanceCounter)];
      var k := 0;
      while k < |parameters|
        invariant 0 <= k <= |parameters|
        invariant res == DocUpTo(instanceCounter, PathStrings(), ValuesOf(d), k)
      {
        var param := parameters[k];
        res := res[param.PathAsString() := param.Current()];
        k := k + 1;
      }
    }

    /**
     * _run_instance: build and write the configuration "i<id>.json", record
     * the documentation, and count the instance. A configuration that
     * cannot be built ends the run before anything is recorded.
     */
    method RunInstance(ghost d: seq<nat>) returns (ok: bool)
      requires InRange(d, Ns()) && CursorsAt(d)
      modifies this
      ensures ok == Config(d).Ok?
      ensures ok ==> (instanceCounter == old(instanceCounter) + 1 &&
        documentation == old(documentation) + [Doc(old(instanceCounter), d)] &&
        written == old(written) + [(ConfigName(outputDirectory, old(instanceCounter)), Config(d).value)])
      ensures !ok ==> (instanceCounter == old(instanceCounter) && documentation == old(documentation) &&
        written == old(written))
    {
      var newFilepath := ConfigName(outputDirectory, instanceCounter);
      var r := CreateFile(newFilepath, d);
      if r.Err? {
        return false;
      }
      var doc := CreateParamDocumentation(d);
      documentation := documentation + [doc];
      instanceCounter := instanceCounter + 1;
      ok := true;
    }

    /** The combinations of parameter `index` taking its first d values, behind `prefix`. */
    ghost function Done(index: nat, prefix: seq<nat>, d: nat): seq<seq<nat>>
      requires index < |parameters|
    {
      Extended(prefix, CombosUpTo(d, Combos(Ns()[index + 1..])))
    }

    /** They come first among all combinations behind `prefix`, and the next value's follow them. */
    lemma DoneGrows(index: nat, prefix: seq<nat>, cur: nat)
      requires index < |parameters| && InRange(prefix, Ns()[..index]) && cur < Ns()[index]
      ensures Done(index, prefix, cur + 1) <= All(index, prefix)
      ensures Done(index, prefix, cur + 1) == Done(index, prefix, cur) + Extended(prefix + [cur], Combos(Ns()[index + 1..]))
    {
      var ns := Ns();
      var cs := Combos(ns[index + 1..]);
      var n := ns[index];
      assert ns[index..] == [n] + ns[index + 1..];
      assert All(index, prefix) == Extended(prefix, CombosUpTo(n, cs));
      ExtendedUpTo(prefix, cur, cs);
      ExtendedUpToPrefix(prefix, cur + 1, n, cs);
    }

    /** Before the first value nothing is done; after the last, everything. */
    lemma DoneAll(index: nat, prefix: seq<nat>)
      requires index < |parameters| && InRange(prefix, Ns()[..index])
      ensures Done(index, prefix, 0) == [] && Done(index, prefix, Ns()[index]) == All(index, prefix)
    {
      var ns := Ns();
      assert ns[index..] == [ns[index]] + ns[index + 1..];
    }

    /** One more value of parameter `index` visited: the runs so far extend, or the series has stopped. */
    lemma AfterVisit(index: nat, prefix: seq<nat>, cur: nat, start: Progress<Doc>, before: Progress<Doc>, after: Progress<Doc>, ok: bool)
      requires index < |parameters| && InRange(prefix, Ns()[..index])
      requires InRange(prefix + [cur], Ns()[..index + 1])
      requires Ran(start, before, Done(index, prefix, cur), true)
      requires Ran(before, after, All(index + 1, prefix + [cur]), ok)
      ensures Done(index, prefix, cur + 1) <= All(index, prefix)
      ensures ok ==> Ran(start, after, Done(index, prefix, cur + 1), true)
      ensures !ok ==> Ran(start, after, All(index, prefix), false)
    {
      var p := prefix + [cur];
      assert cur < Ns()[index];
      DoneGrows(index, prefix, cur);
      var next := All(index + 1, p);
      RanThen(start, before, after, Done(index, prefix, cur), next, ok);
      if !ok {
        RanStops(start, after, Done(index, prefix, cur + 1), All(index, prefix));
      }
    }

    /**
     * _param_recurse(index): for each value of parameter `index`, recurse
     * into the next parameter or, at the last one, run an instance; then
     * reset the parameter. The parameters after `index` start at their
     * first values, and the ones before it stay where they are.
     */
    method ParamRecurse(index: nat, ghost prefix: seq<nat>) returns (ok: bool)
      requires Valid() && index < |parameters| && InRange(prefix, Ns()[..index])
      requires CursorsAt(prefix + Zeros(|parameters| - index))
      modifies this, parameters
      ensures Ran(old(State()), State(), All(index, prefix), ok)
      ensures ok ==> CursorsAt(prefix + Zeros(|parameters| - index))
      decreases |parameters| - index, 3
    {
      ghost var zs := Zeros(|parameters| - index - 1);
      assert prefix + Zeros(|parameters| - index) == prefix + [0] + zs;
      ok := VisitAll(index, prefix);
      if ok {
        ghost var d := prefix + [Ns()[index]] + zs;
        ResetParameter(index, d);
        assert d[index := 0] == prefix + Zeros(|parameters| - index);
      }
    }

    /** The loop of _param_recurse: every value of parameter `index` visited in turn, until one fails. */
    method VisitAll(index: nat, ghost prefix: seq<nat>) returns (ok: bool)
      requires Valid() && index < |parameters| && InRange(prefix, Ns()[..index])
      requires CursorsAt(prefix + [0] + Zeros(|parameters| - index - 1))
      modifies this, parameters
      ensures Ran(old(State()), State(), All(index, prefix), ok)
      ensures ok ==> CursorsAt(prefix + [Ns()[index]] + Zeros(|parameters| - index - 1))
      decreases |parameters| - index, 2
    {
      var param := parameters[index];
      ghost var ns := Ns();
      ghost var n := ns[index];
      ghost var zs := Zeros(|parameters| - index - 1);
      ghost var start := State();
      DoneAll(index, prefix);
      ok := true;
      ghost var cur := 0;
      while !param.AtEnd()
        invariant cur <= n && param.current == cur
        invariant CursorsAt(prefix + [cur] + zs)
        invariant Ran(start, State(), Done(index, prefix, cur), true)
        decreases |param.parameterValues| - param.current
      {
        InRangeSnoc(prefix, ns, index, cur);
        ok := Visit(index, prefix, cur, start);
        if !ok {
          return;
        }
        cur := cur + 1;
      }
      assert cur == n;
      assert Done(index, prefix, cur) == All(index, prefix);
    }

    /** `param.reset()` on parameter `index`, with every other cursor kept. */
    method ResetParameter(index: nat, ghost d: seq<nat>)
      requires Valid() && index < |parameters| && CursorsAt(d)
      modifies parameters[index]
      ensures CursorsAt(d[index := 0])
    {
      parameters[index].Reset();
    }

    /** `param.next()` on parameter `index`, with every other cursor kept. */
    method StepParameter(index: nat, ghost d: seq<nat>)
      requires Valid() && index < |parameters| && CursorsAt(d)
      modifies parameters[index]
      ensures CursorsAt(d[index := d[index] + 1]) && parameters[index].current == d[index] + 1
    {
      parameters[index].Next();
    }

    /**
     * The body of _param_recurse's loop for value `cur` of parameter
     * `index`: recurse into the next parameter or run an instance, then
     * step the parameter. The series since `start` extends by the
     * combinations behind `prefix + [cur]`, or stops.
     */
    method Visit(index: nat, ghost prefix: seq<nat>, ghost cur: nat, ghost start: Progress<Doc>) returns (ok: bool)
      requires Valid() && index < |parameters| && InRange(prefix + [cur], Ns()[..index + 1])
      requires InRange(prefix, Ns()[..index])
      requires CursorsAt(prefix + [cur] + Zeros(|parameters| - index - 1))
      requires Ran(start, State(), Done(index, prefix, cur), true)
      modifies this, parameters
      ensures ok ==> CursorsAt(prefix + [cur + 1] + Zeros(|parameters| - index - 1))
      ensures ok ==> parameters[index].current == cur + 1
      ensures ok ==> Ran(start, State(), Done(index, prefix, cur + 1), true)
      ensures !ok ==> Ran(start, State(), All(index, prefix), false)
      decreases |parameters| - index, 1
    {
      ghost var p := prefix + [cur];
      ghost var before := State();
      ok := Descend(index, p);
      AfterVisit(index, prefix, cur, start, before, State(), ok);
      if ok {
        StepParameter(index, p + Zeros(|parameters| - index - 1));
        assert (p + Zeros(|parameters| - index - 1))[index := cur + 1] == prefix + [cur + 1] + Zeros(|parameters| - index - 1);
      }
    }

    /**
     * Inside the loop of _param_recurse at value combination `p` of the
     * first `index + 1` parameters: recurse into the next parameter, or
     * at the last one run an instance.
     */
    method Descend(index: nat, ghost p: seq<nat>) returns (ok: bool)
      requires Valid() && index < |parameters| && InRange(p, Ns()[..index + 1])
      requires CursorsAt(p + Zeros(|parameters| - index - 1))
      modifies this, parameters
      ensures Ran(old(State()), State(), All(index + 1, p), ok)
      ensures ok ==> CursorsAt(p + Zeros(|parameters| - index - 1))
      decreases |parameters| - index, 0
    {
      if index + 1 < |parameters| {
        ok := ParamRecurse(index + 1, p);
      } else {
        assert p + Zeros(0) == p;
        ok := RunInstance(p);
        assert All(index + 1, p) == [p];
      }
    }

    /**
     * evaluate: with the instance counter at 0, run the whole series and
     * save the documentation records as "instance_docs.json".
     */
    method Evaluate() returns (ok: bool)
      requires Valid() && instanceCounter == 0 && |parameters| > 0
      requires CursorsAt(Zeros(|parameters|))
      modifies this, parameters
      ensures var cs := All(0, []); var m := LeadingTrue(Oks(cs));
        ok == (m == |cs|) && instanceCounter == m &&
        documentation == old(documentation) + DocsOf(cs, 0)[..m] &&
        written == old(written) + FilesOf(cs, 0)[..m] +
          (if ok then [(outputDirectory + "/instance_docs.json", DocsFile(documentation))] else [])
    {
      ok := ParamRecurse(0, []);
      if ok {
        written := written + [(outputDirectory + "/instance_docs.json", DocsFile(documentation))];
      }
    }
  }

  /** A documentation record: "instanceId" and the dotted parameter paths mapped to values. */
  type Doc = map<string, Json>

  /** A runner's bookkeeping at one moment: instance counter, records and written files. */
  datatype Progress<D> = Progress(counter: nat, docs: seq<D>, written: seq<(string, Json)>)

  /** How many entries at the front are true. */
  function LeadingTrue(oks: seq<bool>): (m: nat)
    ensures m <= |oks| && forall j :: 0 <= j < m ==> oks[j]
    ensures m < |oks| ==> !oks[m]
    decreases |oks|
  {
    if oks == [] || !oks[0] then 0 else 1 + LeadingTrue(oks[1..])
  }

  lemma {:induction false} LeadingTrueAppend(a: seq<bool>, b: seq<bool>)
    ensures LeadingTrue(a + b) == if LeadingTrue(a) < |a| then LeadingTrue(a) else |a| + LeadingTrue(b)
    decreases |a|
  {
    if a == [] {
      assert a + b == b;
    } else {
      assert (a + b)[0] == a[0] && (a + b)[1..] == a[1..] + b;
      LeadingTrueAppend(a[1..], b);
    }
  }

  /**
   * Bookkeeping of a series of attempts: the attempts before the first
   * failing one are counted, and their records and files appended; `ok`
   * says no attempt failed.
   */
  ghost predicate Accounted<D>(s0: Progress<D>, s1: Progress<D>, oks: seq<bool>, docs: seq<D>,
                      files: seq<(string, Json)>, ok: bool)
    requires |docs| == |oks| && |files| == |oks|
  {
    var m := LeadingTrue(oks);
    ok == (m == |oks|) &&
    s1.counter == s0.counter + m &&
    s1.docs == s0.docs + docs[..m] &&
    s1.written == s0.written + files[..m]
  }

  /** Two series of attempts, the first without failure, account as one. */
  lemma AccountedThen<D>(s0: Progress<D>, s1: Progress<D>, s2: Progress<D>,
                      oa: seq<bool>, da: seq<D>, fa: seq<(string, Json)>,
                      ob: seq<bool>, db: seq<D>, fb: seq<(string, Json)>, ok: bool)
    requires |da| == |oa| && |fa| == |oa| && |db| == |ob| && |fb| == |ob|
    requires Accounted(s0, s1, oa, da, fa, true) && Accounted(s1, s2, ob, db, fb, ok)
    ensures Accounted(s0, s2, oa + ob, da + db, fa + fb, ok)
  {
    LeadingTrueAppend(oa, ob);
    var m := LeadingTrue(ob);
    assert (da + db)[..|oa| + m] == da + db[..m];
    assert (fa + fb)[..|oa| + m] == fa + fb[..m];
    assert da[..|oa|] == da && fa[..|oa|] == fa;
  }

  /** A series that failed accounts the same with more attempts after it. */
  lemma AccountedStops<D>(s0: Progress<D>, s1: Progress<D>,
                       oa: seq<bool>, da: seq<D>, fa: seq<(string, Json)>,
                       ob: seq<bool>, db: seq<D>, fb: seq<(string, Json)>)
    requires |da| == |oa| && |fa| == |oa| && |db| == |ob| && |fb| == |ob|
    requires Accounted(s0, s1, oa, da, fa, false)
    ensures Accounted(s0, s1, oa + ob, da + db, fa + fb, false)
  {
    LeadingTrueAppend(oa, ob);
    var m := LeadingTrue(oa);
    assert (da + db)[..m] == da[..m];
    assert (fa + fb)[..m] == fa[..m];
  }

  /** _save_documentation's content: the list of records. */
  function DocsFile(docs: seq<Doc>): Json
  {
    JArray(seq(|docs|, j requires 0 <= j < |docs| => JObject(docs[j])))
  }
}
