/**
 * The older test-series runner of test-series/test_series.py. Its
 * Parameter cursor is the framework's (TestSeries.Parameter). The runner
 * writes each configuration as "i<id>.yaml", creates the directory
 * "i<id>/", records a CSV row per instance and finally writes
 * "instance_docs.csv".
 *
 * Its _param_recurse never resets a parameter. Once the inner parameters
 * have run through their values they stay at their ends, so later values
 * of an outer parameter run nothing: only the last parameter's column
 * behind all-first values is run. SecondValueNeverRun exhibits this; the
 * framework runner (TestSeries.Runner.ParamRecurse) resets and runs every
 * combination.
 *
 * Reading the base YAML file, creating directories and launching the
 * solver are I/O: the base configuration is a value, str() of a YAML value
 * is the function `show`, and written files are entries of `written`
 * (configurations) and `textFiles` (the CSV file).
 */
module TestSeriesLegacy {
  import opened Wrappers
  import opened Odometer
  import Text
  import Numerals
  import TestSeries

  type Json = TestSeries.Json

  /** A CSV row: the instance id, then each parameter's value as text. */
  type Row = seq<string>

  /** The configuration file of an instance. */
  function YamlName(id: nat): string
  {
    "i" + Numerals.NatToString(id) + ".yaml"
  }

  /** The output directory of an instance. */
  function DirectoryName(id: nat): string
  {
    "i" + Numerals.NatToString(id) + "/"
  }

  /** Different instances get different files and directories. */
  lemma InstanceNamesDistinct(a: nat, b: nat)
    requires a != b
    ensures YamlName(a) != YamlName(b) && DirectoryName(a) != DirectoryName(b)
  {
    Numerals.NumberedNamesDistinct("i", a, b, ".yaml");
    Numerals.NumberedNamesDistinct("i", a, b, "/");
  }

  /** `";".join(line)` for every line of the document. */
  function CsvLines(document: seq<Row>): (lines: seq<string>)
    ensures |lines| == |document|
  {
    seq(|document|, j requires 0 <= j < |document| => Text.Join(';', document[j]))
  }

  /** What `stream.writelines(lines)` writes: the lines back to back, with nothing between them. */
  function WrittenAsIs(lines: seq<string>): string
    decreases |lines|
  {
    if lines == [] then "" else lines[0] + WrittenAsIs(lines[1..])
  }

  /** The lines each ended by "\r\n", the line end the file was opened with. */
  function Terminated(lines: seq<string>): string
    decreases |lines|
  {
    if lines == [] then "" else lines[0] + "\r\n" + Terminated(lines[1..])
  }

  /** The CSV file "instance_docs.csv" holds for a document, one line per row. */
  function CsvText(document: seq<Row>): string
  {
    Terminated(CsvLines(document))
  }

  /** A line read back: its trailing carriage return dropped. */
  function Chomp(line: string): string
  {
    if |line| > 0 && line[|line| - 1] == '\r' then line[..|line| - 1] else line
  }

  /**
   * Reading a CSV text as a line reader does: the pieces between line ends,
   * without the empty piece after a final line end, each split at ';'. A
   * last line without a line end is still read.
   */
  function ReadCsv(text: string): (document: seq<Row>)
  {
    var pieces := Text.Split(text, '\n');
    var lines := if pieces[|pieces| - 1] == "" then pieces[..|pieces| - 1] else pieces;
    seq(|lines|, j requires 0 <= j < |lines| => Text.Split(Chomp(lines[j]), ';'))
  }

  /** A cell that a CSV line can carry without being cut. */
  predicate PlainCell(cell: string)
  {
    ';' !in cell && '\n' !in cell
  }

  /** Every row has a cell, and no cell holds a separator or a line end. */
  predicate PlainDocument(document: seq<Row>)
  {
    forall j :: 0 <= j < |document| ==>
      |document[j]| > 0 && forall k :: 0 <= k < |document[j]| ==> PlainCell(document[j][k])
  }

  /** Terminated lines are the lines with "\r" appended, joined by newlines, with a final newline. */
  lemma {:induction false} TerminatedJoin(lines: seq<string>)
    ensures Terminated(lines) == Text.Join('\n', seq(|lines|, j requires 0 <= j < |lines| => lines[j] + "\r") + [""])
    decreases |lines|
  {
    var cr := seq(|lines|, j requires 0 <= j < |lines| => lines[j] + "\r");
    if lines != [] {
      TerminatedJoin(lines[1..]);
      var rest := seq(|lines| - 1, j requires 0 <= j < |lines| - 1 => lines[1..][j] + "\r");
      assert (cr + [""])[1..] == rest + [""];
      assert (cr + [""])[0] == lines[0] + "\r";
    }
  }

  /** A line of cells without line ends holds no newline. */
  lemma JoinPlain(row: Row)
    requires forall k :: 0 <= k < |row| ==> PlainCell(row[k])
    ensures '\n' !in Text.Join(';', row)
    decreases |row|
  {
    if |row| > 1 {
      JoinPlain(row[1..]);
    }
  }

  /**
   * With the intended line ends the CSV file reads back as the document
   * it was written from.
   */
  lemma CsvRoundTrip(document: seq<Row>)
    requires PlainDocument(document)
    ensures ReadCsv(CsvText(document)) == document
  {
    var lines := CsvLines(document);
    var cr := seq(|lines|, j requires 0 <= j < |lines| => lines[j] + "\r");
    TerminatedJoin(lines);
    forall j | 0 <= j < |cr|
      ensures '\n' !in cr[j]
    {
      JoinPlain(document[j]);
    }
    forall k | 0 <= k < |cr + [""]|
      ensures '\n' !in (cr + [""])[k]
    {
      if k < |cr| {
        assert (cr + [""])[k] == cr[k];
      }
    }
    Text.SplitJoin('\n', cr + [""]);
    var read := ReadCsv(CsvText(document));
    assert |read| == |document|;
    forall j | 0 <= j < |document|
      ensures read[j] == document[j]
    {
      assert (cr + [""])[..|cr|][j] == lines[j] + "\r";
      assert Chomp(lines[j] + "\r") == lines[j];
      Text.SplitJoin(';', document[j]);
    }
  }

  /** Without line ends the whole document is one unterminated line: nothing reads back. */
  lemma {:induction false} WrittenAsIsHasNoLineEnd(document: seq<Row>)
    requires PlainDocument(document)
    ensures '\n' !in WrittenAsIs(CsvLines(document))
    decreases |document|
  {
    if document != [] {
      JoinPlain(document[0]);
      WrittenAsIsHasNoLineEnd(document[1..]);
      assert CsvLines(document)[1..] == CsvLines(document[1..]);
    }
  }

  /**
   * As written, all rows merge into one unterminated line: the file reads
   * back as at most one row, so never as a document of two or more rows,
   * and only a lone header line comes back as itself.
   */
  lemma WrittenAsIsMergesRows(document: seq<Row>)
    requires PlainDocument(document)
    ensures |ReadCsv(WrittenAsIs(CsvLines(document)))| <= 1
    ensures |document| >= 2 ==> ReadCsv(WrittenAsIs(CsvLines(document))) != document
    ensures |document| == 1 && CsvLines(document)[0] != "" && Chomp(CsvLines(document)[0]) == CsvLines(document)[0]
      ==> ReadCsv(WrittenAsIs(CsvLines(document))) == document
  {
    var text := WrittenAsIs(CsvLines(document));
    WrittenAsIsHasNoLineEnd(document);
    assert Text.IndexOf(text, '\n') == |text|;
    assert Text.Split(text, '\n') == [text];
    if |document| == 1 {
      var line := CsvLines(document)[0];
      assert CsvLines(document)[1..] == [];
      assert text == line;
      if line != "" && Chomp(line) == line {
        Text.SplitJoin(';', document[0]);
      }
    }
  }

  /** TestSeriesRunner of the older script. */
  class Runner {
    const executable: string
    const baseConfig: Json
    const parameters: seq<TestSeries.Parameter>
    const simulationLength: real
    /** str() of a YAML value. */
    const show: Json -> string
    var instanceCounter: nat
    var documentation: seq<Row>
    var written: seq<(string, Json)>
    var textFiles: seq<(string, string)>

    /** Distinct parameter objects, each with at least one value. */
    ghost predicate Valid()
    {
      (forall i, j :: 0 <= i < j < |parameters| ==> parameters[i] != parameters[j]) &&
      forall i :: 0 <= i < |parameters| ==> parameters[i].Valid()
    }

    constructor (executable: string, baseConfig: Json, parameters: seq<TestSeries.Parameter>,
                 simulationLength: real, show: Json -> string)
      ensures this.executable == executable && this.baseConfig == baseConfig
      ensures this.parameters == parameters && this.simulationLength == simulationLength
      ensures this.show == show
      ensures instanceCounter == 0 && documentation == [] && written == [] && textFiles == []
    {
      this.executable := executable;
      this.baseConfig := baseConfig;
      this.parameters := parameters;
      this.simulationLength := simulationLength;
      this.show := show;
      instanceCounter := 0;
      documentation := [];
      written := [];
      textFiles := [];
    }

    /** The number of values of each parameter. */
    function Ns(): (ns: seq<nat>)
      ensures |ns| == |parameters|
    {
      seq(|parameters|, k requires 0 <= k < |parameters| => |parameters[k].parameterValues|)
    }

    /** The cursors stand at the digits `d`. */
    ghost predicate CursorsAt(d: seq<nat>)
      reads parameters
    {
      |d| == |parameters| && forall k :: 0 <= k < |parameters| ==> parameters[k].current == d[k]
    }

    /** The parameter values at a combination of cursor positions. */
    function ValuesOf(d: seq<nat>): (vs: seq<Json>)
      requires InRange(d, Ns())
      ensures |vs| == |parameters|
    {
      seq(|parameters|, k requires 0 <= k < |parameters| => parameters[k].parameterValues[d[k]])
    }

    /** The configuration after setting the first k parameters. */
    function ConfigUpTo(values: seq<Json>, k: nat): Result<Json>
      requires k <= |parameters| == |values|
    {
      if k == 0 then Ok(baseConfig)
      else
        var before := ConfigUpTo(values, k - 1);
        if before.Err? then before else TestSeries.SetAt(before.value, parameters[k - 1].parameterPath, values[k - 1])
    }

    /** The configuration _create_file writes for a combination. */
    function Config(d: seq<nat>): Result<Json>
      requires InRange(d, Ns())
    {
      ConfigUpTo(ValuesOf(d), |parameters|)
    }

    /** Once a parameter fails, the configuration stays failed. */
    lemma {:induction false} ConfigStaysFailed(values: seq<Json>, k: nat)
      requires 0 < k <= |parameters| == |values| && ConfigUpTo(values, k).Err?
      ensures forall i :: k <= i <= |parameters| ==> ConfigUpTo(values, i) == ConfigUpTo(values, k)
      decreases |parameters| - k
    {
      if k < |parameters| {
        ConfigStaysFailed(values, k + 1);
      }
    }

    /** The CSV row of a combination run as instance `id`. */
    function RowOf(id: nat, d: seq<nat>): Row
      requires InRange(d, Ns())
    {
      var values := ValuesOf(d);
      [Numerals.NatToString(id)] + seq(|parameters|, k requires 0 <= k < |parameters| => show(values[k]))
    }

    /** A row starts with the id, which reads back as the number, followed by each value's text. */
    lemma RowFields(id: nat, d: seq<nat>)
      requires InRange(d, Ns())
      ensures var row := RowOf(id, d);
        |row| == |parameters| + 1 &&
        (forall c :: 0 <= c < |row[0]| ==> Numerals.IsDigit(row[0][c])) && Numerals.ParseNat(row[0]) == id &&
        forall k :: 0 <= k < |parameters| ==> row[k + 1] == show(parameters[k].parameterValues[d[k]])
    {
      Numerals.ParseOfNatToString(id);
    }

    /** The CSV header: "instance id", then each parameter's path joined by spaces. */
    function Header(): (header: Row)
      ensures |header| == |parameters| + 1 && header[0] == "instance id"
    {
      ["instance id"] + seq(|parameters|, k requires 0 <= k < |parameters| => Text.Join(' ', parameters[k].parameterPath))
    }

    /** A header cell splits back into its path when no key holds a space. */
    lemma HeaderPaths(k: nat)
      requires k < |parameters| && |parameters[k].parameterPath| > 0
      requires forall i :: 0 <= i < |parameters[k].parameterPath| ==> ' ' !in parameters[k].parameterPath[i]
      ensures Text.Split(Header()[k + 1], ' ') == parameters[k].parameterPath
    {
      Text.SplitJoin(' ', parameters[k].parameterPath);
    }

    /** What building a combination's configuration gives; a cursor outside its list fails current()'s assertion. */
    function Outcome(d: seq<nat>): Result<Json>
    {
      if InRange(d, Ns()) then Config(d) else Err("AssertionError")
    }

    /** Whether each combination's configuration builds. */
    ghost function Oks(cs: seq<seq<nat>>): (r: seq<bool>)
      ensures |r| == |cs|
    {
      seq(|cs|, j requires 0 <= j < |cs| => Outcome(cs[j]).Ok?)
    }

    /** The rows of the combinations run from instance id `start` on. */
    ghost function RowsOf(cs: seq<seq<nat>>, start: nat): (r: seq<Row>)
      ensures |r| == |cs|
    {
      seq(|cs|, j requires 0 <= j < |cs| => if InRange(cs[j], Ns()) then RowOf(start + j, cs[j]) else [])
    }

    /** The configuration files written for those combinations. */
    ghost function FilesOf(cs: seq<seq<nat>>, start: nat): (r: seq<(string, Json)>)
      ensures |r| == |cs|
    {
      seq(|cs|, j requires 0 <= j < |cs| =>
        var c := Outcome(cs[j]); (YamlName(start + j), if c.Ok? then c.value else TestSeries.JNull))
    }

    /** The runner's bookkeeping: instance counter, rows and written configurations. */
    function State(): TestSeries.Progress<Row>
      reads this
    {
      TestSeries.Progress(instanceCounter, documentation, written)
    }

    /**
     * Running the combinations `cs` from `s0` leads to `s1`: the ones
     * whose configuration builds run in order, each with the next instance
     * id, until the first that does not, which ends the series.
     */
    ghost predicate Ran(s0: TestSeries.Progress<Row>, s1: TestSeries.Progress<Row>, cs: seq<seq<nat>>, ok: bool)
    {
      TestSeries.Accounted(s0, s1, Oks(cs), RowsOf(cs, s0.counter), FilesOf(cs, s0.counter), ok)
    }

    lemma OksAppend(a: seq<seq<nat>>, b: seq<seq<nat>>)
      ensures Oks(a + b) == Oks(a) + Oks(b)
    {
      assert Oks(a + b) == Oks(a) + Oks(b);
    }

    lemma RowsAppend(a: seq<seq<nat>>, b: seq<seq<nat>>, start: nat, next: nat)
      requires next == start + |a|
      ensures RowsOf(a + b, start) == RowsOf(a, start) + RowsOf(b, next)
    {
      assert RowsOf(a + b, start) == RowsOf(a, start) + RowsOf(b, next);
    }

    lemma FilesAppend(a: seq<seq<nat>>, b: seq<seq<nat>>, start: nat, next: nat)
      requires next == start + |a|
      ensures FilesOf(a + b, start) == FilesOf(a, start) + FilesOf(b, next)
    {
      assert FilesOf(a + b, start) == FilesOf(a, start) + FilesOf(b, next);
    }

    /** Running nothing changes nothing and does not fail. */
    lemma RanNothing(s0: TestSeries.Progress<Row>, s1: TestSeries.Progress<Row>, ok: bool)
      ensures Ran(s0, s1, [], ok) <==> ok && s1 == s0
    {
      assert RowsOf([], s0.counter)[..0] == [] && FilesOf([], s0.counter)[..0] == [];
      if Ran(s0, s1, [], ok) {
        assert s1.docs == s0.docs && s1.written == s0.written;
      }
    }

    /** Running one list completely and then another is running their concatenation. */
    lemma RanThen(s0: TestSeries.Progress<Row>, s1: TestSeries.Progress<Row>, s2: TestSeries.Progress<Row>,
                  a: seq<seq<nat>>, b: seq<seq<nat>>, ok: bool)
      requires Ran(s0, s1, a, true) && Ran(s1, s2, b, ok)
      ensures Ran(s0, s2, a + b, ok)
    {
      OksAppend(a, b);
      RowsAppend(a, b, s0.counter, s1.counter);
      FilesAppend(a, b, s0.counter, s1.counter);
      TestSeries.AccountedThen(s0, s1, s2, Oks(a), RowsOf(a, s0.counter), FilesOf(a, s0.counter),
                               Oks(b), RowsOf(b, s1.counter), FilesOf(b, s1.counter), ok);
    }

    /** A run that stopped early stops the same way within any longer list. */
    lemma RanStops(s0: TestSeries.Progress<Row>, s1: TestSeries.Progress<Row>, a: seq<seq<nat>>, all: seq<seq<nat>>)
      requires a <= all && Ran(s0, s1, a, false)
      ensures Ran(s0, s1, all, false)
    {
      var rest := all[|a|..];
      assert all == a + rest;
      OksAppend(a, rest);
      RowsAppend(a, rest, s0.counter, s0.counter + |a|);
      FilesAppend(a, rest, s0.counter, s0.counter + |a|);
      TestSeries.AccountedStops(s0, s1, Oks(a), RowsOf(a, s0.counter), FilesOf(a, s0.counter),
                                Oks(rest), RowsOf(rest, s0.counter + |a|), FilesOf(rest, s0.counter + |a|));
    }

    /** The cursors from parameter `index` on: all at their first values, or all past their ends. */
    function From(index: nat, initial: bool): (d: seq<nat>)
      requires index <= |parameters|
      ensures |d| == |parameters| - index
    {
      if initial then Zeros(|parameters| - index) else Ns()[index..]
    }

    /**
     * The combinations the older _param_recurse(index) runs when the
     * parameters from `index` on stand at their first values: the last
     * parameter's values, behind `prefix` and first values.
     */
    ghost function Column(index: nat, prefix: seq<nat>): (cs: seq<seq<nat>>)
      requires index < |parameters|
      ensures |cs| == Ns()[|parameters| - 1]
    {
      var z := Zeros(|parameters| - 1 - index);
      seq(Ns()[|parameters| - 1], k requires 0 <= k < Ns()[|parameters| - 1] => prefix + z + [k])
    }

    /**
     * What the loop over parameter `index` has run once its cursor reaches
     * `cur`: at the last parameter, the first `cur` values; further out,
     * the whole column after the first value; nothing when it started
     * past its end.
     */
    ghost function Expected(index: nat, prefix: seq<nat>, initial: bool, cur: nat): seq<seq<nat>>
      requires index < |parameters| && cur <= Ns()[index]
    {
      if !initial then []
      else if index + 1 == |parameters| then Column(index, prefix)[..cur]
      else if cur == 0 then [] else Column(index, prefix)
    }

    /** The cursors behind parameter `index` while its cursor is at `cur`. */
    function Inner(index: nat, initial: bool, cur: nat): seq<nat>
      requires index < |parameters|
    {
      From(index + 1, initial && cur == 0)
    }

    /**
     * _param_recurse(index), which never resets: while parameter `index`
     * is not at its end, recurse into the next parameter or, at the last
     * one, run an instance; then step it. From first values it runs the
     * column of the last parameter; from ends it runs nothing. Either way
     * it leaves every cursor from `index` on past its end.
     */
    method ParamRecurse(index: nat, ghost prefix: seq<nat>, ghost initial: bool) returns (ok: bool)
      requires Valid() && index < |parameters| && InRange(prefix, Ns()[..index])
      requires CursorsAt(prefix + From(index, initial))
      modifies this, parameters
      ensures Ran(old(State()), State(), if initial then Column(index, prefix) else [], ok)
      ensures ok ==> CursorsAt(prefix + Ns()[index..])
      ensures textFiles == old(textFiles)
      decreases |parameters| - index, 2
    {
      var param := parameters[index];
      ghost var ns := Ns();
      ghost var n := ns[index];
      ghost var start := State();
      ghost var cur := if initial then 0 else n;
      EntrySplit(index, prefix, initial, cur);
      RanNothing(start, start, true);
      ok := true;
      while !param.AtEnd()
        invariant cur <= n && param.current == cur && (!initial ==> cur == n)
        invariant CursorsAt(prefix + [cur] + Inner(index, initial, cur))
        invariant Ran(start, State(), Expected(index, prefix, initial, cur), true)
        invariant textFiles == old(textFiles)
        decreases |param.parameterValues| - param.current
      {
        ok := Visit(index, prefix, cur, start);
        if !ok {
          return;
        }
        cur := cur + 1;
      }
      ExitSplit(index, prefix, initial, cur);
    }

    /** Where the loop of _param_recurse starts: parameter `index` at `cur`, the later ones behind it. */
    lemma EntrySplit(index: nat, prefix: seq<nat>, initial: bool, cur: nat)
      requires index < |parameters| && cur == if initial then 0 else Ns()[index]
      ensures prefix + From(index, initial) == prefix + [cur] + Inner(index, initial, cur)
    {
      assert Ns()[index..] == [Ns()[index]] + Ns()[index + 1..];
      assert From(index, initial) == [cur] + Inner(index, initial, cur);
    }

    /** Where the loop ends: everything expected has run and every cursor from `index` on is past its end. */
    lemma ExitSplit(index: nat, prefix: seq<nat>, initial: bool, cur: nat)
      requires Valid() && index < |parameters| && cur == Ns()[index]
      ensures Expected(index, prefix, initial, cur) == if initial then Column(index, prefix) else []
      ensures prefix + [cur] + Inner(index, initial, cur) == prefix + Ns()[index..]
    {
      assert parameters[index].Valid();
      if index + 1 == |parameters| {
        assert Column(index, prefix)[..cur] == Column(index, prefix);
      }
      assert Ns()[index..] == [Ns()[index]] + Ns()[index + 1..];
      assert [cur] + Inner(index, initial, cur) == Ns()[index..];
    }

    /**
     * One pass of _param_recurse's loop at value `cur` of parameter
     * `index`, which started at its first value: recurse or run an
     * instance, then step the parameter.
     */
    method Visit(index: nat, ghost prefix: seq<nat>, ghost cur: nat, ghost start: TestSeries.Progress<Row>) returns (ok: bool)
      requires Valid() && index < |parameters| && InRange(prefix, Ns()[..index]) && cur < Ns()[index]
      requires CursorsAt(prefix + [cur] + Inner(index, true, cur))
      requires Ran(start, State(), Expected(index, prefix, true, cur), true)
      modifies this, parameters
      ensures ok ==> CursorsAt(prefix + [cur + 1] + Inner(index, true, cur + 1))
      ensures ok ==> parameters[index].current == cur + 1
      ensures ok ==> Ran(start, State(), Expected(index, prefix, true, cur + 1), true)
      ensures !ok ==> Ran(start, State(), Column(index, prefix), false)
      ensures textFiles == old(textFiles)
      decreases |parameters| - index, 1
    {
      InRangeSnoc(prefix, Ns(), index, cur);
      if index + 1 < |parameters| {
        ok := VisitInner(index, prefix, cur, start);
      } else {
        ok := VisitLast(index, prefix, cur, start);
      }
      if ok {
        StepParameter(index, prefix, cur);
      }
    }

    /** The pass at an outer parameter: recurse into the next one, which starts fresh only at the first value. */
    method VisitInner(index: nat, ghost prefix: seq<nat>, ghost cur: nat, ghost start: TestSeries.Progress<Row>) returns (ok: bool)
      requires Valid() && index + 1 < |parameters| && InRange(prefix + [cur], Ns()[..index + 1]) && cur < Ns()[index]
      requires CursorsAt(prefix + [cur] + Inner(index, true, cur))
      requires Ran(start, State(), Expected(index, prefix, true, cur), true)
      modifies this, parameters
      ensures ok ==> CursorsAt(prefix + [cur] + Ns()[index + 1..])
      ensures ok ==> Ran(start, State(), Expected(index, prefix, true, cur + 1), true)
      ensures !ok ==> Ran(start, State(), Column(index, prefix), false)
      ensures textFiles == old(textFiles)
      decreases |parameters| - index, 0
    {
      ghost var before := State();
      ok := ParamRecurse(index + 1, prefix + [cur], cur == 0);
      AfterInner(index, prefix, cur, start, before, State(), ok);
    }

    /** The pass at the last parameter: run an instance. */
    method VisitLast(index: nat, ghost prefix: seq<nat>, ghost cur: nat, ghost start: TestSeries.Progress<Row>) returns (ok: bool)
      requires Valid() && index + 1 == |parameters| && InRange(prefix + [cur], Ns()[..index + 1]) && cur < Ns()[index]
      requires CursorsAt(prefix + [cur] + Inner(index, true, cur))
      requires Ran(start, State(), Expected(index, prefix, true, cur), true)
      modifies this
      ensures CursorsAt(prefix + [cur] + Ns()[index + 1..])
      ensures ok ==> Ran(start, State(), Expected(index, prefix, true, cur + 1), true)
      ensures !ok ==> Ran(start, State(), Column(index, prefix), false)
      ensures textFiles == old(textFiles)
    {
      ghost var p := prefix + [cur];
      assert Ns()[..index + 1] == Ns();
      assert p + Inner(index, true, cur) == p == p + Ns()[index + 1..];
      ghost var before := State();
      ok := RunInstance(p);
      AfterLast(index, prefix, cur, start, before, State(), ok);
    }

    /** After the recursion at value `cur`: the column ran at the first value, nothing at later ones. */
    lemma AfterInner(index: nat, prefix: seq<nat>, cur: nat, start: TestSeries.Progress<Row>,
                     before: TestSeries.Progress<Row>, after: TestSeries.Progress<Row>, ok: bool)
      requires index + 1 < |parameters| && cur < Ns()[index]
      requires Ran(start, before, Expected(index, prefix, true, cur), true)
      requires Ran(before, after, if cur == 0 then Column(index + 1, prefix + [cur]) else [], ok)
      ensures ok ==> Ran(start, after, Expected(index, prefix, true, cur + 1), true)
      ensures !ok ==> Ran(start, after, Column(index, prefix), false)
    {
      if cur == 0 {
        RanNothing(start, before, true);
        assert Zeros(|parameters| - 1 - index) == [0] + Zeros(|parameters| - 1 - (index + 1));
        var a, b := Column(index + 1, prefix + [cur]), Column(index, prefix);
        forall k | 0 <= k < |b|
          ensures a[k] == b[k]
        {
          assert prefix + [cur] + Zeros(|parameters| - 1 - (index + 1)) == prefix + Zeros(|parameters| - 1 - index);
        }
        assert a == b;
      } else {
        RanNothing(before, after, ok);
      }
    }

    /** After running the instance at value `cur` of the last parameter. */
    lemma AfterLast(index: nat, prefix: seq<nat>, cur: nat, start: TestSeries.Progress<Row>,
                    before: TestSeries.Progress<Row>, after: TestSeries.Progress<Row>, ok: bool)
      requires index + 1 == |parameters| && cur < Ns()[index]
      requires Ran(start, before, Expected(index, prefix, true, cur), true)
      requires ok == Outcome(prefix + [cur]).Ok?
      requires ok ==> after == TestSeries.Progress(before.counter + 1, before.docs + [RowOf(before.counter, prefix + [cur])],
                                                 before.written + [(YamlName(before.counter), Outcome(prefix + [cur]).value)])
      requires !ok ==> after == before
      requires InRange(prefix + [cur], Ns())
      ensures ok ==> Ran(start, after, Expected(index, prefix, true, cur + 1), true)
      ensures !ok ==> Ran(start, after, Column(index, prefix), false)
    {
      var col := Column(index, prefix);
      var p := prefix + [cur];
      assert col[cur] == p;
      assert col[..cur + 1] == col[..cur] + [p];
      assert Ran(before, after, [p], ok) by {
        if ok {
          assert RowsOf([p], before.counter)[..1] == [RowOf(before.counter, p)];
          assert FilesOf([p], before.counter)[..1] == [(YamlName(before.counter), Outcome(p).value)];
        }
      }
      RanThen(start, before, after, col[..cur], [p], ok);
      if !ok {
        RanStops(start, after, col[..cur + 1], col);
      }
    }

    /** `param.next()` on parameter `index`, with every other cursor kept. */
    method StepParameter(index: nat, ghost prefix: seq<nat>, ghost cur: nat)
      requires Valid() && index < |parameters| && |prefix| == index
      requires CursorsAt(prefix + [cur] + Ns()[index + 1..])
      modifies parameters[index]
      ensures CursorsAt(prefix + [cur + 1] + Inner(index, true, cur + 1)) && parameters[index].current == cur + 1
    {
      ghost var d := prefix + [cur] + Ns()[index + 1..];
      parameters[index].Next();
      assert d[index := cur + 1] == prefix + [cur + 1] + Inner(index, true, cur + 1);
    }

    /**
     * _create_file: set every parameter's current value at its path, in
     * parameter order. On success the file is written.
     */
    method CreateFile(newFilename: string, ghost d: seq<nat>) returns (r: Result<Json>)
      requires InRange(d, Ns()) && CursorsAt(d)
      modifies this
      ensures r == Config(d)
      ensures instanceCounter == old(instanceCounter) && documentation == old(documentation)
      ensures written == if r.Ok? then old(written) + [(newFilename, r.value)] else old(written)
      ensures textFiles == old(textFiles)
    {
      var data := Ok(baseConfig);
      var k := 0;
      while k < |parameters|
        invariant 0 <= k <= |parameters|
        invariant data.Ok? && data == ConfigUpTo(ValuesOf(d), k)
      {
        var param := parameters[k];
        var next := TestSeries.SetAt(data.value, param.parameterPath, param.Current());
        if next.Err? {
          ConfigStaysFailed(ValuesOf(d), k + 1);
          return next;
        }
        data := next;
        k := k + 1;
      }
      r := data;
      written := written + [(newFilename, r.value)];
    }

    /** _create_param_documentation: the id, then each parameter's current value as text. */
    method CreateParamDocumentation(ghost d: seq<nat>) returns (res: Row)
      requires InRange(d, Ns()) && CursorsAt(d)
      ensures res == RowOf(instanceCounter, d)
    {
      res := [Numerals.NatToString(instanceCounter)];
      var k := 0;
      while k < |parameters|
        invariant 0 <= k <= |parameters|
        invariant res == [Numerals.NatToString(instanceCounter)] +
          seq(k, i requires 0 <= i < k => show(parameters[i].parameterValues[d[i]]))
      {
        res := res + [show(parameters[k].Current())];
        k := k + 1;
      }
    }

    /** _create_output_directory: the directory "i<id>/" (creating it is left to the file system). */
    method CreateOutputDirectory() returns (result: string)
      ensures result == DirectoryName(instanceCounter)
    {
      result := "i" + Numerals.NatToString(instanceCounter) + "/";
    }

    /**
     * _run_instance: write "i<id>.yaml", make the output directory,
     * record the row and count the instance. A configuration that cannot
     * be built ends the series before anything is recorded.
     */
    method RunInstance(ghost d: seq<nat>) returns (ok: bool)
      requires InRange(d, Ns()) && CursorsAt(d)
      modifies this
      ensures ok == Outcome(d).Ok?
      ensures ok ==> (instanceCounter == old(instanceCounter) + 1 &&
        documentation == old(documentation) + [RowOf(old(instanceCounter), d)] &&
        written == old(written) + [(YamlName(old(instanceCounter)), Outcome(d).value)])
      ensures !ok ==> State() == old(State())
      ensures textFiles == old(textFiles)
    {
      var newFilepath := "i" + Numerals.NatToString(instanceCounter) + ".yaml";
      var r := CreateFile(newFilepath, d);
      if r.Err? {
        return false;
      }
      var outputDirectory := CreateOutputDirectory();
      var row := CreateParamDocumentation(d);
      documentation := documentation + [row];
      instanceCounter := instanceCounter + 1;
      ok := true;
    }

    /** _save_documentation with the intended line ends: the header and the rows, one CSV line each. */
    method SaveDocumentation()
      modifies this
      ensures textFiles == old(textFiles) + [("instance_docs.csv", CsvText([Header()] + documentation))]
      ensures State() == old(State())
    {
      var header := ["instance id"];
      var k := 0;
      while k < |parameters|
        invariant 0 <= k <= |parameters|
        invariant header == Header()[..k + 1]
      {
        header := header + [Text.Join(' ', parameters[k].parameterPath)];
        k := k + 1;
      }
      assert header == Header();
      var document := [header] + documentation;
      textFiles := textFiles + [("instance_docs.csv", CsvText(document))];
    }

    /**
     * evaluate: with the counter at 0 and every cursor at its first value,
     * run the series, then save the documentation.
     */
    method Evaluate() returns (ok: bool)
      requires Valid() && instanceCounter == 0 && |parameters| > 0
      requires CursorsAt(Zeros(|parameters|))
      modifies this, parameters
      ensures Ran(old(State()), State(), Column(0, []), ok)
      ensures textFiles == old(textFiles) + if ok then [("instance_docs.csv", CsvText([Header()] + documentation))] else []
    {
      assert [] + From(0, true) == Zeros(|parameters|);
      ok := ParamRecurse(0, [], true);
      if ok {
        SaveDocumentation();
      }
    }

    /**
     * The older recursion misses combinations: with two or more
     * parameters, the first having two values, the combination with the
     * first parameter at its second value and the rest at their first is
     * one of all combinations but is never run.
     */
    lemma SecondValueNeverRun()
      requires Valid() && |parameters| >= 2 && Ns()[0] >= 2
      ensures var d := [1] + Zeros(|parameters| - 1);
        d in Combos(Ns()) && d !in Column(0, [])
    {
      var d := [1] + Zeros(|parameters| - 1);
      assert InRange(d, Ns()) by {
        forall k | 0 <= k < |d|
          ensures d[k] < Ns()[k]
        {
          assert parameters[k].Valid();
        }
      }
      CombosCover(Ns(), d);
      var col := Column(0, []);
      forall j | 0 <= j < |col|
        ensures col[j][0] == 0
      {
        assert col[j] == Zeros(|parameters| - 1) + [j];
      }
    }
  }
}
