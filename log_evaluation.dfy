/**
 * The log evaluation of logViewer/testSeries/evaluate_logs.py: reading the
 * log-description file that the parameter sweep writes back into log
 * records, and keeping the simulations that did not lose too many
 * particles.
 *
 * The file is given as the lines Python's file iteration yields, each
 * with its line end. Python's float() is the parameter `parse`, applied to
 * the text with surrounding whitespace removed (as float() ignores it);
 * None stands for its ValueError. The per-step contents of a log file
 * (np.loadtxt) are not read: a record's dead-particle counts are a value.
 */
module LogEvaluation {
  import opened Wrappers
  import Text
  import Numerals
  import ParamSweep

  /** A simulation whose dead-particle count ever exceeds this is bad. */
  const MaxDeadParticles: int := 15

  /** LogFile: the log's name, its three parameters and its dead-particle counts. */
  datatype LogFile = LogFile(filename: string, stiffness: real, viscosity: real, timestep: real,
                             deadParticles: seq<int>)

  /** The largest of a non-empty list. */
  function Max(xs: seq<int>): (m: int)
    requires |xs| > 0
    ensures m in xs && forall k :: 0 <= k < |xs| ==> xs[k] <= m
    decreases |xs|
  {
    if |xs| == 1 then xs[0]
    else
      var rest := Max(xs[1..]);
      if xs[0] >= rest then xs[0] else rest
  }

  /** is_bad_simulation: max() of the counts above the limit; max() of an empty list raises. */
  function IsBadSimulation(log: LogFile): Result<bool>
  {
    if |log.deadParticles| == 0 then Err("max() arg is an empty sequence")
    else Ok(Max(log.deadParticles) > MaxDeadParticles)
  }

  /** A simulation is bad exactly when some step lost more than the limit. */
  lemma BadIffSomeStepOver(log: LogFile)
    requires |log.deadParticles| > 0
    ensures IsBadSimulation(log) == Ok(true) <==>
      exists k :: 0 <= k < |log.deadParticles| && log.deadParticles[k] > MaxDeadParticles
    ensures IsBadSimulation(log) == Ok(false) <==>
      forall k :: 0 <= k < |log.deadParticles| ==> log.deadParticles[k] <= MaxDeadParticles
  {
    var m := Max(log.deadParticles);
    var k :| 0 <= k < |log.deadParticles| && log.deadParticles[k] == m;
  }

  /** process_logs over the logs seen so far: the good ones in order, or the first exception. */
  function GoodLogs(logs: seq<LogFile>): Result<seq<LogFile>>
    decreases |logs|
  {
    if logs == [] then Ok([])
    else
      var before := GoodLogs(logs[..|logs| - 1]);
      var last := logs[|logs| - 1];
      if before.Err? then before
      else match IsBadSimulation(last)
        case Err(e) => Err(e)
        case Ok(bad) => if bad then before else Ok(before.value + [last])
  }

  /** `xs` is `ys` with some entries left out, the rest in order. */
  ghost predicate Subsequence<T>(xs: seq<T>, ys: seq<T>)
    decreases |ys|
  {
    if xs == [] then true
    else if ys == [] then false
    else if xs[|xs| - 1] == ys[|ys| - 1] then Subsequence(xs[..|xs| - 1], ys[..|ys| - 1])
    else Subsequence(xs, ys[..|ys| - 1])
  }

  /** Appending the same entry to both keeps a subsequence; appending to the longer one alone does too. */
  lemma SubsequenceSnoc<T>(xs: seq<T>, ys: seq<T>, y: T)
    requires Subsequence(xs, ys)
    ensures Subsequence(xs, ys + [y]) && Subsequence(xs + [y], ys + [y])
  {
    SubsequenceWiden(xs, ys, y);
    assert (xs + [y])[..|xs|] == xs && (ys + [y])[..|ys|] == ys;
  }

  /** A subsequence stays one when the longer list grows at its end. */
  lemma {:induction false} SubsequenceWiden<T>(xs: seq<T>, ys: seq<T>, y: T)
    requires Subsequence(xs, ys)
    ensures Subsequence(xs, ys + [y])
    decreases |ys|, 1
  {
    assert (ys + [y])[..|ys|] == ys;
    if xs != [] && xs[|xs| - 1] == y {
      SubsequenceDrop(xs, ys);
    }
  }

  /** Dropping the last entry of a subsequence keeps it one. */
  lemma {:induction false} SubsequenceDrop<T>(xs: seq<T>, ys: seq<T>)
    requires xs != [] && Subsequence(xs, ys)
    ensures Subsequence(xs[..|xs| - 1], ys)
    decreases |ys|, 0
  {
    var init := xs[..|xs| - 1];
    var front := ys[..|ys| - 1];
    var y := ys[|ys| - 1];
    assert front + [y] == ys;
    if xs[|xs| - 1] != y {
      SubsequenceDrop(xs, front);
    }
    SubsequenceWiden(init, front, y);
  }

  /** One more log: its test decides whether it is kept, and an earlier exception stays. */
  lemma GoodLogsSnoc(logs: seq<LogFile>, init: seq<LogFile>, last: LogFile)
    requires logs == init + [last]
    ensures GoodLogs(logs) ==
      if GoodLogs(init).Err? then GoodLogs(init)
      else if IsBadSimulation(last).Err? then Err(IsBadSimulation(last).message)
      else if IsBadSimulation(last).value then GoodLogs(init)
      else Ok(GoodLogs(init).value + [last])
  {
    assert logs[..|logs| - 1] == init && logs[|logs| - 1] == last;
  }

  /** process_logs fails exactly when some log has no counts. */
  lemma {:induction false} GoodLogsOk(logs: seq<LogFile>)
    ensures GoodLogs(logs).Ok? <==> forall k :: 0 <= k < |logs| ==> |logs[k].deadParticles| > 0
    decreases |logs|
  {
    if logs != [] {
      var init, last := logs[..|logs| - 1], logs[|logs| - 1];
      GoodLogsOk(init);
      GoodLogsSnoc(logs, init, last);
      assert forall k :: 0 <= k < |init| ==> init[k] == logs[k];
    }
  }

  /** process_logs keeps the logs in their order: its result is a subsequence of them. */
  lemma {:induction false} GoodLogsOrdered(logs: seq<LogFile>)
    requires GoodLogs(logs).Ok?
    ensures Subsequence(GoodLogs(logs).value, logs)
    decreases |logs|
  {
    if logs != [] {
      var init, last := logs[..|logs| - 1], logs[|logs| - 1];
      GoodLogsSnoc(logs, init, last);
      GoodLogsOrdered(init);
      SubsequenceSnoc(GoodLogs(init).value, init, last);
    }
  }

  /** Every log process_logs keeps is one of the logs and not bad. */
  lemma {:induction false} GoodLogsSound(logs: seq<LogFile>)
    requires GoodLogs(logs).Ok?
    ensures forall g :: g in GoodLogs(logs).value ==> g in logs && IsBadSimulation(g) == Ok(false)
    decreases |logs|
  {
    if logs != [] {
      var init, last := logs[..|logs| - 1], logs[|logs| - 1];
      GoodLogsSnoc(logs, init, last);
      GoodLogsSound(init);
    }
  }

  /** Every log that is not bad is kept. */
  lemma {:induction false} GoodLogsComplete(logs: seq<LogFile>)
    requires GoodLogs(logs).Ok?
    ensures forall k :: 0 <= k < |logs| && IsBadSimulation(logs[k]) == Ok(false) ==> logs[k] in GoodLogs(logs).value
    decreases |logs|
  {
    if logs != [] {
      var init, last := logs[..|logs| - 1], logs[|logs| - 1];
      GoodLogsSnoc(logs, init, last);
      GoodLogsComplete(init);
      assert forall k :: 0 <= k < |init| ==> init[k] == logs[k];
    }
  }

  /** With no bad simulation, every log is kept. */
  lemma {:induction false} GoodLogsAllGood(logs: seq<LogFile>)
    requires forall k :: 0 <= k < |logs| ==> IsBadSimulation(logs[k]) == Ok(false)
    ensures GoodLogs(logs) == Ok(logs)
    decreases |logs|
  {
    if logs != [] {
      var init, last := logs[..|logs| - 1], logs[|logs| - 1];
      GoodLogsSnoc(logs, init, last);
      assert forall k :: 0 <= k < |init| ==> init[k] == logs[k];
      GoodLogsAllGood(init);
    }
  }

  /** process_logs: test every log in turn and keep the ones that are not bad. */
  method ProcessLogs(logs: seq<LogFile>) returns (r: Result<seq<LogFile>>)
    ensures r == GoodLogs(logs)
  {
    var good := [];
    var i := 0;
    while i < |logs|
      invariant 0 <= i <= |logs|
      invariant GoodLogs(logs[..i]) == Ok(good)
    {
      var log := logs[i];
      assert logs[..i + 1][..i] == logs[..i];
      var bad := IsBadSimulation(log);
      if bad.Err? {
        GoodLogsStaysFailed(logs, i + 1);
        return Err(bad.message);
      }
      if !bad.value {
        good := good + [log];
      }
      i := i + 1;
    }
    assert logs[..i] == logs;
    r := Ok(good);
  }

  /** Once a log raises, process_logs over any longer prefix raises the same. */
  lemma {:induction false} GoodLogsStaysFailed(logs: seq<LogFile>, i: nat)
    requires 0 < i <= |logs| && GoodLogs(logs[..i]).Err?
    ensures GoodLogs(logs) == GoodLogs(logs[..i])
    decreases |logs| - i
  {
    if i < |logs| {
      assert logs[..i + 1][..i] == logs[..i];
      GoodLogsStaysFailed(logs, i + 1);
    } else {
      assert logs[..i] == logs;
    }
  }

  /** `s[0:-1]`: the text without its last character (empty stays empty). */
  function DropLast(s: string): (r: string)
    ensures |s| > 0 ==> r + [s[|s| - 1]] == s
  {
    if |s| == 0 then s else s[..|s| - 1]
  }

  /** float() of a field: surrounding whitespace is ignored. */
  function ParseFloat(text: string, parse: string -> Option<real>): Result<real>
  {
    var v := parse(Text.Strip(text));
    if v.None? then Err("could not convert string to float") else Ok(v.value)
  }

  /**
   * One non-blank line of the description file: exactly four
   * tab-separated fields (else the unpacking raises), the file name
   * without its last character, and each value with its "name=" removed
   * and parsed.
   */
  function ParseLine(line: string, parse: string -> Option<real>): Result<LogFile>
  {
    var fields := Text.Split(line, '\t');
    if |fields| != 4 then Err("wrong number of values to unpack")
    else
      var filename := DropLast(fields[0]);
      var stiffness := ParseFloat(Text.RemoveAll(fields[1], "stiffness="), parse);
      var viscosity := ParseFloat(Text.RemoveAll(fields[2], "viscosity="), parse);
      var timestep := ParseFloat(Text.RemoveAll(fields[3], "timestep="), parse);
      if stiffness.Err? then Err(stiffness.message)
      else if viscosity.Err? then Err(viscosity.message)
      else if timestep.Err? then Err(timestep.message)
      else Ok(LogFile(filename, stiffness.value, viscosity.value, timestep.value, []))
  }

  /** A line holding only whitespace. */
  predicate Blank(line: string)
  {
    Text.Strip(line) == ""
  }

  /**
   * What reading the first lines gives: the records of the non-blank
   * lines, and the exception of the first line that cannot be read, after
   * which nothing more is read.
   */
  function ReadLines(lines: seq<string>, parse: string -> Option<real>): (r: (seq<LogFile>, Option<string>))
    decreases |lines|
  {
    if lines == [] then ([], None)
    else
      var before := ReadLines(lines[..|lines| - 1], parse);
      var line := lines[|lines| - 1];
      if before.1.Some? || Blank(line) then before
      else match ParseLine(line, parse)
        case Err(e) => (before.0, Some(e))
        case Ok(log) => (before.0 + [log], None)
  }

  /** Blank lines are skipped. */
  lemma BlankSkipped(lines: seq<string>, line: string, parse: string -> Option<real>)
    requires Blank(line)
    ensures ReadLines(lines + [line], parse) == ReadLines(lines, parse)
  {
    assert (lines + [line])[..|lines|] == lines;
  }

  /** LogFileDesc: a description file's name and the records read from it. */
  class LogFileDesc {
    const filename: string
    var logFiles: seq<LogFile>

    constructor (filename: string)
      ensures this.filename == filename && logFiles == []
    {
      this.filename := filename;
      logFiles := [];
    }

    /**
     * read_contents: clear the records, then read the lines in order,
     * skipping blank ones. A line that cannot be read raises; the records
     * read before it stay.
     */
    method ReadContents(lines: seq<string>, parse: string -> Option<real>) returns (error: Option<string>)
      modifies this
      ensures logFiles == ReadLines(lines, parse).0 && error == ReadLines(lines, parse).1
    {
      logFiles := [];
      var i := 0;
      while i < |lines|
        invariant 0 <= i <= |lines|
        invariant ReadLines(lines[..i], parse) == (logFiles, None)
      {
        var line := lines[i];
        assert lines[..i + 1][..i] == lines[..i];
        if Text.Strip(line) != "" {
          var log := ParseLine(line, parse);
          if log.Err? {
            ReadStaysFailed(lines, i + 1, parse);
            return Some(log.message);
          }
          logFiles := logFiles + [log.value];
        }
        i := i + 1;
      }
      assert lines[..i] == lines;
      error := None;
    }

    function GetLogFiles(): seq<LogFile>
      reads this
    {
      logFiles
    }
  }

  /** After the first line that cannot be read, further lines change nothing. */
  lemma {:induction false} ReadStaysFailed(lines: seq<string>, i: nat, parse: string -> Option<real>)
    requires 0 < i <= |lines| && ReadLines(lines[..i], parse).1.Some?
    ensures ReadLines(lines, parse) == ReadLines(lines[..i], parse)
    decreases |lines| - i
  {
    if i < |lines| {
      assert lines[..i + 1][..i] == lines[..i];
      ReadStaysFailed(lines, i + 1, parse);
    } else {
      assert lines[..i] == lines;
    }
  }

  /** The record a description line of run `n` with these three values stands for. */
  function RecordFor(logPrefix: string, n: nat, values: seq<ParamSweep.ParameterValue>): LogFile
    requires |values| == 3
  {
    LogFile(ParamSweep.LogName(logPrefix, n), values[0].value, values[1].value, values[2].value, [])
  }

  /** A value text the description line carries unchanged: no tab, no '=', no surrounding whitespace. */
  predicate PlainValue(text: string)
  {
    |text| > 0 && '\t' !in text && '=' !in text && '\n' !in text &&
    !Text.IsWhitespace(text[0]) && !Text.IsWhitespace(text[|text| - 1])
  }

  /** The three values of a sweep combination, under the names the evaluation reads back. */
  predicate ReadableCombination(values: seq<ParamSweep.ParameterValue>, show: real -> string,
                                parse: string -> Option<real>)
  {
    |values| == 3 &&
    values[0].name == "stiffness" && values[1].name == "viscosity" && values[2].name == "timestep" &&
    forall i :: 0 <= i < 3 ==> PlainValue(show(values[i].value)) && parse(show(values[i].value)) == Some(values[i].value)
  }

  /** A field "name=value" gives the value back. */
  lemma FieldReadsBack(field: string, name: string, text: string, v: real, parse: string -> Option<real>, tail: string)
    requires |name| > 0 && PlainValue(text) && parse(text) == Some(v)
    requires tail == "" || tail == "\n"
    requires field == name + "=" + text + tail
    ensures ParseFloat(Text.RemoveAll(field, name + "="), parse) == Ok(v)
  {
    var pat := name + "=";
    assert pat[|pat| - 1] == '=';
    assert field == pat + (text + tail);
    Text.RemoveLeading(pat, text + tail);
    if tail == "" {
      assert text + tail == text;
    } else {
      Text.StripNewline(text);
    }
  }

  /**
   * A line run_for_all writes reads back as the log file it names, with
   * the three values, provided the prefix holds no tab and each value's
   * text is plain and parses back to the value.
   */
  lemma DescriptionLineReadsBack(logPrefix: string, n: nat, values: seq<ParamSweep.ParameterValue>,
                                 show: real -> string, parse: string -> Option<real>)
    requires '\t' !in logPrefix && ReadableCombination(values, show, parse)
    ensures ParseLine(ParamSweep.DescriptionLine(logPrefix, n, values, show), parse) == Ok(RecordFor(logPrefix, n, values))
  {
    var head := logPrefix + Numerals.NatToString(n) + ".csv:";
    var fields := DescriptionLineFields(logPrefix, n, values, show, parse);
    assert DropLast(head) == ParamSweep.LogName(logPrefix, n);
    assert fields[1] == "stiffness" + "=" + show(values[0].value) + "";
    assert fields[2] == "viscosity" + "=" + show(values[1].value) + "";
    FieldReadsBack(fields[1], "stiffness", show(values[0].value), values[0].value, parse, "");
    FieldReadsBack(fields[2], "viscosity", show(values[1].value), values[1].value, parse, "");
    FieldReadsBack(fields[3], "timestep", show(values[2].value), values[2].value, parse, "\n");
  }

  /** A description line splits at its tabs into the run's name and the three "name=value" texts. */
  lemma DescriptionLineFields(logPrefix: string, n: nat, values: seq<ParamSweep.ParameterValue>,
                              show: real -> string, parse: string -> Option<real>) returns (fields: seq<string>)
    requires '\t' !in logPrefix && ReadableCombination(values, show, parse)
    ensures fields == [logPrefix + Numerals.NatToString(n) + ".csv:",
                       ParamSweep.ValueText(values[0], show), ParamSweep.ValueText(values[1], show),
                       ParamSweep.ValueText(values[2], show) + "\n"]
    ensures Text.Split(ParamSweep.DescriptionLine(logPrefix, n, values, show), '\t') == fields
  {
    var texts := seq(|values|, i requires 0 <= i < |values| => ParamSweep.ValueText(values[i], show));
    var head := logPrefix + Numerals.NatToString(n) + ".csv:";
    fields := [head, texts[0], texts[1], texts[2] + "\n"];
    var line := ParamSweep.DescriptionLine(logPrefix, n, values, show);
    assert texts[1..][1..] == [texts[2]];
    assert Text.Join('\t', texts[1..]) == texts[1] + "\t" + texts[2];
    assert Text.Join('\t', texts) == texts[0] + "\t" + (texts[1] + "\t" + texts[2]);
    assert fields[1..][1..][1..] == [texts[2] + "\n"];
    assert Text.Join('\t', fields[1..][1..]) == texts[1] + "\t" + (texts[2] + "\n");
    assert Text.Join('\t', fields[1..]) == texts[0] + "\t" + (texts[1] + "\t" + (texts[2] + "\n"));
    assert Text.Join('\t', fields) == head + "\t" + (texts[0] + "\t" + (texts[1] + "\t" + (texts[2] + "\n")));
    assert line == Text.Join('\t', fields);
    HeadHasNoTab(logPrefix, n);
    ValueTextHasNoTab(values[0], show, "");
    ValueTextHasNoTab(values[1], show, "");
    ValueTextHasNoTab(values[2], show, "\n");
    assert texts[0] + "" == texts[0] && texts[1] + "" == texts[1];
    Text.SplitJoin('\t', fields);
  }

  /** The name part of a description line holds no tab when the prefix holds none. */
  lemma HeadHasNoTab(logPrefix: string, n: nat)
    requires '\t' !in logPrefix
    ensures '\t' !in logPrefix + Numerals.NatToString(n) + ".csv:"
  {
    var digits := Numerals.NatToString(n);
    assert forall c :: 0 <= c < |digits| ==> Numerals.IsDigit(digits[c]);
  }

  /** A "name=value" text holds no tab when the value text is plain. */
  lemma ValueTextHasNoTab(p: ParamSweep.ParameterValue, show: real -> string, tail: string)
    requires p.name in {"stiffness", "viscosity", "timestep"} && PlainValue(show(p.value))
    requires tail == "" || tail == "\n"
    ensures '\t' !in ParamSweep.ValueText(p, show) + tail
  {
  }

  /**
   * The description file of a sweep reads back completely: one record per
   * run, numbered from 1, holding that run's values.
   */
  lemma DescriptionFileReadsBack(logPrefix: string, calls: seq<seq<ParamSweep.ParameterValue>>,
                                 lines: seq<string>, show: real -> string, parse: string -> Option<real>)
    requires '\t' !in logPrefix && |lines| == |calls|
    requires forall j :: 0 <= j < |calls| ==> ReadableCombination(calls[j], show, parse)
    requires forall j :: 0 <= j < |calls| ==> lines[j] == ParamSweep.DescriptionLine(logPrefix, j + 1, calls[j], show)
    ensures ReadLines(lines, parse) ==
      (seq(|calls|, j requires 0 <= j < |calls| && ReadableCombination(calls[j], show, parse) =>
         RecordFor(logPrefix, j + 1, calls[j])), None)
  {
    var records := seq(|calls|, j requires 0 <= j < |calls| && ReadableCombination(calls[j], show, parse) =>
      RecordFor(logPrefix, j + 1, calls[j]));
    forall j | 0 <= j < |calls|
      ensures ReadsAs(lines[j], records[j], parse)
    {
      LineReadsAs(lines[j], records[j], logPrefix, j + 1, calls[j], show, parse);
    }
    ReadAll(lines, records, parse);
  }

  /** A description line is a line the evaluation reads, as the record of its run. */
  lemma LineReadsAs(line: string, record: LogFile, logPrefix: string, n: nat, values: seq<ParamSweep.ParameterValue>,
                    show: real -> string, parse: string -> Option<real>)
    requires '\t' !in logPrefix && ReadableCombination(values, show, parse)
    requires line == ParamSweep.DescriptionLine(logPrefix, n, values, show) && record == RecordFor(logPrefix, n, values)
    ensures ReadsAs(line, record, parse)
  {
    DescriptionLineReadsBack(logPrefix, n, values, show, parse);
    NotBlank(line, logPrefix, n, values, show);
  }

  /** A line that is not blank and reads as the given record. */
  predicate ReadsAs(line: string, record: LogFile, parse: string -> Option<real>)
  {
    !Blank(line) && ParseLine(line, parse) == Ok(record)
  }

  /** Lines that are all readable read back as their records, in order. */
  lemma ReadAll(lines: seq<string>, records: seq<LogFile>, parse: string -> Option<real>)
    requires |lines| == |records|
    requires forall j {:trigger ReadsAs(lines[j], records[j], parse)} :: 0 <= j < |lines| ==> ReadsAs(lines[j], records[j], parse)
    ensures ReadLines(lines, parse) == (records, None)
  {
    ReadAllPrefix(lines, records, |lines|, parse);
    assert lines[..|lines|] == lines && records[..|lines|] == records;
  }

  /** The first `i` readable lines read back as the first `i` records. */
  lemma {:induction false} ReadAllPrefix(lines: seq<string>, records: seq<LogFile>, i: nat, parse: string -> Option<real>)
    requires i <= |lines| == |records|
    requires forall j {:trigger ReadsAs(lines[j], records[j], parse)} :: 0 <= j < |lines| ==> ReadsAs(lines[j], records[j], parse)
    ensures ReadLines(lines[..i], parse) == (records[..i], None)
    decreases i
  {
    if i > 0 {
      ReadAllPrefix(lines, records, i - 1, parse);
      var line, record := lines[i - 1], records[i - 1];
      assert ReadsAs(line, record, parse);
      SliceSnoc(lines, i);
      SliceSnoc(records, i);
      ReadLinesSnoc(lines[..i], lines[..i - 1], line, record, parse);
    }
  }

  /** A prefix one longer is the shorter prefix and one more entry. */
  lemma SliceSnoc<T>(s: seq<T>, i: nat)
    requires 0 < i <= |s|
    ensures s[..i] == s[..i - 1] + [s[i - 1]]
  {
  }

  /** A readable line after lines read without error adds its record. */
  lemma ReadLinesSnoc(lines: seq<string>, init: seq<string>, last: string, record: LogFile, parse: string -> Option<real>)
    requires lines == init + [last] && ReadsAs(last, record, parse)
    requires ReadLines(init, parse).1 == None
    ensures ReadLines(lines, parse) == (ReadLines(init, parse).0 + [record], None)
  {
    assert lines[..|lines| - 1] == init;
  }

  /** A description line is never blank: it holds the ".csv:" after the name. */
  lemma NotBlank(line: string, logPrefix: string, n: nat, values: seq<ParamSweep.ParameterValue>, show: real -> string)
    requires line == ParamSweep.DescriptionLine(logPrefix, n, values, show)
    ensures !Blank(line)
  {
    var k := |logPrefix + Numerals.NatToString(n)|;
    assert line[k] == '.';
  }
}
