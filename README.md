# FluidSolver core, modelled in Dafny

This project models the integer, string and container logic of FluidSolver,
an SPH fluid simulator with a C++ library (`libFluid`), an editor
(`fluidStudio`) and Python scripts that sweep solver parameters and evaluate
the resulting logs. The numerics, rendering, threads and foreign libraries
are not modelled. What is modelled, module by module:

- **Parameter sweeps.**
  - `ParamSweep` models `generate_logs.py`: the three kinds of parameter range, the odometer walk `walk_through_matrix`, and the numbered solver runs of `run_for_all`.
  - `Odometer` holds the enumeration of all value combinations that the sweeps are proved against.
  - `TestSeries` models the JSON-based test-series runner. Its `Parameter` cursor, the recursive `_param_recurse`, the configuration edits and the documentation records are covered.
  - `TestSeriesLegacy` models the older YAML/CSV runner. Its recursion never resets a parameter, and its CSV file lacks line ends.
  - `LogEvaluation` models the log-description parser and the bad-simulation filter of `evaluate_logs.py`.
- **Byte codecs.**
  - `Base64`: RFC 4648 section 4, with the decoder's lenient alphabet.
  - `Utf8`: `UnicodeToUTF8`, RFC 3629 section 3 without range checks.
  - `CompressedNeighbors`: the neighbor delta encoding.
  - `EndianStream`: the little-endian binary stream with length-prefixed strings and vectors.
  - `ParticleSerializer`: the particle file header, component ids and per-particle records.
- **In-place data structures.**
  - `CompactHashTable` and `CellStorage`: the compact-hashing hash table and its linked cell sections.
  - `CompactNeighborStorage`: the flat per-particle neighbor blocks the compact-hashing search fills and reads.
  - `ParticleCollection`: the component-wise particle collection.
  - `StripedCollection`: the striped collection with its id and index maps.
  - `ParticleSort`: the swap-only sorts.
  - `StatisticsCache`: the ring-buffer statistics cache.
  - `Timeline`: the timeline of saved snapshots.
- **Small state machines and lookups.**
  - `SensorWriter`: the CSV header and row machine.
  - `SolverTypes`: solver-type queries.
  - `OutputManager`: filename sanitizing and the sensor save counter.

`Wrappers`, `Swaps`, `Numerals` and `Text` are shared helpers. They provide
`Option`/`Result`, the swap of two sequence positions, decimal numerals, and
joining and splitting strings. They stand in for the host languages'
built-ins.

Classes model the objects whose fields the source updates in place; their
methods carry `modifies` clauses and state the new state. Pure code is
modelled as functions. A loop of the source is a `while` loop with its
invariants in a method that is proved against a specification function, and
the properties of that function are proved as lemmas. The exceptions are:

- the character loop of `remove_invalid_chars_from_filename`, which is the recursive function `OutputManager.RemoveInvalidChars`;
- the two loops of `clear_cache_folder`, which delete every snapshot file and are one update of the file map in `Timeline.TimelineService.Reset`;
- the loops inside the host languages' built-ins (joining, splitting, stripping strings), which are recursive functions in `Text`.

## Model

| member | source | states |
|---|---|---|
| ParamSweep.GenerateParameterList | logViewer/generate_logs.py:112-116 | one flag per parameter value, in order, each "--" + name + "=" + the value's text |
| ParamSweep.ParameterRange.constructor | logViewer/generate_logs.py:18-24 | an additive range stores its fields and starts at its start value |
| ParamSweep.ParameterRange.Exponential | logViewer/generate_logs.py:41-44 | a multiplicative range stores its fields and starts at its start value |
| ParamSweep.ParameterRange.Explicit | logViewer/generate_logs.py:49-53 | an explicit range starts at index 0 on its first value; start and end are the first and last listed values |
| ParamSweep.ParameterRange.Reset | logViewer/generate_logs.py:62-64 | reset restores the start value and index 0 |
| ParamSweep.ParameterRange.NextStep | logViewer/generate_logs.py:29-60 | a step adds the step size, multiplies by it, or moves to the next listed value; past the list's end the value stays at the last one |
| ParamSweep.ParameterRange.AtEndIn | logViewer/generate_logs.py:35-69 | is_at_end after k steps: value strictly above the end value (additive, multiplicative), or index at least the list length (explicit) |
| ParamSweep.ParameterRange.ExplicitCount | logViewer/generate_logs.py:55-69 | an explicit range visits exactly its listed values |
| ParamSweep.ParameterRange.LinearValue | logViewer/generate_logs.py:29-30 | an additive range k steps after a reset stands at start + k * step |
| ParamSweep.ParameterRange.LinearEnds | logViewer/generate_logs.py:35-38 | an additive range with a positive step reaches its end |
| ParamSweep.SweepCount | logViewer/generate_logs.py:90-109 | the callback runs product-of-counts + 1 times; the first and last calls are the all-reset combination |
| ParamSweep.SweepCovers | logViewer/generate_logs.py:94-109 | every combination of the ranges' values is passed to the callback before the final repeat |
| ParamSweep.CarryStep | logViewer/generate_logs.py:98-103 | one range is stepped and reset exactly when the step reached its end; other ranges are untouched |
| ParamSweep.Advance | logViewer/generate_logs.py:96-106 | the carry loop is one odometer increment from the last range, and the flag says the first range was reset |
| ParamSweep.ResetAll | logViewer/generate_logs.py:83-84 | every range is back at its start |
| ParamSweep.WalkThroughMatrix | logViewer/generate_logs.py:72-109 | the callback receives exactly the sweep (none for an empty list), and afterwards every range is at its start |
| ParamSweep.Walk | logViewer/generate_logs.py:92-109 | from all ranges reset, the loop emits the values after each carry pass until the carry runs out |
| ParamSweep.LogNamesDistinct | logViewer/generate_logs.py:144-145 | runs with different numbers write different log files |
| ParamSweep.SolverCall | logViewer/generate_logs.py:119-122 | the solver's argument list is executable, "-c", length, output name, then the parameter flags |
| ParamSweep.RunForAll | logViewer/generate_logs.py:128-147 | one description line and one solver call per combination of the sweep, numbered 1, 2, 3, ... in callback order |
| ParamSweep.NumberRuns | logViewer/generate_logs.py:134-145 | the j-th received combination gets number j + 1, its tab-separated description line and its solver call |
| ParamSweep.ViscosityCount | logViewer/generate_logs.py:153 | the viscosity range 0.0 to 5.0 in steps of 0.5 has eleven values |
| ParamSweep.DefaultCounts | logViewer/generate_logs.py:151-154 | main's ranges have 4, 11 and 5 values, 220 combinations |
| ParamSweep.DefaultSweep | logViewer/generate_logs.py:150-158 | main's sweep calls the solver 221 times |
| Odometer.CombosCount | test-series/framework/test_series.py:48-64 | there are as many combinations as the product of the value counts |
| Odometer.CombosInRange | test-series/framework/test_series.py:48-64 | every listed combination picks a valid index for each parameter |
| Odometer.CombosCover | test-series/framework/test_series.py:48-64 | every valid combination is listed |
| Odometer.CombosSorted | test-series/framework/test_series.py:48-64 | the listing is strictly increasing in lexicographic order, so the last parameter varies fastest |
| Odometer.CombosDistinct | test-series/framework/test_series.py:48-64 | no combination is listed twice |
| Odometer.OdometerRunsThroughCombos | logViewer/generate_logs.py:94-109 | from all digits zero, the carry step runs through the combinations in order; after the last one it carries out of the first digit back to all zeros |
| Odometer.OdometerStep | logViewer/generate_logs.py:96-106 | one carry step from the t-th combination gives the next one, or the first one after the last |
| Odometer.BlockBoundary | logViewer/generate_logs.py:97-103 | the last combination with first digit d - 1 steps to the first one with first digit d |
| TestSeries.Parameter.constructor | test-series/framework/test_series.py:10-15 | a parameter needs at least one value, stores path and values, and starts at cursor 0 |
| TestSeries.Parameter.Current | test-series/framework/test_series.py:17-19 | current() needs the cursor inside the list and returns one of the values |
| TestSeries.Parameter.Next | test-series/framework/test_series.py:21-22 | next() advances the cursor by one |
| TestSeries.Parameter.Reset | test-series/framework/test_series.py:27-28 | reset() puts the cursor back to 0 |
| TestSeries.Parameter.PathAsStringSplits | test-series/framework/test_series.py:30-31 | the dotted path splits back into its keys when no key holds a dot |
| TestSeries.SetAtSucceeds | test-series/framework/test_series.py:72-79 | setting a value at a path succeeds exactly when every proper prefix of the path leads to an object |
| TestSeries.SetAtGet | test-series/framework/test_series.py:72-79 | after setting, the path leads to the new value |
| TestSeries.SetAtKeepsOthers | test-series/framework/test_series.py:72-79 | setting leaves every path that branches off from it unchanged |
| TestSeries.FixParticlePathPrefixes | test-series/framework/test_series.py:81-82 | the correction succeeds exactly when scenario.particles is a string, and prefixes it with "../" |
| TestSeries.DocRecord | test-series/framework/test_series.py:88-92 | the record maps "instanceId" to the id and each dotted path to its parameter's current value, and holds nothing else |
| TestSeries.InstanceNamesDistinct | test-series/framework/test_series.py:94-102 | different instances get different configuration files and output directories |
| TestSeries.Runner.constructor | test-series/framework/test_series.py:36-46 | the runner stores its settings, with counter 0 and no documentation |
| TestSeries.Runner.CreateFile | test-series/framework/test_series.py:66-86 | the written configuration is the base with each parameter's value set at its path and the particle path prefixed; nothing is written when that fails |
| TestSeries.Runner.ConfigStaysFailed | test-series/framework/test_series.py:72-79 | once setting one parameter fails, the configuration stays failed |
| TestSeries.Runner.CreateParamDocumentation | test-series/framework/test_series.py:88-92 | the record of the current cursors under the current instance id |
| TestSeries.Runner.RunInstance | test-series/framework/test_series.py:100-110 | a built configuration is written and recorded and the counter is incremented; otherwise the state is unchanged and the run fails |
| TestSeries.Runner.ParamRecurse | test-series/framework/test_series.py:48-64 | runs every combination of the parameters from `index` on, last parameter fastest, and leaves those parameters reset |
| TestSeries.Runner.VisitAll | test-series/framework/test_series.py:53-61 | the loop visits every value of parameter `index` in turn until a run fails |
| TestSeries.Runner.Visit | test-series/framework/test_series.py:54-61 | one pass runs the combinations behind the current value and steps the parameter |
| TestSeries.Runner.Descend | test-series/framework/test_series.py:54-59 | the pass recurses into the next parameter or, at the last one, runs one instance |
| TestSeries.Runner.StepParameter | test-series/framework/test_series.py:61 | next() moves one cursor and keeps the others |
| TestSeries.Runner.ResetParameter | test-series/framework/test_series.py:64 | reset() zeroes one cursor and keeps the others |
| TestSeries.Runner.Evaluate | test-series/framework/test_series.py:120-123 | with the counter at 0, all combinations run up to the first that fails, with ids 0, 1, 2, ...; on success the documentation is saved |
| TestSeriesLegacy.InstanceNamesDistinct | test-series/test_series.py:80-87 | different instances get different "i<id>.yaml" files and "i<id>/" directories |
| TestSeriesLegacy.Runner.constructor | test-series/test_series.py:31-38 | the runner stores its settings, with counter 0 and no documentation |
| TestSeriesLegacy.Runner.ConfigStaysFailed | test-series/test_series.py:61-68 | once setting one parameter fails, the configuration stays failed |
| TestSeriesLegacy.Runner.RowFields | test-series/test_series.py:74-78 | a row is the id's numeral, which reads back as the id, followed by each value's text |
| TestSeriesLegacy.Runner.Header | test-series/test_series.py:101-103 | the header has "instance id" first and one cell per parameter |
| TestSeriesLegacy.Runner.HeaderPaths | test-series/test_series.py:101-103 | a header cell splits back into its parameter path when no key holds a space |
| TestSeriesLegacy.Runner.ParamRecurse | test-series/test_series.py:40-53 | without a reset, a recursion from first values runs only the last parameter's column, and one from ends runs nothing; every cursor from `index` on ends past its end |
| TestSeriesLegacy.Runner.Visit | test-series/test_series.py:45-53 | one pass of the loop: recurse or run an instance, then step the parameter |
| TestSeriesLegacy.Runner.VisitInner | test-series/test_series.py:46-48 | the recursion starts fresh only at the first value of the outer parameter |
| TestSeriesLegacy.Runner.VisitLast | test-series/test_series.py:49-51 | at the last parameter one instance runs |
| TestSeriesLegacy.Runner.StepParameter | test-series/test_series.py:53 | next() moves one cursor and keeps the others |
| TestSeriesLegacy.Runner.CreateFile | test-series/test_series.py:55-72 | the written configuration is the base with each parameter's value set at its path; nothing is written when that fails |
| TestSeriesLegacy.Runner.CreateParamDocumentation | test-series/test_series.py:74-78 | the row of the current instance id and cursors |
| TestSeriesLegacy.Runner.CreateOutputDirectory | test-series/test_series.py:80-83 | the directory is "i<id>/" |
| TestSeriesLegacy.Runner.RunInstance | test-series/test_series.py:85-94 | a built configuration is written and its row recorded, and the counter is incremented; otherwise nothing changes |
| TestSeriesLegacy.Runner.SaveDocumentation | test-series/test_series.py:100-108 | "instance_docs.csv" holds the header and the rows, one ";"-joined CSV line each (with the intended line ends) |
| TestSeriesLegacy.Runner.Evaluate | test-series/test_series.py:110-113 | with the counter at 0 and all cursors first, only the combinations with every parameter but the last at its first value run, then the documentation is saved |
| TestSeriesLegacy.Runner.SecondValueNeverRun | test-series/test_series.py:40-53 | with two or more parameters, the first having two values, the combination with the first parameter at its second value is never run |
| TestSeriesLegacy.CsvRoundTrip | test-series/test_series.py:105-108 | with line ends, the CSV text reads back as the document it was written from |
| TestSeriesLegacy.WrittenAsIsMergesRows | test-series/test_series.py:105-108 | as written (writelines without line ends), all rows merge into one unterminated line: a line reader gets back at most one row, so never a document of two or more rows, and a lone header line (no instance run) comes back as itself |
| TestSeriesLegacy.WrittenAsIsHasNoLineEnd | test-series/test_series.py:105-108 | as written, the whole document is one unterminated line |
| LogEvaluation.Max | logViewer/testSeries/evaluate_logs.py:40-41 | the maximum of a non-empty list is one of its entries and no entry exceeds it |
| LogEvaluation.BadIffSomeStepOver | logViewer/testSeries/evaluate_logs.py:46-49 | a simulation is bad exactly when some step has more than 15 dead particles, and good exactly when none has; a log without counts raises |
| LogEvaluation.ProcessLogs | logViewer/testSeries/evaluate_logs.py:173-177 | the loop keeps exactly what the filter specification keeps |
| LogEvaluation.GoodLogsOk | logViewer/testSeries/evaluate_logs.py:173-177 | process_logs fails exactly when some log has no counts |
| LogEvaluation.GoodLogsOrdered | logViewer/testSeries/evaluate_logs.py:173-177 | the kept logs are a subsequence of the logs, in their order |
| LogEvaluation.GoodLogsSound | logViewer/testSeries/evaluate_logs.py:173-177 | every kept log is one of the logs and not bad |
| LogEvaluation.GoodLogsComplete | logViewer/testSeries/evaluate_logs.py:173-177 | every log that is not bad is kept |
| LogEvaluation.GoodLogsAllGood | logViewer/testSeries/evaluate_logs.py:173-177 | with no bad simulation every log is kept |
| LogEvaluation.GoodLogsStaysFailed | logViewer/testSeries/evaluate_logs.py:175-176 | once a log raises, the longer prefixes raise the same |
| LogEvaluation.DropLast | logViewer/testSeries/evaluate_logs.py:78 | `s[0:-1]` is the text without its last character |
| LogEvaluation.BlankSkipped | logViewer/testSeries/evaluate_logs.py:72-73 | a blank line adds no record |
| LogEvaluation.LogFileDesc.constructor | logViewer/testSeries/evaluate_logs.py:63-66 | a new description stores its file name and holds no records |
| LogEvaluation.LogFileDesc.ReadContents | logViewer/testSeries/evaluate_logs.py:68-90 | the records are those read from the lines in order, after clearing the old ones; a line that cannot be read raises, and the records read before it stay |
| LogEvaluation.ReadStaysFailed | logViewer/testSeries/evaluate_logs.py:74-75 | after the first unreadable line (not exactly four tab-separated fields, or a value that is no number), further lines change nothing |
| LogEvaluation.FieldReadsBack | logViewer/testSeries/evaluate_logs.py:79-86 | removing the "name=" prefix and parsing gives the value back |
| LogEvaluation.DescriptionLineFields | logViewer/generate_logs.py:138-139 | a description line splits at its tabs into the run's "<prefix><n>.csv:" and the three "name=value" texts |
| LogEvaluation.DescriptionLineReadsBack | logViewer/generate_logs.py:138-139 | a line that run_for_all writes reads back as the log file it names with its three values |
| LogEvaluation.DescriptionFileReadsBack | logViewer/testSeries/evaluate_logs.py:68-90 | the description file of a sweep reads back completely: one record per run, numbered from 1, holding that run's values |
| Base64.OutputLengthBounds | src/libFluid/serialization/helpers/Base64.cpp:5-19 | the output length is 4 * ceil(n / 3): the fewest whole groups of four characters that hold n bytes |
| Base64.CharOf | src/libFluid/serialization/helpers/Base64.cpp:23 | an alphabet character is never '=' and never above 'z' |
| Base64.ValueOf | src/libFluid/serialization/helpers/Base64.cpp:93-100 | a table value is a six-bit value or the invalid marker |
| Base64.ValueOfCharOf | src/libFluid/serialization/helpers/Base64.cpp:93-119 | every alphabet character decodes back to its index, and '=' is invalid |
| Base64.TableEntries | src/libFluid/serialization/helpers/Base64.cpp:93-119 | '+' and '-' give 62, '/' and '_' give 63, and nothing else does; characters above 'z' are invalid |
| Base64.OmitsInvalid | src/libFluid/serialization/helpers/Base64.cpp:160-174 | a group yields one byte per valid value among its last three characters |
| Base64.EncodedLength | src/libFluid/serialization/helpers/Base64.cpp:32-34 | the encoding has exactly get_length_of_output_string(n) characters |
| Base64.BytesRoundTrip | src/libFluid/serialization/helpers/Base64.cpp:154-173 | decoding the four characters for one to three bytes gives back those bytes |
| Base64.GroupRoundTrip | src/libFluid/serialization/helpers/Base64.cpp:37-85 | decoding the characters of a group gives back the group |
| Base64.RoundTrip | src/libFluid/serialization/serializers/VisualizerSerializer.cpp:185-186 | decode(encode(d)) == d for every byte sequence |
| Base64.EncodeGroupAt | src/libFluid/serialization/helpers/Base64.cpp:40-81 | the loop body writes the group's four characters, '=' for each missing byte |
| Base64.WriteGroup | src/libFluid/serialization/helpers/Base64.cpp:59-84 | the four stores append exactly the four characters at the output index |
| Base64.EncodeToBase64 | src/libFluid/serialization/helpers/Base64.cpp:21-88 | the filled string is the encoding of the input (empty for empty input) |
| Base64.PushGroup | src/libFluid/serialization/helpers/Base64.cpp:155-173 | the bytes pushed for one group are the group's decoded bytes |
| Base64.DecodeFromBase64 | src/libFluid/serialization/helpers/Base64.cpp:90-177 | the result is the decoding of the input (empty for empty input), missing characters read as '=' |
| Base64.PaddingCount | src/libFluid/serialization/helpers/Base64.cpp:62-81 | at most two '=' are appended, none exactly when n is a multiple of 3 |
| Base64.PaddingAtEnd | src/libFluid/serialization/helpers/Base64.cpp:62-81 | one trailing byte gives "==", two give "=", whole groups none; '=' appears only there |
| Base64.UrlSafeAccepted | src/libFluid/serialization/helpers/Base64.cpp:95-98 | the decoder reads '-' as '+' and '_' as '/' |
| Base64.Examples | src/libFluid/serialization/helpers/Base64.cpp:25-29 | the empty input gives the empty output both ways; "Ma" and "TWE=" encode and decode to each other |
| Utf8.EncodedLength | src/engine/Window.cpp:296-310 | the encoder picks one to four bytes |
| Utf8.UnicodeToUtf8 | src/engine/Window.cpp:293-312 | the output has the length of its form, and every byte after the first is a continuation byte 0x80-0xBF |
| Utf8.LeadByteMarksLength | src/engine/Window.cpp:296-310 | the lead byte is the code point itself up to 0x7F, and otherwise carries the 110, 1110 or 11110 marker of its length |
| Utf8.DecodeOfEncode | src/engine/Window.cpp:293-312 | decoding the output gives the code point with the bits above 0x1FFFFF cleared (the 0x07 lead mask) |
| Utf8.RoundTrip | src/engine/Window.cpp:293-312 | code points up to 0x1FFFFF survive the round trip through a UTF-8 decoder |
| Utf8.SurrogateIsEncoded | src/engine/Window.cpp:301-304 | there is no surrogate check: U+D800 encodes as ED A0 80 |
| CompressedNeighbors.Width | src/libFluid/fluidSolver/neighborhoodSearch/CompressedNeighbors.cpp:336-358 | a control pair stands for 0, 1 or 4 delta bytes |
| CompressedNeighbors.LittleEndianRoundTrip | src/libFluid/fluidSolver/neighborhoodSearch/CompressedNeighbors.cpp:310-314 | n little-endian bytes of a number below 256^n assemble back to it |
| CompressedNeighbors.LittleEndianFour | src/libFluid/fluidSolver/neighborhoodSearch/CompressedNeighbors.cpp:311-314 | the four bytes are the shifts and masks set_next_neighbor computes |
| CompressedNeighbors.DeltaBytes | src/libFluid/fluidSolver/neighborhoodSearch/CompressedNeighbors.cpp:288-317 | a delta of 1 or 2 has no bytes, 3 to 258 one byte delta - 3, larger ones the four little-endian bytes of delta - 259 |
| CompressedNeighbors.DecodeWide | src/libFluid/fluidSolver/neighborhoodSearch/CompressedNeighbors.cpp:369-373 | the four bytes of a wide delta plus 259 give the delta back |
| CompressedNeighbors.EncodesAppend | src/libFluid/fluidSolver/neighborhoodSearch/CompressedNeighbors.cpp:275-319 | storing a delta's code and bytes after those in use keeps every earlier delta and stores the new one |
| CompressedNeighbors.DecodeEncoded | src/libFluid/fluidSolver/neighborhoodSearch/CompressedNeighbors.cpp:334-378 | a stored delta below 2^32 - 1 is decoded back by get_delta's reading of the pairs and bytes |
| CompressedNeighbors.NeighborStorage.constructor | src/libFluid/fluidSolver/neighborhoodSearch/CompressedNeighbors.cpp:259-267 | a new storage is clear |
| CompressedNeighbors.NeighborStorage.Clear | src/libFluid/fluidSolver/neighborhoodSearch/CompressedNeighbors.cpp:259-267 | clear gives size 0, no delta bytes, first neighbor -1, all control bits false and all delta bytes zero |
| CompressedNeighbors.NeighborStorage.SetFirstNeighbor | src/libFluid/fluidSolver/neighborhoodSearch/CompressedNeighbors.cpp:269-273 | set_first_neighbor stores the index, with size 1 and no delta bytes |
| CompressedNeighbors.NeighborStorage.SetNextNeighbor | src/libFluid/fluidSolver/neighborhoodSearch/CompressedNeighbors.cpp:275-320 | needs a non-zero delta and size - 1 below MAX_DELTAS; the delta is appended to the stored ones, its code goes into pair size - 1 and its bytes after those in use, and the size grows by one |
| CompressedNeighbors.NeighborStorage.WriteCode | src/libFluid/fluidSolver/neighborhoodSearch/CompressedNeighbors.cpp:280-317 | each branch on the delta's size writes the delta's control pair and, for the wide forms, its bytes |
| CompressedNeighbors.NeighborStorage.Size | src/libFluid/fluidSolver/neighborhoodSearch/CompressedNeighbors.cpp:322-324 | the size is 0 or one more than the number of stored deltas |
| CompressedNeighbors.NeighborStorage.GetFirstNeighbor | src/libFluid/fluidSolver/neighborhoodSearch/CompressedNeighbors.cpp:326-328 | the first neighbor is returned truncated to 32 bits |
| CompressedNeighbors.NeighborStorage.GetDelta | src/libFluid/fluidSolver/neighborhoodSearch/CompressedNeighbors.cpp:334-378 | get_delta(k) returns the k-th delta passed to set_next_neighbor (when below 2^32 - 1) |
| CompressedNeighbors.NeighborStorage.StartingByteIndex | src/libFluid/fluidSolver/neighborhoodSearch/CompressedNeighbors.cpp:343-358 | the scan adds up the byte widths of the pairs before the delta |
| CompressedNeighbors.NeighborStorage.Neighbors | src/libFluid/fluidSolver/neighborhoodSearch/CompressedNeighbors.cpp:380-470 | the iterator visits nothing at size 0, otherwise the first neighbor and then each delta added on |
| CompressedNeighbors.NeighborStorage.StoreNeighbors | src/libFluid/fluidSolver/neighborhoodSearch/CompressedNeighbors.cpp:560-593 | storing the neighbors found, in increasing order, lets the iterator give them back exactly, with every delta positive |
| CompressedNeighbors.NeighborStorage.StoreNext | src/libFluid/fluidSolver/neighborhoodSearch/CompressedNeighbors.cpp:580-586 | one later neighbor is stored as its distance to the previous one |
| CompressedNeighbors.WalkIncreasing | src/libFluid/fluidSolver/neighborhoodSearch/CompressedNeighbors.cpp:578-585 | positive deltas give strictly increasing neighbor indices |
| CompressedNeighbors.SearchCell | src/libFluid/fluidSolver/neighborhoodSearch/CompressedNeighbors.cpp:58-77 | on a map sorted by cell index, the search returns the cell's first particle exactly when the cell is in [left, right), and -1 otherwise |
| CompressedNeighbors.GetParticleIndexByCellIndex | src/libFluid/fluidSolver/neighborhoodSearch/CompressedNeighbors.cpp:57-80 | a result other than -1 is the first particle of that cell; a cell absent from the map gives -1 |
| CompactHashTable.WrapInt32 | src/core/fluidSolver/neighborhoodSearch/CompactHashingNeighborhoodSearch.cpp:285 | an int32 product wraps around to the int32 range, congruent modulo 2^32 |
| CompactHashTable.ToUInt64 | src/core/fluidSolver/neighborhoodSearch/CompactHashingNeighborhoodSearch.cpp:285 | the cast to uint64_t sign-extends a negative int32 |
| CompactHashTable.CalculateHashValue | src/core/fluidSolver/neighborhoodSearch/CompactHashingNeighborhoodSearch.cpp:279-286 | the hash of a cell is a slot of the table |
| CompactHashTable.Lookup | src/core/fluidSolver/neighborhoodSearch/CompactHashingNeighborhoodSearch.cpp:295-318 | a value found is one stored for the key, and a key stored nowhere is not found |
| CompactHashTable.FillUpdates | src/core/fluidSolver/neighborhoodSearch/CompactHashingNeighborhoodSearch.cpp:332-336 | filling the empty slot the probe stops at maps the key to the value and leaves every other key's answer alone |
| CompactHashTable.OverwriteUpdates | src/core/fluidSolver/neighborhoodSearch/CompactHashingNeighborhoodSearch.cpp:339-341 | overwriting the key's own slot changes only that key's answer |
| CompactHashTable.LinkedUpdates | src/core/fluidSolver/neighborhoodSearch/CompactHashingNeighborhoodSearch.cpp:351-362 | linking a new slot after a chain's end maps the key to the value and leaves every other key's answer alone |
| CompactHashTable.FirstEmpty | src/core/fluidSolver/neighborhoodSearch/CompactHashingNeighborhoodSearch.cpp:351-365 | the offset of the first empty slot within 63 places of the chain's end, or none when all are occupied |
| CompactHashTable.CumulativeProbe | src/core/fluidSolver/neighborhoodSearch/CompactHashingNeighborhoodSearch.cpp:353-365 | the collision probe as written tries the slot i(i+1)/2 places after the chain's end at step i |
| CompactHashTable.SetAsWritten | src/core/fluidSolver/neighborhoodSearch/CompactHashingNeighborhoodSearch.cpp:327-372 | SetValueByKey as written keeps the table size |
| CompactHashTable.CumulativeProbeLosesKey | src/core/fluidSolver/neighborhoodSearch/CompactHashingNeighborhoodSearch.cpp:353-359 | as written, a third key in a four-slot table is stored in slot 3 with link 2, and its lookup misses it |
| CompactHashTable.LinkedProbeFindsKey | src/core/fluidSolver/neighborhoodSearch/CompactHashingNeighborhoodSearch.cpp:351-362 | with linear probing the same key is stored in the linked slot and found |
| CompactHashTable.FailedKeeps | src/core/fluidSolver/neighborhoodSearch/CompactHashingNeighborhoodSearch.cpp:352-367 | a failed insertion only rewrites the chain end's unused link, and every key's answer stays |
| CompactHashTable.RemoveChained | src/core/fluidSolver/neighborhoodSearch/CompactHashingNeighborhoodSearch.cpp:395-442 | RemoveKey keeps the table's chains well formed |
| CompactHashTable.RemoveCount | src/core/fluidSolver/neighborhoodSearch/CompactHashingNeighborhoodSearch.cpp:395-442 | an absent key leaves the table unchanged; a found key loses exactly one copy of the pair its lookup returned, and every other pair keeps its count |
| CompactHashTable.RemovalsLoseKey | src/core/fluidSolver/neighborhoodSearch/CompactHashingNeighborhoodSearch.cpp:411-429 | after two removals along a chain of three, the third key is still stored but its probe starts at an emptied slot and misses it |
| CompactHashTable.FirstRemoval | src/core/fluidSolver/neighborhoodSearch/CompactHashingNeighborhoodSearch.cpp:411-429 | removing the chain's head moves the other two keys one link back |
| CompactHashTable.SecondRemoval | src/core/fluidSolver/neighborhoodSearch/CompactHashingNeighborhoodSearch.cpp:411-429 | removing the next key moves the last one into slot 0, before its hash slot |
| CompactHashTable.FoundBeforeRemovals | src/core/fluidSolver/neighborhoodSearch/CompactHashingNeighborhoodSearch.cpp:295-318 | before the removals the third key is found along the chain |
| CompactHashTable.OccupiedCells | src/core/fluidSolver/neighborhoodSearch/CompactHashingNeighborhoodSearch.cpp:381-393 | the cells iteration lists are exactly those of occupied slots |
| CompactHashTable.NextOccupied | src/core/fluidSolver/neighborhoodSearch/CompactHashingNeighborhoodSearch.cpp:712-720 | the next occupied slot at or after i, with every slot between empty, or the table size |
| CompactHashTable.HashTable.constructor | tests/CompactHashingComponentTests/CompactHashingHashTableTests.cpp:62-71 | a new table is all empty: no key is found and begin() == end() |
| CompactHashTable.HashTable.FindSlot | src/core/fluidSolver/neighborhoodSearch/CompactHashingNeighborhoodSearch.cpp:299-316 | the probe walk stops where the lookup specification says |
| CompactHashTable.HashTable.GetValueByKey | src/core/fluidSolver/neighborhoodSearch/CompactHashingNeighborhoodSearch.cpp:288-318 | the key is found exactly when the lookup finds it, with its value |
| CompactHashTable.HashTable.FindEmptyOffset | src/core/fluidSolver/neighborhoodSearch/CompactHashingNeighborhoodSearch.cpp:353-365 | the linear collision probe returns the first empty offset within 63 places |
| CompactHashTable.HashTable.SetValueByKey | src/core/fluidSolver/neighborhoodSearch/CompactHashingNeighborhoodSearch.cpp:320-372 | afterwards the key maps to the value and every other key to what it mapped to before; it fails ("Could not find a empty hash table cell!") only when the 63 slots after a new collision are all occupied |
| CompactHashTable.HashTable.LinkSlot | src/core/fluidSolver/neighborhoodSearch/CompactHashingNeighborhoodSearch.cpp:356-361 | the key goes i slots past the chain's end, linked from it |
| CompactHashTable.HashTable.RemoveKey | src/core/fluidSolver/neighborhoodSearch/CompactHashingNeighborhoodSearch.cpp:395-442 | the table after removal is the removal specification: absent key, unlinked slot emptied, or the chain shifted one link back |
| CompactHashTable.HashTable.MoveBack | src/core/fluidSolver/neighborhoodSearch/CompactHashingNeighborhoodSearch.cpp:416-425 | one shift copies the linked handle into the current slot, which keeps its own link |
| CompactHashTable.HashTable.Begin | src/core/fluidSolver/neighborhoodSearch/CompactHashingNeighborhoodSearch.cpp:386-393 | begin() is the first occupied slot or the table size |
| CompactHashTable.HashTable.Increment | src/core/fluidSolver/neighborhoodSearch/CompactHashingNeighborhoodSearch.cpp:712-720 | operator++ moves to the next occupied slot or the table size |
| CompactHashTable.HashTable.Cells | src/core/fluidSolver/neighborhoodSearch/CompactHashingNeighborhoodSearch.cpp:381-393 | iterating from begin() to end() visits every occupied slot's cell, in slot order |
| CompactNeighborStorage.StartIsProduct | src/core/fluidSolver/neighborhoodSearch/CompactHashingNeighborhoodSearch.cpp:243-248 | the recursive block start equals the product particleIndex * (neighborStorageSizePerParticle + 1) the source computes |
| CompactNeighborStorage.StartLess | src/core/fluidSolver/neighborhoodSearch/CompactHashingNeighborhoodSearch.cpp:236-248 | a later particle's block starts after the whole of an earlier one |
| CompactNeighborStorage.BlockPosition | src/core/fluidSolver/neighborhoodSearch/CompactHashingNeighborhoodSearch.cpp:241-249 | entry a of one particle's block and entry b of another's are the same vector entry only when particle and entry agree: blocks never overlap |
| CompactNeighborStorage.BlockInside | src/core/fluidSolver/neighborhoodSearch/CompactHashingNeighborhoodSearch.cpp:236-249 | every entry of every particle's block lies inside the vector ResizeVector sizes |
| CompactNeighborStorage.ViewOf | src/core/fluidSolver/neighborhoodSearch/CompactHashingNeighborhoodSearch.cpp:236-249 | the vector read as one block per particle, each with neighborStorageSizePerParticle slots after its count |
| CompactNeighborStorage.ViewAfterWrite | src/core/fluidSolver/neighborhoodSearch/CompactHashingNeighborhoodSearch.cpp:241-249 | writing one entry of one block changes that entry of that block and no other block |
| CompactNeighborStorage.Resized | src/core/fluidSolver/neighborhoodSearch/CompactHashingNeighborhoodSearch.cpp:236-238 | std::vector::resize keeps the prefix and appends zeros |
| CompactNeighborStorage.GrowKeepsBlocks | src/core/fluidSolver/neighborhoodSearch/CompactHashingNeighborhoodSearch.cpp:267-271 | growing the particle count under the same block size keeps the old blocks and adds empty ones |
| CompactNeighborStorage.NeighborStorage.constructor | src/core/fluidSolver/neighborhoodSearch/CompactHashingNeighborhoodSearch.cpp:230-234 | the vector holds one empty block per particle |
| CompactNeighborStorage.NeighborStorage.ResizeVector | src/core/fluidSolver/neighborhoodSearch/CompactHashingNeighborhoodSearch.cpp:236-238 | the vector is resized to (size per particle + 1) * particle count |
| CompactNeighborStorage.NeighborStorage.SetTotalParticleCount | src/core/fluidSolver/neighborhoodSearch/CompactHashingNeighborhoodSearch.cpp:267-271 | the particle count is set and the vector resized; with more particles the old blocks keep their contents and the new ones are empty |
| CompactNeighborStorage.NeighborStorage.SetNeighborStorageSizePerParticle | src/core/fluidSolver/neighborhoodSearch/CompactHashingNeighborhoodSearch.cpp:256-260 | the block size is set and the vector resized, entries keeping their flat positions |
| CompactNeighborStorage.NeighborStorage.FitToCollection | src/core/fluidSolver/neighborhoodSearch/CompactHashingNeighborhoodSearch.cpp:19-21 | a storage smaller than the collection is set to the collection size truncated to particleAmount_t, otherwise left alone; when the count does not drop the existing blocks are kept |
| CompactNeighborStorage.FittedCount | src/core/fluidSolver/neighborhoodSearch/CompactHashingNeighborhoodSearch.cpp:19-21 | the fitted count fits particleAmount_t, and for a collection size that fits the type it never shrinks, covers the collection, and is unchanged when the storage is already large enough |
| CompactNeighborStorage.FitWrapsAround | src/core/fluidSolver/neighborhoodSearch/CompactHashingNeighborhoodSearch.cpp:19-21 | a collection of 65536 particles truncates the count to 0 |
| CompactNeighborStorage.NeighborStorage.SetCount | src/core/fluidSolver/neighborhoodSearch/CompactHashingNeighborhoodSearch.cpp:241-245 | particle p's count is set and no other entry of any block changes |
| CompactNeighborStorage.NeighborStorage.GetCount | src/core/fluidSolver/neighborhoodSearch/CompactHashingNeighborhoodSearch.cpp:273-276 | the first entry of particle p's block |
| CompactNeighborStorage.NeighborStorage.AddNeighbor | src/core/fluidSolver/neighborhoodSearch/CompactHashingNeighborhoodSearch.cpp:191-196 | a full block throws the storage-exceeded logic_error and changes nothing; otherwise the neighbor goes into the next slot of p's block, the count so far grows by one, and no other entry changes |
| CompactNeighborStorage.NeighborStorage.FindNeighborsOfParticle | src/core/fluidSolver/neighborhoodSearch/CompactHashingNeighborhoodSearch.cpp:29-62 | the neighbors found are stored in order and the count set, failing exactly when there are more than the block holds; on failure the block holds the first neighbors that fit, with the old count; no other particle's block changes either way |
| CompactNeighborStorage.NeighborStorage.AddNeighbors | src/core/fluidSolver/neighborhoodSearch/CompactHashingNeighborhoodSearch.cpp:29-62 | the neighbors found go into consecutive slots of p's block over its old data, all of them when they fit and otherwise as many as fit, with the storage-exceeded error; the count and every other block are unchanged |
| CompactNeighborStorage.NeighborStorage.GetNeighbors | src/core/fluidSolver/neighborhoodSearch/CompactHashingNeighborhoodSearch.cpp:69-72 | the first count slots of particle p's block |
| CompactNeighborStorage.StoreThenRead | src/core/fluidSolver/neighborhoodSearch/CompactHashingNeighborhoodSearch.cpp:14-72 | after a successful search of a particle, GetNeighbors returns exactly the neighbors found, in order; it fails exactly when they exceed the block size |
| CellStorage.EmptySection | src/core/fluidSolver/neighborhoodSearch/CompactHashingNeighborhoodSearch.cpp:612-617 | a section appended by growing the vector has count 0, no link and reset slots |
| CellStorage.ElementCount | src/core/fluidSolver/neighborhoodSearch/CompactHashingNeighborhoodSearch.cpp:531-541 | the element count is the number of particles along the chain, as a 16-bit value |
| CellStorage.ChainEnd | src/core/fluidSolver/neighborhoodSearch/CompactHashingNeighborhoodSearch.cpp:556-568 | the chain's last section is the first one without a link |
| CellStorage.FirstEmptySection | src/core/fluidSolver/neighborhoodSearch/CompactHashingNeighborhoodSearch.cpp:605-610 | the first section from the minimum on whose count is 0, if any |
| CellStorage.NewSection | src/core/fluidSolver/neighborhoodSearch/CompactHashingNeighborhoodSearch.cpp:602-619 | an empty section from the minimum on, or a new reset section appended at the end |
| CellStorage.AddAppends | src/core/fluidSolver/neighborhoodSearch/CompactHashingNeighborhoodSearch.cpp:574-600 | adding a particle (with the overflow link written) keeps the storage well formed and appends the particle to its chain |
| CellStorage.AddCounts | src/core/fluidSolver/neighborhoodSearch/CompactHashingNeighborhoodSearch.cpp:531-600 | adding a particle adds one to the chain's element count, modulo 2^16 |
| CellStorage.AddAsWritten | src/core/fluidSolver/neighborhoodSearch/CompactHashingNeighborhoodSearch.cpp:574-600 | AddParticleToStorageSection as written never shrinks the storage |
| CellStorage.AddAsWrittenLosesParticle | src/core/fluidSolver/neighborhoodSearch/CompactHashingNeighborhoodSearch.cpp:592-598 | as written, a second particle added to a full one-slot section goes to a section that nothing links to: the chain and its count keep only the first |
| CellStorage.AddKeepsBothParticles | src/core/fluidSolver/neighborhoodSearch/CompactHashingNeighborhoodSearch.cpp:592-598 | with the overflow link written, the chain holds both particles and counts 2 |
| CellStorage.ClearEmptiesChains | src/core/fluidSolver/neighborhoodSearch/CompactHashingNeighborhoodSearch.cpp:516-525 | after ClearStorage every chain is empty, counts 0, and the storage stays well formed |
| CellStorage.RemoveDeletesAll | src/core/fluidSolver/neighborhoodSearch/CompactHashingNeighborhoodSearch.cpp:636-656 | removing a particle from a section without a link deletes every handle of that particle and keeps every other handle |
| CellStorage.RemoveAbsent | src/core/fluidSolver/neighborhoodSearch/CompactHashingNeighborhoodSearch.cpp:636-656 | removing a particle that is not in the section changes nothing |
| CellStorage.DataEndAsWritten | src/core/fluidSolver/neighborhoodSearch/CompactHashingNeighborhoodSearch.cpp:556-572 | GetStorageSectionDataEnd as written: the end position, and the storage with the first header overwritten by each header along the walk |
| CellStorage.DataEndCutsChain | src/core/fluidSolver/neighborhoodSearch/CompactHashingNeighborhoodSearch.cpp:561-566 | as written, finding the end of a chain of two sections drops the first header's link, so the chain loses its second particle |
| CellStorage.RestAtStart | src/core/fluidSolver/neighborhoodSearch/CompactHashingNeighborhoodSearch.cpp:549-553 | an iterator at a section's first slot has the whole chain to visit |
| CellStorage.IncrementVisits | src/core/fluidSolver/neighborhoodSearch/CompactHashingNeighborhoodSearch.cpp:486-497 | one ++ visits the handle the iterator was on, jumping along the link after a section's last used slot |
| CellStorage.Storage.constructor | src/core/fluidSolver/neighborhoodSearch/CompactHashingNeighborhoodSearch.cpp:683-686 | a new storage has the given section capacity and no sections |
| CellStorage.Storage.ClearStorage | src/core/fluidSolver/neighborhoodSearch/CompactHashingNeighborhoodSearch.cpp:516-525 | every header is reset to count 0 and no link; the number of sections stays |
| CellStorage.Storage.GetEmptySection | src/core/fluidSolver/neighborhoodSearch/CompactHashingNeighborhoodSearch.cpp:602-619 | the first empty section from the minimum on, or a new one appended |
| CellStorage.Storage.AddParticle | src/core/fluidSolver/neighborhoodSearch/CompactHashingNeighborhoodSearch.cpp:574-600 | the storage after adding is the add specification, with the overflow link written |
| CellStorage.Storage.AddToLast | src/core/fluidSolver/neighborhoodSearch/CompactHashingNeighborhoodSearch.cpp:578-598 | the step at a section that is not full, or full without a link |
| CellStorage.Storage.RemoveParticle | src/core/fluidSolver/neighborhoodSearch/CompactHashingNeighborhoodSearch.cpp:621-656 | the section loses every handle of the particle, scanning the used slots from last to first |
| CellStorage.Storage.DataEnd | src/core/fluidSolver/neighborhoodSearch/CompactHashingNeighborhoodSearch.cpp:555-572 | the end iterator points behind the used slots of the chain's last section, and nothing is changed |
| CellStorage.Storage.Particles | src/core/fluidSolver/neighborhoodSearch/CompactHashingNeighborhoodSearch.cpp:486-572 | iterating from the data begin to the data end visits exactly the chain's particles, in order |
| ParticleSort.SwapEntries | src/libFluid/fluidSolver/ParticleCollection.hpp:112-120 | the two particles trade places and nothing else changes |
| ParticleSort.Keyed | src/libFluid/fluidSolver/ParticleCollectionAlgorithm.cpp:131-138 | every entry gets the key computed from its own particle |
| ParticleSort.PrecalculateKeys | src/libFluid/fluidSolver/ParticleCollectionAlgorithm.cpp:131-138 | slot i's sort key becomes key(i) for every i, and no particle moves |
| ParticleSort.MoveBackSameElements | src/libFluid/fluidSolver/ParticleCollectionAlgorithm.cpp:41-46 | moving an element back by adjacent swaps keeps the same elements |
| ParticleSort.MoveByAdjacentSwaps | src/libFluid/fluidSolver/ParticleCollectionAlgorithm.cpp:41-46 | the inner loop of merge moves the element at the right index back to the left index, shifting the ones between |
| ParticleSort.AlreadyMerged | src/libFluid/fluidSolver/ParticleCollectionAlgorithm.cpp:28-29 | two sorted runs whose boundary is in order are already one sorted run (merge's early return) |
| ParticleSort.Merge | src/libFluid/fluidSolver/ParticleCollectionAlgorithm.cpp:24-53 | two adjacent sorted runs become one sorted run, a permutation of the range |
| ParticleSort.MergeSortRange | src/libFluid/fluidSolver/ParticleCollectionAlgorithm.cpp:57-66 | the range [left, right) ends sorted and permuted within itself |
| ParticleSort.MergeSort | src/libFluid/fluidSolver/ParticleCollectionAlgorithm.cpp:17-70 | the collection ends sorted by the precalculated keys and is a permutation of the keyed collection |
| ParticleSort.PartitionStep | src/libFluid/fluidSolver/ParticleCollectionAlgorithm.cpp:103-111 | one iteration swaps a key below the pivot to i + 1 and keeps the partition invariant |
| ParticleSort.PartitionLoop | src/libFluid/fluidSolver/ParticleCollectionAlgorithm.cpp:101-111 | after the loop the keys below the pivot come first |
| ParticleSort.Partition | src/libFluid/fluidSolver/ParticleCollectionAlgorithm.cpp:98-115 | the pivot (the last key) ends at the returned index, with strictly smaller keys before it and no smaller keys after it, as a permutation of the range |
| ParticleSort.QuickSortJoin | src/libFluid/fluidSolver/ParticleCollectionAlgorithm.cpp:118-126 | sorting the parts below and above the pivot sorts the whole range |
| ParticleSort.QuickSortRange | src/libFluid/fluidSolver/ParticleCollectionAlgorithm.cpp:118-126 | the range [low, high] ends sorted and permuted within itself; shorter ranges are left alone |
| ParticleSort.QuickSort | src/libFluid/fluidSolver/ParticleCollectionAlgorithm.cpp:91-129 | the collection ends sorted by the precalculated keys and is a permutation of the keyed collection (tests/ParticleCollectionTests/PCQuickSortTest.cpp:27-31) |
| ParticleSort.InsertElement | src/libFluid/fluidSolver/ParticleCollectionAlgorithm.cpp:81-87 | with the key copied and a signed index, the element at i is swapped back into the sorted prefix |
| ParticleSort.InsertionSort | src/libFluid/fluidSolver/ParticleCollectionAlgorithm.cpp:72-89 | corrected insertion sort: the collection ends sorted and is a permutation of the keyed collection |
| ParticleSort.InsertAsWritten | src/libFluid/fluidSolver/ParticleCollectionAlgorithm.cpp:81-87 | the inner loop as written, when it stays inside the collection, only permutes |
| ParticleSort.InsertionSortAsWritten | src/libFluid/fluidSolver/ParticleCollectionAlgorithm.cpp:79-88 | insertion_sort as written, when it stays inside the collection, only permutes |
| ParticleSort.InsertionSortAsWrittenMisorders | src/libFluid/fluidSolver/ParticleCollectionAlgorithm.cpp:81-87 | as written, keys [1, 2, 0] come out as [1, 0, 2], which is not sorted |
| ParticleSort.InsertionSortAsWrittenReadsBelowZero | src/libFluid/fluidSolver/ParticleCollectionAlgorithm.cpp:82-86 | as written, keys [2, 1] make the size_t index step below 0 and read outside the collection |
| Swaps.Swap | src/libFluid/fluidSolver/ParticleCollection.hpp:56-59 | the elements at i and j are exchanged, every other one stays, and the elements are the same |
| Swaps.SwapTwice | src/libFluid/fluidSolver/ParticleCollection.hpp:112-120 | swapping the same pair twice restores the sequence |
| ParticleCollection.ResizeSeq | src/libFluid/fluidSolver/ParticleCollection.hpp:52-55 | std::vector::resize: the array has length n, keeps its first elements and gets blanks after them |
| ParticleCollection.ResizeTwice | src/libFluid/fluidSolver/ParticleCollection.hpp:98-105 | resizing twice to the same length is resizing once |
| ParticleCollection.SwapAllParity | src/libFluid/fluidSolver/ParticleCollection.hpp:112-120 | the swap callbacks swap a component once per registration: an odd count swaps, an even count does not, and unregistered components are untouched |
| ParticleCollection.ResizeAllEffect | src/libFluid/fluidSolver/ParticleCollection.hpp:98-105 | after the resize callbacks every registered component has the new length, keeps its first elements and gets blanks after them |
| ParticleCollection.DoubleRegistrationCancels | src/libFluid/fluidSolver/ParticleCollection.hpp:142-159 | with every callback registered twice, as on a copied collection, swap changes nothing |
| ParticleCollection.CopiedSwapCounterexample | src/libFluid/fluidSolver/ParticleCollection.hpp:142-159 | a component [1, 2] registered once swaps to [2, 1]; registered twice it stays [1, 2] |
| ParticleCollection.ParticleCollection.constructor | src/libFluid/fluidSolver/ParticleCollection.hpp:140 | a default collection has no components and size 0 |
| ParticleCollection.ParticleCollection.IsTypePresent | src/libFluid/fluidSolver/ParticleCollection.hpp:74-86 | true exactly when the id table reaches the type and its entry is not null |
| ParticleCollection.ParticleCollection.AddType | src/libFluid/fluidSolver/ParticleCollection.hpp:40-72 | the id table grows with null entries up to the type; a missing component gets an array of the current size and one registration; a present one is left alone; the size and other components stay |
| ParticleCollection.ParticleCollection.RunResizeCalls | src/libFluid/fluidSolver/ParticleCollection.hpp:101-104 | the resize callbacks run in order |
| ParticleCollection.ParticleCollection.Add | src/libFluid/fluidSolver/ParticleCollection.hpp:88-96 | returns the old size; the size grows by one and every component by one blank element |
| ParticleCollection.ParticleCollection.Resize | src/libFluid/fluidSolver/ParticleCollection.hpp:98-105 | the size and every present component's length become the new size, keeping the first elements |
| ParticleCollection.ParticleCollection.Size | src/libFluid/fluidSolver/ParticleCollection.hpp:107-110 | size() is the internal size |
| ParticleCollection.ParticleCollection.Clear | src/libFluid/fluidSolver/ParticleCollection.hpp:127-130 | clear is resize(0): size 0 and every present component empty |
| ParticleCollection.ParticleCollection.Swap | src/libFluid/fluidSolver/ParticleCollection.hpp:112-120 | needs i, j below the size; runs every swap callback, so with each component registered once elements i and j trade places in every component |
| ParticleCollection.ParticleCollection.Get | src/libFluid/fluidSolver/ParticleCollection.hpp:122-125 | get returns the component's element at the index |
| ParticleCollection.ParticleCollection.Set | src/libFluid/fluidSolver/ParticleCollection.hpp:122-125 | an assignment through get changes that one element |
| ParticleCollection.ParticleCollection.CopyAsWritten | src/libFluid/fluidSolver/ParticleCollection.hpp:142-159 | the copy constructor as written: equal size and data, but every callback registered twice |
| ParticleCollection.ParticleCollection.Copy | src/libFluid/fluidSolver/ParticleCollection.hpp:142-159 | corrected copy: equal size and data, each component registered once |
| ParticleCollection.ParticleCollection.CopyData | src/libFluid/fluidSolver/ParticleCollection.hpp:64-70 | the copy callbacks add each missing type and assign its array |
| StripedCollection.MovedIds | src/core/fluidSolver/particleCollection/StripedParticleCollection.cpp:64-67 | after the particles at i and j trade places, the id of each maps to the other index, and every other id keeps its index |
| StripedCollection.SwapKeepsInverse | src/core/fluidSolver/particleCollection/StripedParticleCollection.cpp:64-83 | swapping two slots and moving their ids keeps the id and index maps inverse permutations |
| StripedCollection.AppendKeepsInverse | src/core/fluidSolver/particleCollection/StripedParticleCollection.cpp:52-59 | a new slot whose id and index are both the new index keeps the maps inverse |
| StripedCollection.AsWrittenSwapBreaksInverse | src/core/fluidSolver/particleCollection/StripedParticleCollection.cpp:64-67 | as written, swap(0, 1) then swap(1, 2) on three new particles leaves an id map that no longer inverts the index map |
| StripedCollection.StripedParticleCollection.constructor | src/core/fluidSolver/particleCollection/StripedParticleCollection.cpp:228-246 | a new collection is empty with its change counter at 0 |
| StripedCollection.StripedParticleCollection.AddEntryToEachArray | src/core/fluidSolver/particleCollection/StripedParticleCollection.cpp:28-44 | every vector gets one zero entry |
| StripedCollection.StripedParticleCollection.AddEmptyParticle | src/core/fluidSolver/particleCollection/StripedParticleCollection.cpp:46-62 | returns the old size; the size grows by one and the new index maps to itself in both maps |
| StripedCollection.StripedParticleCollection.AddParticle | src/core/fluidSolver/particleCollection/StripedParticleCollection.cpp:4-26 | a new slot holding every field of the particle, at the old size |
| StripedCollection.StripedParticleCollection.SwapElementsAsWritten | src/core/fluidSolver/particleCollection/StripedParticleCollection.cpp:64-83 | SwapElements as written: every vector, the id map included, is swapped at positions i and j, and the counter grows by one |
| StripedCollection.StripedParticleCollection.SwapElements | src/core/fluidSolver/particleCollection/StripedParticleCollection.cpp:64-83 | corrected swap: the particles trade places in every vector, the id map follows them, the maps stay inverse, and the counter grows by one |
| StripedCollection.StripedParticleCollection.PrecalculateSortKeys | src/core/fluidSolver/particleCollection/StripedParticleCollection.cpp:86-92 | slot i's sort key becomes key(i) and nothing else changes |
| StripedCollection.StripedParticleCollection.GetParticleId | src/core/fluidSolver/particleCollection/StripedParticleCollection.cpp:220-222 | the id of the particle at an index maps back to that index |
| StripedCollection.StripedParticleCollection.GetIndex | src/core/fluidSolver/particleCollection/StripedParticleCollection.cpp:224-226 | the index an id maps to holds that id |
| StripedCollection.StripedParticleCollection.Get | src/core/fluidSolver/particleCollection/StripedParticleCollection.cpp:11-22 | the fields of the particle at the index |
| StripedCollection.StripedParticleCollection.Clear | src/core/fluidSolver/particleCollection/StripedParticleCollection.cpp:228-246 | size 0 and every vector emptied; the change counter stays |
| StripedCollection.SwapFollowsParticle | src/core/fluidSolver/particleCollection/StripedParticleCollection.cpp:64-83 | an added particle keeps its id through any corrected swap: its index moves with it and its fields are found there |
| StatisticsCache.BackSlot | src/core/CachedStatisticCollector.cpp:41 | the slot k+1 places behind the pointer lies inside the cache and is the pointer itself only once the whole ring has been walked |
| StatisticsCache.PointerAdvance | src/core/CachedStatisticCollector.cpp:41-60 | after the pointer advances, the slot right behind it is the one just written, and the wrapped slot CreateNewCacheEntry reads is the one behind the old pointer |
| StatisticsCache.LayoutAfterWrite | src/core/CachedStatisticCollector.cpp:35-62 | writing at the pointer and advancing keeps the ring layout: the newest min(entries, cacheSize) entries sit behind the pointer, newest first, each time slot holding the running sum of the timesteps |
| StatisticsCache.CachedStatisticCollector.constructor | src/core/CachedStatisticCollector.cpp:18-33 | both vectors sized to the cache size and zeroed; no entry recorded; the ring layout holds |
| StatisticsCache.CachedStatisticCollector.ResetCache | src/core/CachedStatisticCollector.cpp:13-16 | size and pointer set to 0, every entry forgotten, the vectors keep their stale values and the layout holds |
| StatisticsCache.CachedStatisticCollector.CreateNewCacheEntry | src/core/CachedStatisticCollector.cpp:35-62 | the time slot at the pointer becomes the previous time plus the timestep (the timestep alone on an empty cache), the sample goes to the same slot, the pointer advances modulo the cache size, the size grows up to the cache size, and the ring layout is kept |
| StatisticsCache.CachedStatisticCollector.CurrentCacheDataSize | src/core/CachedStatisticCollector.cpp:64-66 | the number of valid entries is the smaller of the cache size and the number of entries recorded |
| Timeline.CachePath | src/fluidStudio/TimelineService.cpp:46 | a snapshot file lies in the cache folder and ends in ".data" |
| Timeline.CachePathInjective | src/fluidStudio/TimelineService.cpp:46 | different timestep numbers give different snapshot files |
| Timeline.AfterSave | src/fluidStudio/TimelineService.cpp:41-64 | after a save the cursor is valid and on the new last entry, and the entries before it are those up to the old cursor (none on an empty list) |
| Timeline.AfterOverride | src/fluidStudio/TimelineService.cpp:116-142 | after an override the cursor is valid, stays where it was on a non-empty list and is the last entry, which is the new one; the entries before it are unchanged |
| Timeline.SaveThenOverride | src/fluidStudio/TimelineService.cpp:41-142 | overriding right after a save has the same effect on list and cursor as saving the second snapshot instead |
| Timeline.StoredAfterWrite | src/fluidStudio/TimelineService.cpp:19-23 | writing a snapshot file keeps every listed entry backed by its file |
| Timeline.StoredAppend | src/fluidStudio/TimelineService.cpp:63 | appending a stored snapshot keeps every entry backed by its file |
| Timeline.StoredPrefix | src/fluidStudio/TimelineService.cpp:54 | cutting the future off the list, or replacing an entry by a stored one, keeps every entry backed by its file |
| Timeline.TimelineService.constructor | src/fluidStudio/TimelineService.cpp:34-39 | an empty timeline for the given cache folder with no files |
| Timeline.TimelineService.Reset | src/fluidStudio/TimelineService.cpp:34-39 | the snapshot files are deleted, the list emptied and the cursor set to 0 |
| Timeline.TimelineService.CreateFile | src/fluidStudio/TimelineService.cpp:19-23 | the snapshot is written to the cache path of its timestep; list and cursor unchanged |
| Timeline.TimelineService.SaveTimestepResult | src/fluidStudio/TimelineService.cpp:41-64 | the file of the current time point is written and list and cursor become AfterSave of the old ones; every entry stays backed by its file |
| Timeline.TimelineService.OverrideTimestepResult | src/fluidStudio/TimelineService.cpp:116-142 | the file of the current time point is written and list and cursor become AfterOverride of the old ones; every entry stays backed by its file |
| Timeline.TimelineService.StepTo | src/fluidStudio/TimelineService.cpp:71-84 | an index past the end changes nothing and loads nothing; otherwise the cursor moves there and that entry's time point and stored collection are loaded |
| Timeline.TimelineService.Size | src/fluidStudio/TimelineService.cpp:66-69 | the number of snapshots in the list |
| Timeline.TimelineService.Current | src/fluidStudio/TimelineService.cpp:111-114 | the cursor, which points into the list whenever it is non-empty |
| SolverTypes.ExactScoresThree | src/fluidStudio/FluidSolverTypes.cpp:176-230 | a partial-match score is at most 3, reaches 3 exactly on an exact match, and every exact match scores 3 under any focus but None |
| SolverTypes.QueryType | src/fluidStudio/FluidSolverTypes.cpp:167-244 | the first exact match wins if there is one; otherwise, with a focus, the earliest type with the highest positive score, and nothing when no type scores (always nothing without a focus) |
| SolverTypes.LexLessIrreflexive | src/fluidStudio/FluidSolverTypes.cpp:261-270 | no name orders before itself in the ordered name sets |
| SolverTypes.LexLessTransitive | src/fluidStudio/FluidSolverTypes.cpp:261-270 | the ordering of names is transitive |
| SolverTypes.LexLessTotal | src/fluidStudio/FluidSolverTypes.cpp:261-270 | any two different names are ordered one way or the other |
| SolverTypes.InsertSorted | src/fluidStudio/FluidSolverTypes.cpp:267-269 | inserting into an ordered set of names gives a strictly sorted sequence holding exactly the old names and the new one |
| SolverTypes.FluidSolverTypes.constructor | src/fluidStudio/FluidSolverTypes.cpp:15-19 | the ten configurations of add_types are registered in order and the name lists are derived from them |
| SolverTypes.FluidSolverTypes.FindPossibleNames | src/fluidStudio/FluidSolverTypes.cpp:259-284 | each name list holds every distinct solver, neighborhood-search or kernel name of the registered types exactly once, in ascending order; the types are unchanged |
| SensorWriter.JoinSnoc | src/libFluid/sensors/SensorWriter.cpp:74-79 | appending a cell to a line adds a separator only when the line already has a cell |
| SensorWriter.RowsTextSnoc | src/libFluid/sensors/SensorWriter.cpp:239-254 | a finished row adds its joined cells and a newline to the file text |
| SensorWriter.EndRowText | src/libFluid/sensors/SensorWriter.cpp:251-253 | ending the current row moves its cells into the finished rows and the text gains one newline |
| SensorWriter.SplitJoin | src/libFluid/sensors/SensorWriter.cpp:10-51 | a header or row line splits back into exactly the cells written, as long as no cell holds the separator |
| SensorWriter.HeaderCells | src/libFluid/sensors/SensorWriter.cpp:16-34 | a d-dimensional header gives d titles: the bare name for d = 1, otherwise the name followed by " - 0" up to " - (d-1)" |
| SensorWriter.Writer.constructor | src/libFluid/sensors/SensorWriter.cpp:89-102 | the writer starts in header mode with no columns and an empty file |
| SensorWriter.Writer.BeginHeader | src/libFluid/sensors/SensorWriter.cpp:53-56 | reports whether the writer is still in header mode |
| SensorWriter.Writer.AppendTitle | src/libFluid/sensors/SensorWriter.cpp:16-19 | one title joins the header line after a separator if it is not the first, and its column records the dimensionality |
| SensorWriter.Writer.PushBackHeader | src/libFluid/sensors/SensorWriter.cpp:10-35 | outside header mode nothing changes; otherwise the titles of HeaderCells are added, each column tagged with the dimensionality, and the column count grows by it |
| SensorWriter.Writer.PushBackHeaderList | src/libFluid/sensors/SensorWriter.cpp:37-51 | outside header mode nothing changes; otherwise one column per name, each tagged with the number of names |
| SensorWriter.Writer.PushBackTimepointHeader | src/libFluid/sensors/SensorWriter.hpp:90-94 | in header mode, a time point header adds the Number, Sim Time, Sys Time and Timestep columns, each of dimensionality 4; outside header mode nothing changes |
| SensorWriter.Writer.EndHeader | src/libFluid/sensors/SensorWriter.cpp:58-65 | the first call leaves header mode and ends the title line with CR LF; later calls change nothing |
| SensorWriter.Writer.PushComponent | src/libFluid/sensors/SensorWriter.cpp:74-79 | a value's text joins the current row after a separator if it is not the row's first cell, and the position advances |
| SensorWriter.Writer.PushBack | src/libFluid/sensors/SensorWriter.cpp:115-135 | a one-dimensional value, allowed only in a column of dimensionality 1, becomes the row's next cell; the columns, their dimensionalities and the column count stay |
| SensorWriter.Writer.PushBackVec2 | src/libFluid/sensors/SensorWriter.cpp:137-150 | a two-component value, allowed only where the column has dimensionality 2, becomes the next two cells; the columns, their dimensionalities and the column count stay |
| SensorWriter.Writer.PushBackVec3 | src/libFluid/sensors/SensorWriter.cpp:152-169 | a three-component value, allowed only where the column has dimensionality 3, becomes the next three cells; the columns, their dimensionalities and the column count stay |
| SensorWriter.Writer.PushBackVec4 | src/libFluid/sensors/SensorWriter.cpp:171-192 | a four-component value or a time point, allowed only where the column has dimensionality 4, becomes the next four cells; the columns, their dimensionalities and the column count stay |
| SensorWriter.Writer.PadRow | src/libFluid/sensors/SensorWriter.cpp:246-250 | the row is filled with empty cells up to the column count; the columns and their dimensionalities stay |
| SensorWriter.Writer.Next | src/libFluid/sensors/SensorWriter.cpp:239-254 | an empty row is left alone; a started row is padded with empty cells to the column count and becomes a finished row, and every finished row has exactly one cell per column; the columns and their dimensionalities stay |
| SensorWriter.TwoColumnText | src/libFluid/sensors/SensorWriter.cpp:239-254 | the file text of columns "a" and "b" with rows "1;2" and "3;" is the title line and the two rows, each ended by CR LF |
| SensorWriter.TwoColumnWriter | src/libFluid/sensors/SensorWriter.cpp:10-65 | a new writer given headers "a" and "b" of dimensionality 1 and ended header mode has those two columns, each of dimensionality 1, and no rows |
| SensorWriter.WriteTwoColumnLog | src/libFluid/sensors/SensorWriter.cpp:10-254 | headers "a" and "b", end_header, push_back "1" and "2", next, push_back "3", next: the file is exactly "a;b", "1;2" and "3;" on three CR LF lines |
| EndianStream.ReverseReverse | src/libFluid/serialization/helpers/EndianSafeBinaryStream.hpp:293-296 | reversing a buffer twice gives it back, so the read side undoes the write side's byte swap |
| EndianStream.Powers | src/libFluid/serialization/helpers/EndianSafeBinaryStream.hpp:50-72 | the value ranges of the 1-, 2-, 4- and 8-byte integer types |
| EndianStream.ValueRoundTrip | src/libFluid/serialization/helpers/EndianSafeBinaryStream.hpp:263-277 | a value that fits in width bytes reads back from its little-endian bytes |
| EndianStream.BytesRoundTrip | src/libFluid/serialization/helpers/EndianSafeBinaryStream.hpp:263-277 | any width bytes read as a value write back as the same bytes |
| EndianStream.LittleEndianSplit | src/libFluid/serialization/helpers/EndianSafeBinaryStream.hpp:235-249 | the little-endian bytes of lo + 256^k * hi are those of lo followed by those of hi, which is how the wider swaps are built from the narrower |
| EndianStream.Swap16Reverses | src/libFluid/serialization/helpers/EndianSafeBinaryStream.hpp:217-226 | the 16-bit swap reverses the value's two bytes |
| EndianStream.SwappedHalves | src/libFluid/serialization/helpers/EndianSafeBinaryStream.hpp:228-252 | byte-reversing both halves of a value and exchanging them reverses all its bytes |
| EndianStream.Swap32Reverses | src/libFluid/serialization/helpers/EndianSafeBinaryStream.hpp:228-240 | the 32-bit swap reverses the value's four bytes |
| EndianStream.Swap64Reverses | src/libFluid/serialization/helpers/EndianSafeBinaryStream.hpp:242-252 | the 64-bit swap reverses the value's eight bytes |
| EndianStream.SwapReverses | src/libFluid/serialization/helpers/EndianSafeBinaryStream.hpp:199-260 | on a big-endian host the swap of every width stays in range and reverses the value's bytes |
| EndianStream.Written | src/libFluid/serialization/helpers/EndianSafeBinaryStream.hpp:273-277 | writing an integer puts its little-endian bytes on the stream on either host |
| EndianStream.ReadBack | src/libFluid/serialization/helpers/EndianSafeBinaryStream.hpp:263-271 | reading little-endian bytes into memory and swapping on a big-endian host gives their little-endian value on either host |
| EndianStream.Available | src/libFluid/serialization/helpers/EndianSafeBinaryStream.hpp:265-266 | one read gets nothing once the stream has failed, otherwise at most n of the bytes left, and exactly the next n when there are that many |
| EndianStream.OverlayAt | src/libFluid/serialization/helpers/EndianSafeBinaryStream.hpp:498 | a read into a buffer shows the bytes read inside its range and the old contents elsewhere |
| EndianStream.Resized | src/libFluid/serialization/helpers/EndianSafeBinaryStream.hpp:133 | resizing a string keeps its prefix and pads with zero bytes |
| EndianStream.ChunkSizesCover | src/libFluid/serialization/helpers/EndianSafeBinaryStream.hpp:484-488 | the array helpers' calls cover the array exactly, each non-empty and at most array_buffer_size bytes |
| EndianStream.ChunkSizesAppend | src/libFluid/serialization/helpers/EndianSafeBinaryStream.hpp:484-488 | after whole buffers, the remainder is the one further call |
| EndianStream.LengthField | src/libFluid/serialization/helpers/EndianSafeBinaryStream.hpp:122-123 | the length in front of a string or vector is 8 bytes |
| EndianStream.LengthRoundTrip | src/libFluid/serialization/helpers/EndianSafeBinaryStream.hpp:122-133 | a length field reads back as the length written |
| EndianStream.StringRoundTrip | src/libFluid/serialization/helpers/EndianSafeBinaryStream.hpp:117-137 | a string written to the stream reads back whole, whatever the string held before |
| EndianStream.ShortStringIsAccepted | src/libFluid/serialization/helpers/EndianSafeBinaryStream.hpp:128-136 | a string whose stated length runs past the end of the stream is not an error: the missing bytes keep the string's previous contents or zero |
| EndianStream.EncodeWords | src/libFluid/serialization/helpers/EndianSafeBinaryStream.hpp:147-150 | each vector element takes four little-endian bytes |
| EndianStream.ReadWordsFrom | src/libFluid/serialization/helpers/EndianSafeBinaryStream.hpp:160-163 | reading n elements yields n values or "malformed data" |
| EndianStream.WordsRoundTrip | src/libFluid/serialization/helpers/EndianSafeBinaryStream.hpp:147-163 | elements written one after the other read back in order |
| EndianStream.VectorRoundTrip | src/libFluid/serialization/helpers/EndianSafeBinaryStream.hpp:139-166 | a vector written to the stream reads back whole |
| EndianStream.IntegerRoundTrip | src/libFluid/serialization/helpers/EndianSafeBinaryStream.hpp:263-277 | an integer of every width written on one host reads back as the same value on either host |
| EndianStream.AvailableSplit | src/libFluid/serialization/helpers/EndianSafeBinaryStream.hpp:495-499 | two reads in a row get what one read of both sizes would, and the second gets nothing after a short first |
| EndianStream.ReadWordsStep | src/libFluid/serialization/helpers/EndianSafeBinaryStream.hpp:160-163 | reading n elements is reading one and then n - 1 from where it ended |
| EndianStream.ReadArrayStep | src/libFluid/serialization/helpers/EndianSafeBinaryStream.hpp:495-499 | one more chunk of read_array extends what was read and what the buffer holds, and fails exactly when the whole read is short |
| EndianStream.SwapBytesInPlace | src/libFluid/serialization/helpers/EndianSafeBinaryStream.hpp:293-297 | the floating-point helpers' swap loop reverses the buffer in place |
| EndianStream.CopyInto | src/libFluid/serialization/helpers/EndianSafeBinaryStream.hpp:288 | the underlying read copies its bytes into the buffer from the given index |
| EndianStream.BinaryStream.constructor | src/libFluid/serialization/helpers/EndianSafeBinaryStream.hpp:320-328 | a stream over the given bytes, at position 0, not failed, for a little- or big-endian host |
| EndianStream.BinaryStream.Write | src/libFluid/serialization/helpers/EndianSafeBinaryStream.hpp:276 | the underlying write appends the bytes and records one call of that size |
| EndianStream.BinaryStream.Read | src/libFluid/serialization/helpers/EndianSafeBinaryStream.hpp:265-266 | the underlying read gets the available bytes, advances past them, and fails the stream on a short read |
| EndianStream.BinaryStream.WriteInteger | src/libFluid/serialization/helpers/EndianSafeBinaryStream.hpp:273-277 | an integer of any width goes to the stream as its little-endian bytes in one call, on either host |
| EndianStream.BinaryStream.ReadInteger | src/libFluid/serialization/helpers/EndianSafeBinaryStream.hpp:263-271 | a short read gives "malformed data", otherwise the value whose little-endian bytes were read, on either host |
| EndianStream.BinaryStream.WriteBool | src/libFluid/serialization/helpers/EndianSafeBinaryStream.hpp:330-334 | a bool is the byte 1 or 0 |
| EndianStream.BinaryStream.ReadBool | src/libFluid/serialization/helpers/EndianSafeBinaryStream.hpp:336-349 | zero reads as false, any other byte as true, a short read as "malformed data" |
| EndianStream.BinaryStream.WriteFloatingPoint | src/libFluid/serialization/helpers/EndianSafeBinaryStream.hpp:301-317 | a float or double goes to the stream as the little-endian bytes of its bit pattern, on either host |
| EndianStream.BinaryStream.ReadFloatingPoint | src/libFluid/serialization/helpers/EndianSafeBinaryStream.hpp:279-299 | a short read gives "malformed data", otherwise the bit pattern whose little-endian bytes were read, on either host |
| EndianStream.BinaryStream.WriteArray | src/libFluid/serialization/helpers/EndianSafeBinaryStream.hpp:481-490 | the array goes to the stream in calls of at most array_buffer_size bytes |
| EndianStream.BinaryStream.ReadArrayChunk | src/libFluid/serialization/helpers/EndianSafeBinaryStream.hpp:495-499 | one round of read_array reads up to array_buffer_size bytes into the buffer |
| EndianStream.BinaryStream.ReadArray | src/libFluid/serialization/helpers/EndianSafeBinaryStream.hpp:492-501 | the buffer gets the available bytes over its old contents, the position advances past them, the stream fails on a short read and no error is raised |
| EndianStream.BinaryStream.WriteString | src/libFluid/serialization/helpers/EndianSafeBinaryStream.hpp:119-126 | the length as 8 bytes, then the string's bytes through write_array |
| EndianStream.BinaryStream.ReadString | src/libFluid/serialization/helpers/EndianSafeBinaryStream.hpp:128-136 | the result is ReadStringFrom of the stream: "malformed data" only when the length itself is short |
| EndianStream.BinaryStream.WriteElements | src/libFluid/serialization/helpers/EndianSafeBinaryStream.hpp:147-150 | each element as four little-endian bytes, one call each |
| EndianStream.BinaryStream.WriteWord | src/libFluid/serialization/helpers/EndianSafeBinaryStream.hpp:149 | one more element appends its four bytes |
| EndianStream.BinaryStream.WriteVector | src/libFluid/serialization/helpers/EndianSafeBinaryStream.hpp:141-152 | the length as 8 bytes, then each element |
| EndianStream.BinaryStream.ReadElements | src/libFluid/serialization/helpers/EndianSafeBinaryStream.hpp:160-163 | n elements read in order; on a short one "malformed data" with the stream failed at its end |
| EndianStream.BinaryStream.ReadWord | src/libFluid/serialization/helpers/EndianSafeBinaryStream.hpp:162 | one element read, or "malformed data" with the stream failed |
| EndianStream.BinaryStream.ReadVector | src/libFluid/serialization/helpers/EndianSafeBinaryStream.hpp:154-165 | the result is ReadVectorFrom of the stream; on success the position has moved past the length and the elements |
| ParticleSerializer.FromId | src/libFluid/serialization/ParticleSerializer.cpp:235-256 | an id stands for a component exactly when it is between 1 and 6 |
| ParticleSerializer.Id | src/libFluid/serialization/ParticleSerializer.cpp:165-184 | a component is written under its place in the fixed order, counted from 1, and that id reads back as the component |
| ParticleSerializer.Amount | src/libFluid/serialization/ParticleSerializer.cpp:143-164 | the count of available components is at most the number of components looked at |
| ParticleSerializer.IdBytes | src/libFluid/serialization/ParticleSerializer.cpp:165-184 | four bytes per available component |
| ParticleSerializer.Field | src/libFluid/serialization/ParticleSerializer.cpp:94 | an integer at the front of the input reads as its little-endian value, or "malformed data" when the input is too short |
| ParticleSerializer.Record | src/libFluid/serialization/ParticleSerializer.cpp:116-139 | a component record takes its width from the front of the input, or "malformed data" when the input is too short |
| ParticleSerializer.AmountIsSize | src/libFluid/serialization/ParticleSerializer.cpp:143-164 | the count of available components among distinct components is the size of the set they form |
| ParticleSerializer.AmountOfAll | src/libFluid/serialization/ParticleSerializer.cpp:143-164 | counting in the fixed order counts every component present |
| ParticleSerializer.FieldAt | src/libFluid/serialization/ParticleSerializer.cpp:94 | an integer written in width bytes reads back and leaves what follows |
| ParticleSerializer.IdWordAt | src/libFluid/serialization/ParticleSerializer.cpp:231-256 | a component's id word reads back as that component |
| ParticleSerializer.IdsAt | src/libFluid/serialization/ParticleSerializer.cpp:165-184 | the ids written for the components read back as exactly the available ones |
| ParticleSerializer.RowAt | src/libFluid/serialization/ParticleSerializer.cpp:57-83 | a particle's records, each in its component's width, read back as the records written |
| ParticleSerializer.OneRowAt | src/libFluid/serialization/ParticleSerializer.cpp:112-140 | one particle's records read back as the particle written |
| ParticleSerializer.RowsAt | src/libFluid/serialization/ParticleSerializer.cpp:112-140 | the records of all particles read back row after row |
| ParticleSerializer.ReadNextRow | src/libFluid/serialization/ParticleSerializer.cpp:112-140 | a particle read in the fixed order holds every available component, and the particles after it follow it |
| ParticleSerializer.ReadRowKeys | src/libFluid/serialization/ParticleSerializer.cpp:115-139 | a particle read from the file holds the components it had plus the available ones read |
| ParticleSerializer.PickedAll | src/libFluid/serialization/ParticleSerializer.cpp:165-184 | taking the available components in the fixed order takes all of them |
| ParticleSerializer.HeaderAt | src/libFluid/serialization/ParticleSerializer.cpp:44-54 | the header reads back as the components present, the particle count, and what follows it |
| ParticleSerializer.DecodeEncode | src/libFluid/serialization/ParticleSerializer.cpp:41-141 | deserialize reads back what serialize wrote, the same components and the same particles, whatever follows in the stream |
| ParticleSerializer.BadVersionRefused | src/libFluid/serialization/ParticleSerializer.cpp:96-98 | a file whose version is not 1 is refused with the unsupported-version error before anything else is read |
| ParticleSerializer.UnknownIdRefused | src/libFluid/serialization/ParticleSerializer.cpp:254-255 | an id outside 1..6 in the component list is refused as an invalid component id |
| ParticleSerializer.MissingExactly | src/libFluid/serialization/ParticleSerializer.cpp:186-222 | a component is added exactly when the file has it and the collection lacks it |
| ParticleSerializer.MissingSnoc | src/libFluid/serialization/ParticleSerializer.cpp:186-222 | each step of add_components_if_required adds its component only when available and absent |
| ParticleSerializer.AddedSnoc | src/libFluid/serialization/ParticleSerializer.cpp:186-222 | each step changes only its own component's entry, to blank records |
| ParticleSerializer.LoadedAfterReading | src/libFluid/serialization/ParticleSerializer.cpp:100-140 | after adding, resizing and reading every particle, each component holds the file's records if the file has it, and the old records resized otherwise |
| ParticleSerializer.PresentIff | src/libFluid/serialization/ParticleSerializer.cpp:59-82 | a component is present exactly when the collection holds its id |
| ParticleSerializer.RowOf | src/libFluid/serialization/ParticleSerializer.cpp:57-83 | a particle's row holds one record for each component present |
| ParticleSerializer.RowsOf | src/libFluid/serialization/ParticleSerializer.cpp:57 | the rows of the first n particles, in index order |
| ParticleSerializer.ReadField | src/libFluid/serialization/ParticleSerializer.cpp:94 | the stream's next integer, or "malformed data" when the unread bytes are too short, as Field says |
| ParticleSerializer.ReadRecord | src/libFluid/serialization/ParticleSerializer.cpp:118 | the stream's next record, or "malformed data" when the unread bytes are too short, as Record says |
| ParticleSerializer.Serializer.constructor | src/libFluid/serialization/ParticleSerializer.cpp:85-87 | the serializer keeps its file path and the record widths |
| ParticleSerializer.Serializer.CountIfPresent | src/libFluid/serialization/ParticleSerializer.cpp:145-147 | one test of get_amount_of_components counts its component when present |
| ParticleSerializer.Serializer.GetAmountOfComponents | src/libFluid/serialization/ParticleSerializer.cpp:143-164 | the number of the six components the collection holds |
| ParticleSerializer.Serializer.WriteIdIfPresent | src/libFluid/serialization/ParticleSerializer.cpp:166-168 | one test of write_component_ids writes its component's id when present |
| ParticleSerializer.Serializer.WriteComponentIds | src/libFluid/serialization/ParticleSerializer.cpp:165-184 | the ids of the components present, in the fixed order |
| ParticleSerializer.Serializer.WriteRecordIfPresent | src/libFluid/serialization/ParticleSerializer.cpp:59-62 | one test of the particle loop writes its component's record of the particle when present |
| ParticleSerializer.Serializer.WriteParticle | src/libFluid/serialization/ParticleSerializer.cpp:58-82 | one particle's records in the fixed order |
| ParticleSerializer.Serializer.WriteHeader | src/libFluid/serialization/ParticleSerializer.cpp:44-54 | the version 1, the number of components, their ids and the particle count |
| ParticleSerializer.Serializer.WriteParticles | src/libFluid/serialization/ParticleSerializer.cpp:56-83 | every particle's records, particle after particle |
| ParticleSerializer.Serializer.Serialize | src/libFluid/serialization/ParticleSerializer.cpp:41-84 | the stream gains exactly the encoding of the collection, and that encoding decodes back to the collection's snapshot |
| ParticleSerializer.Serializer.ReadAvailableComponents | src/libFluid/serialization/ParticleSerializer.cpp:223-260 | the number of ids and then each id; the set of components named, "invalid component id" on an id outside 1..6, "malformed data" on a short read |
| ParticleSerializer.Serializer.AddIfRequired | src/libFluid/serialization/ParticleSerializer.cpp:187-191 | one test of add_components_if_required adds its component when the file has it and the collection lacks it |
| ParticleSerializer.Serializer.AddComponentsIfRequired | src/libFluid/serialization/ParticleSerializer.cpp:186-222 | exactly the available components the collection lacks are added, in the fixed order; the others and the size are unchanged |
| ParticleSerializer.Serializer.ReadRecordIfAvailable | src/libFluid/serialization/ParticleSerializer.cpp:116-119 | one test of the read loop reads and stores its component's record of the particle when the file has it |
| ParticleSerializer.Serializer.ReadParticle | src/libFluid/serialization/ParticleSerializer.cpp:115-139 | one particle's records of the available components, in the fixed order, stored at its index |
| ParticleSerializer.Serializer.ReadParticles | src/libFluid/serialization/ParticleSerializer.cpp:111-140 | count particles read into the collection at their indices, or the first read error |
| ParticleSerializer.Serializer.Deserialize | src/libFluid/serialization/ParticleSerializer.cpp:89-141 | fails exactly when decoding the unread bytes fails, with the same error; on success the collection has the file's particle count, the missing components were added, and every component holds what the file says |
| OutputManager.RemoveInvalidChars | src/libFluid/OutputManager.cpp:95-114 | the length is kept, each backslash, slash, colon, question mark, double quote, angle bracket and vertical bar becomes a space, and every other character is kept |
| OutputManager.SanitizedIsClean | src/libFluid/OutputManager.cpp:95-114 | a sanitized name holds none of the invalid characters, so sanitizing it again changes nothing |
| OutputManager.FilepathForSensor | src/libFluid/OutputManager.cpp:116-142 | no path exactly when the sensor may not save to a file; otherwise output folder / sanitized sensor name / desired file name |
| OutputManager.Manager.constructor | src/libFluid/OutputManager.cpp:7-9 | the counter and the save count start at zero under the given threshold |
| OutputManager.Manager.SaveSensorData | src/libFluid/OutputManager.cpp:35-44 | a save resets the counter to zero |
| OutputManager.Manager.ManualSave | src/libFluid/OutputManager.cpp:20-23 | a manual save saves unconditionally and resets the counter |
| OutputManager.Manager.TimestepHappened | src/libFluid/OutputManager.cpp:11-18 | a timestep saves when the counter has reached the threshold and then counts itself |
| OutputManager.SaveEveryThreshold | src/libFluid/OutputManager.cpp:11-18 | after a save the counter is 1, and the next save comes exactly threshold timesteps later with none in between |
| OutputManager.TicksSplit | src/libFluid/OutputManager.cpp:11-18 | n + 1 timesteps are n timesteps followed by one |

## Left out

- Processes, files and the console: launching the solver (`subprocess`), creating directories, writing and loading JSON and YAML, `np.loadtxt`, and the plots of the evaluation script. A run, a written file or a directory is a record of its name and contents.
- Floating-point text: the scripts' `str()` of a float and the sensor writer's number formatting are a `show` parameter. Only the facts the round trips need about it (no tab, no newline) are assumed of it, as a requires.
- ParamSweep.WalkThroughMatrix: needs every range to reach its end (`Walkable`); the script loops forever on a range that never does, and that non-termination is not modelled.
- ParamSweep.ParameterRange.Explicit: an empty value list is excluded, as the script raises an IndexError there on its first line.
- The sensor-log analysis of the test-series framework (`TestSeriesSensorAnalyzer`): the sensor reader it calls is not part of this model.
- The legacy runner's `Parameter` class is the same cursor as the framework's, so `TestSeries.Parameter` stands for both.
- The compact-hashing neighborhood search itself: the float cell of a position, the distance tests and the walk over neighboring cells. `FindNeighborsOfParticle` takes the neighbors found as input. `SearchByDifference` and `RegenerateAllDataStructures` are not modelled.
- CompactHashTable.HashTable.RemoveKey: keeps the chains well formed and removes exactly one stored pair, but does not promise that the other keys stay reachable. As written it can strand a key: `CompactHashTable.RemovalsLoseKey` exhibits one, and there is no single evidently intended fix to prove instead.
- CellStorage.Storage.RemoveParticle: modelled for a section without an overflow link. The source's chained case moves the chain's last slot in through `ExtractLastOne` (line 666), which is not modelled.
- The LZ4 frame compression under the serializer's stream, and opening and closing files: the stream is a byte sequence.
- EndianStream.BinaryStream.WriteVector: modelled for 32-bit elements only, the element type the particle files use; the template's other instances are left out.
- EndianStream.BinaryStream.ReadVector: modelled for 32-bit elements only, like `WriteVector`.
- ParticleSerializer.Serializer.Deserialize: after an error only the collection's well-formedness is promised. The source leaves it partly filled, and that state is not described.
- Particle records are fixed-width words of a given `width`. The float and `glm` vector fields are read and written as opaque words, and their bit layout is not modelled.
- A read past the end of the stream is the "malformed data" error. Which stream operation raised it is not distinguished.
- The `query_type` overload taking a shared pointer, and the factory and `is_type` lambdas of the registered solver types, are not modelled.
- OutputManager: the map of open sensor writers and the writing of sensor files in `save_sensor_data` are left out; only the counter and the path guard are modelled.
- SensorWriter: opening and closing the log file and its log messages are left out; the written text is a string field.
- Timeline: reloading the simulator from a snapshot in `step_to` is a record of the time point loaded.
- ParticleCollection: the destructor and the move constructor are not modelled; callbacks are the list of registered component ids.
- Float arithmetic is exact: values are Dafny reals, and rounding is not modelled. This affects three places:
  - the additive and multiplicative ranges of `ParamSweep` (`ParamSweep.ParameterRange.NextStep`, `ParamSweep.ParameterRange.LinearValue` and `ParamSweep.ParameterRange.LinearEnds`);
  - the time sums of `StatisticsCache.CachedStatisticCollector.CreateNewCacheEntry`;
  - the simulation length of the test series.
  For a step that is not a dyadic fraction, the number of values a range visits can differ from the script's. From 0.0 to 0.3 in steps of 0.1, Python's third step gives 0.30000000000000004, which is above the end, so the script runs 3 values where the model counts 4. The default sweep steps only by 0.5, which is exact in binary; its other two ranges are explicit lists.
- CellStorage.Storage.AddParticle: `relativeLink` is a 24-bit field, but the model's `link` is an unbounded number. A link is always less than the number of sections, so it fits the field while a storage holds at most 2^24 sections. The wrap-around of a longer link is not modelled.
- Base64.ValueOf: `char` is taken as unsigned, so bytes 0x80 to 0xFF are above 'z' and invalid. Where `char` is signed, those bytes are negative, pass the `<= 'z'` test of `decode_from_base_64` and index its table out of bounds. That read is not modelled.
- particleAmount_t is taken as 16 bits wide (`CellStorage.Two16`) in both `CellStorage` and `CompactNeighborStorage`, the width the repository's other neighborhood searches give it; the compact-hashing headers use the type without defining it. Arguments of that type must fit it, and the collection size that `FindNeighbors` passes in is truncated (`CompactNeighborStorage.FittedCount`).
- TestSeries.Runner.Valid: requires the parameters to be distinct objects. The script does not check this; a parameter passed twice shares one cursor between its two positions, and that case is not modelled. The same holds for `TestSeriesLegacy.Runner`.

## Findings

| source | as written | input that shows it | evidently intended | confidence | as-written member | corrected member |
|---|---|---|---|---|---|---|
| src/core/fluidSolver/neighborhoodSearch/CompactHashingNeighborhoodSearch.cpp:351-364 | SetValueByKey probes slot h0 + i(i+1)/2 (i added cumulatively) but stores the link as i | table size 4, three keys whose home slots are 0, 1, 0: the third key is stored in slot 3 with link 2, and its lookup follows the link to slot 2 and misses | the probed slot and the stored link agree, so a stored key is found | not executed | CompactHashTable.CumulativeProbeLosesKey | CompactHashTable.HashTable.SetValueByKey |
| src/core/fluidSolver/neighborhoodSearch/CompactHashingNeighborhoodSearch.cpp:592-598 | AddParticleToStorageSection links a new overflow section but never writes relativeLink into the full section | a full one-slot section, then a second particle: the chain still ends at the first section and counts 1 | the full section links to the new one and the chain counts both particles | not executed | CellStorage.AddAsWrittenLosesParticle | CellStorage.AddKeepsBothParticles |
| src/core/fluidSolver/neighborhoodSearch/CompactHashingNeighborhoodSearch.cpp:561-566 | GetStorageSectionDataEnd takes the header by reference and assigns each next header to it | a chain of two one-slot sections: finding its end overwrites the first header, whose link becomes 0, so the chain loses its second particle | the walk uses a local copy and leaves the storage unchanged | not executed | CellStorage.DataEndCutsChain | CellStorage.Storage.DataEnd |
| src/libFluid/fluidSolver/ParticleCollectionAlgorithm.cpp:81-87 | insertion_sort's key is a reference into the key array that the swaps overwrite, and `j >= 0` on a size_t never fails | keys [1, 2, 0] come out as [1, 0, 2]; keys [2, 1] step j below 0 and read outside the array | the key is copied before the inner loop and the loop stops at index 0 | not executed | ParticleSort.InsertionSortAsWrittenMisorders | ParticleSort.InsertionSort |
| src/core/fluidSolver/particleCollection/StripedParticleCollection.cpp:64-67 | SwapElements swaps the id map at positions i and j, as if it were indexed by slot | three new particles, swap(0, 1) then swap(1, 2): the id map no longer inverts the index map | the id map entries of the two particles' ids are updated, keeping both maps inverse | not executed | StripedCollection.AsWrittenSwapBreaksInverse | StripedCollection.StripedParticleCollection.SwapElements |
| src/libFluid/fluidSolver/ParticleCollection.hpp:142-159 | the copy constructor copies the callback lists and then runs the copy callbacks, which register every component again | a copy holding one component: each swap callback runs twice, so a swap of the copy changes nothing | each component is registered once in the copy | not executed | ParticleCollection.CopiedSwapCounterexample | ParticleCollection.ParticleCollection.Copy |
| test-series/test_series.py:40-53 | _param_recurse never resets the inner parameters after they reach their end | two parameters, the first with two values: no instance runs with the first parameter at its second value | each inner parameter is reset after its pass, so the whole Cartesian product runs | not executed | TestSeriesLegacy.Runner.SecondValueNeverRun | TestSeries.Runner.ParamRecurse |
| test-series/test_series.py:105-108 | the CSV lines are written with writelines, which adds no line ends | any document of two or more rows: all rows merge into one unterminated line, which reads back as a single row with the last cell of each row glued to the first cell of the next | each row is written as its own line | not executed | TestSeriesLegacy.WrittenAsIsMergesRows | TestSeriesLegacy.CsvRoundTrip |
