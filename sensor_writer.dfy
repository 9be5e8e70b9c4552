/**
 * The CSV writer sensors log through (src/libFluid/sensors/SensorWriter.cpp).
 * In header mode it collects column titles, each with the dimensionality of
 * the value that will fill it; after end_header it writes rows, checking
 * that every value has the dimensionality of the column it lands in, and
 * `next` pads a started row with empty cells and ends it.
 *
 * The file is the `stream` string. Values reach the writer as the text the
 * C++ stream would print for each component; how floats and clock times are
 * formatted is not part of this model.
 */
module SensorWriter {
  import Numerals

  const Separator: string := ";"
  const Newline: string := "\r\n"

  /** Cells separated by ';'. */
  function Join(cells: seq<string>): string
    decreases |cells|
  {
    if cells == [] then ""
    else if |cells| == 1 then cells[0]
    else cells[0] + Separator + Join(cells[1..])
  }

  /** Appending a cell appends a separator (unless it is the first cell) and the cell. */
  lemma {:induction false} JoinSnoc(cells: seq<string>, c: string)
    ensures Join(cells + [c]) == if cells == [] then c else Join(cells) + Separator + c
    decreases |cells|
  {
    if |cells| > 1 {
      var t := cells[1..];
      assert (cells + [c])[1..] == t + [c];
      JoinSnoc(t, c);
      assert Join(cells + [c]) == cells[0] + Separator + (Join(t) + Separator + c);
    } else if |cells| == 1 {
      assert (cells + [c])[1..] == [c];
    }
  }

  /** The rows written after the header, each ended by a newline. */
  function RowsText(rows: seq<seq<string>>): string
  {
    if rows == [] then "" else RowsText(rows[..|rows| - 1]) + Join(rows[|rows| - 1]) + Newline
  }

  /** A finished row adds its cells and a newline to the text. */
  lemma RowsTextSnoc(rows: seq<seq<string>>, cells: seq<string>)
    ensures RowsText(rows + [cells]) == RowsText(rows) + Join(cells) + Newline
  {
    assert (rows + [cells])[..|rows|] == rows;
  }

  /** Ending the current row: the text gains a newline and the row joins the finished ones. */
  lemma EndRowText(text: string, head: string, rows: seq<seq<string>>, cells: seq<string>)
    requires text == head + RowsText(rows) + Join(cells)
    ensures text + Newline == head + RowsText(rows + [cells]) + Join([])
  {
    RowsTextSnoc(rows, cells);
  }

  /** Splits a line at every ';'. */
  function Split(line: string): (cells: seq<string>)
    ensures |cells| >= 1
  {
    if line == [] then [""]
    else if line[0] == ';' then [""] + Split(line[1..])
    else
      var rest := Split(line[1..]);
      [[line[0]] + rest[0]] + rest[1..]
  }

  predicate NoSeparator(cell: string) {
    forall k :: 0 <= k < |cell| ==> cell[k] != ';'
  }

  lemma {:induction false} SplitAfterCell(cell: string, rest: string)
    requires NoSeparator(cell)
    ensures Split(cell + Separator + rest) == [cell] + Split(rest)
    decreases |cell|
  {
    if cell == [] {
      assert cell + Separator + rest == [';'] + rest;
    } else {
      assert (cell + Separator + rest)[1..] == cell[1..] + Separator + rest;
      SplitAfterCell(cell[1..], rest);
      assert [cell[0]] + cell[1..] == cell;
    }
  }

  lemma {:induction false} SplitCell(cell: string)
    requires NoSeparator(cell)
    ensures Split(cell) == [cell]
    decreases |cell|
  {
    if cell != [] {
      SplitCell(cell[1..]);
      assert [cell[0]] + cell[1..] == cell;
    }
  }

  /**
   * A row or header line reads back cell by cell as long as no cell holds
   * the separator, so a row has exactly as many cells as were written.
   */
  lemma {:induction false} SplitJoin(cells: seq<string>)
    requires |cells| >= 1
    requires forall k :: 0 <= k < |cells| ==> NoSeparator(cells[k])
    ensures Split(Join(cells)) == cells
    decreases |cells|
  {
    if |cells| == 1 {
      SplitCell(cells[0]);
    } else {
      SplitJoin(cells[1..]);
      SplitAfterCell(cells[0], Join(cells[1..]));
      assert [cells[0]] + cells[1..] == cells;
    }
  }

  /**
   * The titles push_back_header writes for a `d`-dimensional value: the bare
   * name for d = 1, otherwise "name - 0" … "name - (d-1)".
   */
  function HeaderCells(header: string, d: nat): (cells: seq<string>)
    requires d > 0
    ensures |cells| == d
    ensures d == 1 ==> cells == [header]
    ensures d > 1 ==> forall i :: 0 <= i < d ==> cells[i] == header + " - " + Numerals.NatToString(i)
  {
    if d == 1 then [header] else seq(d, (i: int) requires 0 <= i => header + " - " + Numerals.NatToString(i))
  }

  class Writer {
    var inHeaderMode: bool
    var headerCount: nat
    var dimensionalityInfo: seq<nat>
    var currentRowPosition: nat
    var stream: string

    /** The column titles, the finished rows and the cells of the row being written. */
    ghost var headerCells: seq<string>
    ghost var rows: seq<seq<string>>
    ghost var currentCells: seq<string>

    ghost predicate Valid()
      reads this
    {
      && |dimensionalityInfo| == headerCount == |headerCells|
      && (inHeaderMode ==>
            stream == Join(headerCells) && currentRowPosition == 0 && rows == [] && currentCells == [])
      && (!inHeaderMode ==>
            && stream == Join(headerCells) + Newline + RowsText(rows) + Join(currentCells)
            && currentRowPosition == |currentCells| <= headerCount
            && forall k :: 0 <= k < |rows| ==> |rows[k]| == headerCount)
    }

    /** The constructor opens an empty file in header mode. */
    constructor ()
      ensures Valid()
      ensures inHeaderMode && headerCount == 0 && dimensionalityInfo == [] && stream == ""
    {
      inHeaderMode := true;
      headerCount := 0;
      dimensionalityInfo := [];
      currentRowPosition := 0;
      stream := "";
      headerCells := [];
      rows := [];
      currentCells := [];
    }

    /** begin_header */
    function BeginHeader(): (r: bool)
      reads this
      ensures r == inHeaderMode
    {
      inHeaderMode
    }

    /** Writes one title and records the dimensionality of its column. */
    method AppendTitle(title: string, d: nat)
      requires Valid() && inHeaderMode
      modifies this
      ensures Valid() && inHeaderMode
      ensures headerCells == old(headerCells) + [title]
      ensures dimensionalityInfo == old(dimensionalityInfo) + [d]
    {
      JoinSnoc(headerCells, title);
      if headerCount > 0 {
        stream := stream + Separator;
      }
      stream := stream + title;
      dimensionalityInfo := dimensionalityInfo + [d];
      headerCount := headerCount + 1;
      headerCells := headerCells + [title];
    }

    /**
     * push_back_header(header, dimensionality): outside header mode nothing
     * happens; otherwise `dimensionality` columns are added, each tagged
     * with the dimensionality.
     */
    method PushBackHeader(header: string, dimensionality: nat)
      requires Valid()
      requires inHeaderMode ==> dimensionality > 0
      modifies this
      ensures Valid() && inHeaderMode == old(inHeaderMode)
      ensures !old(inHeaderMode) ==> unchanged(this)
      ensures old(inHeaderMode) ==>
        && headerCells == old(headerCells) + HeaderCells(header, dimensionality)
        && dimensionalityInfo == old(dimensionalityInfo) + seq(dimensionality, _ => dimensionality)
        && headerCount == old(headerCount) + dimensionality
    {
      if !inHeaderMode {
        return;
      }
      var cells := HeaderCells(header, dimensionality);
      if dimensionality == 1 {
        AppendTitle(header, dimensionality);
      } else {
        assert Numerals.NatToString(0) == "0";
        assert cells[0] == header + " - " + Numerals.NatToString(0);
        assert header + " - " + "0" == header + " - 0";
        assert cells[..1] == [header + " - 0"];
        AppendTitle(header + " - 0", dimensionality);
        var i := 1;
        while i < dimensionality
          invariant 1 <= i <= dimensionality
          invariant Valid() && inHeaderMode
          invariant headerCells == old(headerCells) + cells[..i]
          invariant dimensionalityInfo == old(dimensionalityInfo) + seq(i, _ => dimensionality)
        {
          AppendTitle(header + " - " + Numerals.NatToString(i), dimensionality);
          assert cells[..i + 1] == cells[..i] + [cells[i]];
          i := i + 1;
        }
      }
    }

    /**
     * push_back_header(headers): one column per name, each tagged with the
     * number of names (the list is one value of that many components).
     */
    method PushBackHeaderList(headers: seq<string>)
      requires Valid()
      requires inHeaderMode ==> |headers| > 0
      modifies this
      ensures Valid() && inHeaderMode == old(inHeaderMode)
      ensures !old(inHeaderMode) ==> unchanged(this)
      ensures old(inHeaderMode) ==>
        && headerCells == old(headerCells) + headers
        && dimensionalityInfo == old(dimensionalityInfo) + seq(|headers|, _ => |headers|)
        && headerCount == old(headerCount) + |headers|
    {
      if !inHeaderMode {
        return;
      }
      var i := 0;
      while i < |headers|
        invariant 0 <= i <= |headers|
        invariant Valid() && inHeaderMode
        invariant headerCells == old(headerCells) + headers[..i]
        invariant dimensionalityInfo == old(dimensionalityInfo) + seq(i, _ => |headers|)
      {
        AppendTitle(headers[i], |headers|);
        assert headers[..i + 1] == headers[..i] + [headers[i]];
        i := i + 1;
      }
      assert headers[..|headers|] == headers;
    }

    /** push_back_header<Timepoint>: four columns for one time point. */
    method PushBackTimepointHeader(header: string)
      requires Valid()
      modifies this
      ensures Valid() && inHeaderMode == old(inHeaderMode)
      ensures !old(inHeaderMode) ==> unchanged(this)
      ensures old(inHeaderMode) ==>
        headerCells == old(headerCells) +
          [header + " - Number", header + " - Sim Time", header + " - Sys Time", header + " - Timestep"]
      ensures old(inHeaderMode) ==> dimensionalityInfo == old(dimensionalityInfo) + [4, 4, 4, 4]
      ensures old(inHeaderMode) ==> headerCount == old(headerCount) + 4
    {
      PushBackHeaderList([header + " - Number", header + " - Sim Time", header + " - Sys Time", header + " - Timestep"]);
    }

    /** end_header: leaves header mode once, ending the title line. */
    method EndHeader()
      requires Valid()
      modifies this
      ensures Valid() && !inHeaderMode
      ensures !old(inHeaderMode) ==> unchanged(this)
      ensures old(inHeaderMode) ==> stream == old(stream) + Newline && rows == [] && currentCells == []
      ensures headerCells == old(headerCells) && dimensionalityInfo == old(dimensionalityInfo)
    {
      if !inHeaderMode {
        return;
      }
      inHeaderMode := false;
      stream := stream + Newline;
    }

    /** add_seperator_if_required, the value's text, then next_value. */
    method PushComponent(text: string)
      requires Valid() && !inHeaderMode
      requires currentRowPosition < headerCount
      modifies this
      ensures Valid() && !inHeaderMode
      ensures currentCells == old(currentCells) + [text]
      ensures rows == old(rows) && headerCells == old(headerCells)
      ensures dimensionalityInfo == old(dimensionalityInfo) && headerCount == old(headerCount)
    {
      JoinSnoc(currentCells, text);
      if currentRowPosition > 0 {
        stream := stream + Separator;
      }
      stream := stream + text;
      currentRowPosition := currentRowPosition + 1;
      currentCells := currentCells + [text];
    }

    /** The checks every push_back makes before writing a `d`-component value. */
    ghost predicate Fits(d: nat)
      reads this
    {
      && !inHeaderMode
      && currentRowPosition < |dimensionalityInfo|
      && dimensionalityInfo[currentRowPosition] == d
      && currentRowPosition + d <= headerCount
    }

    /** push_back of a float, int, size_t or string value. */
    method PushBack(value: string)
      requires Valid() && Fits(1)
      modifies this
      ensures Valid() && !inHeaderMode
      ensures currentCells == old(currentCells) + [value] && rows == old(rows)
      ensures headerCells == old(headerCells) && dimensionalityInfo == old(dimensionalityInfo) && headerCount == old(headerCount)
    {
      PushComponent(value);
    }

    /** push_back of a glm::vec2. */
    method PushBackVec2(x: string, y: string)
      requires Valid() && Fits(2)
      modifies this
      ensures Valid() && !inHeaderMode
      ensures currentCells == old(currentCells) + [x, y] && rows == old(rows)
      ensures headerCells == old(headerCells) && dimensionalityInfo == old(dimensionalityInfo) && headerCount == old(headerCount)
    {
      PushComponent(x);
      PushComponent(y);
    }

    /** push_back of a glm::vec3. */
    method PushBackVec3(x: string, y: string, z: string)
      requires Valid() && Fits(3)
      modifies this
      ensures Valid() && !inHeaderMode
      ensures currentCells == old(currentCells) + [x, y, z] && rows == old(rows)
      ensures headerCells == old(headerCells) && dimensionalityInfo == old(dimensionalityInfo) && headerCount == old(headerCount)
    {
      PushComponent(x);
      PushComponent(y);
      PushComponent(z);
    }

    /** push_back of a glm::vec4, and of a Timepoint (number, simulation time, clock time, timestep). */
    method PushBackVec4(x: string, y: string, z: string, w: string)
      requires Valid() && Fits(4)
      modifies this
      ensures Valid() && !inHeaderMode
      ensures currentCells == old(currentCells) + [x, y, z, w] && rows == old(rows)
      ensures headerCells == old(headerCells) && dimensionalityInfo == old(dimensionalityInfo) && headerCount == old(headerCount)
    {
      PushComponent(x);
      PushComponent(y);
      PushComponent(z);
      PushComponent(w);
    }

    /** The loop of next: empty cells pushed until the row has a cell per column. */
    method PadRow()
      requires Valid() && !inHeaderMode
      modifies this
      ensures Valid() && !inHeaderMode && currentRowPosition == headerCount
      ensures rows == old(rows) && headerCells == old(headerCells) && headerCount == old(headerCount)
      ensures currentCells == old(currentCells) + seq(headerCount - old(currentRowPosition), _ => "")
      ensures dimensionalityInfo == old(dimensionalityInfo)
    {
      while currentRowPosition < headerCount
        invariant Valid() && !inHeaderMode
        invariant old(currentRowPosition) <= currentRowPosition <= headerCount
        invariant currentCells == old(currentCells) + seq(currentRowPosition - old(currentRowPosition), _ => "")
        invariant rows == old(rows) && headerCells == old(headerCells) && headerCount == old(headerCount)
        invariant dimensionalityInfo == old(dimensionalityInfo)
        decreases headerCount - currentRowPosition
      {
        PushComponent("");
      }
    }

    /**
     * next: a row that was started is padded with empty cells up to the
     * column count and ended with a newline; on an empty row nothing happens.
     */
    method Next()
      requires Valid() && !inHeaderMode
      modifies this
      ensures Valid() && !inHeaderMode
      ensures headerCells == old(headerCells) && headerCount == old(headerCount)
      ensures dimensionalityInfo == old(dimensionalityInfo)
      ensures old(currentRowPosition) == 0 ==> unchanged(this)
      ensures old(currentRowPosition) > 0 ==>
        && rows == old(rows) + [old(currentCells) + seq(headerCount - old(currentRowPosition), _ => "")]
        && currentCells == [] && currentRowPosition == 0
    {
      if currentRowPosition == 0 {
        return;
      }
      PadRow();
      ghost var finished := rows + [currentCells];
      EndRowText(stream, Join(headerCells) + Newline, rows, currentCells);
      stream := stream + Newline;
      rows := finished;
      currentCells := [];
      currentRowPosition := 0;
    }
  }

  /** The text of a file with columns "a" and "b" and the rows "1;2" and "3;". */
  lemma TwoColumnText()
    ensures Join(["a", "b"]) + Newline + RowsText([["1", "2"], ["3", ""]]) + Join([]) == "a;b\r\n1;2\r\n3;\r\n"
  {
    RowsTextSnoc([["1", "2"]], ["3", ""]);
    RowsTextSnoc([], ["1", "2"]);
    assert [["1", "2"]] == [] + [["1", "2"]];
    assert [["1", "2"], ["3", ""]] == [["1", "2"]] + [["3", ""]];
    assert Join(["a", "b"]) == "a;b" && Join(["1", "2"]) == "1;2" && Join(["3", ""]) == "3;";
  }

  /** A new writer with the columns "a" and "b", each of dimensionality 1, past its header. */
  method TwoColumnWriter() returns (w: Writer)
    ensures fresh(w) && w.Valid() && !w.inHeaderMode
    ensures w.headerCells == ["a", "b"] && w.dimensionalityInfo == [1, 1] && w.headerCount == 2
    ensures w.rows == [] && w.currentCells == []
  {
    w := new Writer();
    w.PushBackHeader("a", 1);
    w.PushBackHeader("b", 1);
    w.EndHeader();
  }

  /**
   * A two-column log written through the writer's own operations: headers
   * "a" and "b", a full row "1;2", and a row "3" that `next` pads to "3;".
   */
  method WriteTwoColumnLog() returns (text: string)
    ensures text == "a;b\r\n1;2\r\n3;\r\n"
  {
    var w := TwoColumnWriter();
    w.PushBack("1");
    w.PushBack("2");
    assert w.currentCells == ["1", "2"];
    w.Next();
    assert ["1", "2"] + seq(0, _ => "") == ["1", "2"];
    assert w.rows == [["1", "2"]];
    w.PushBack("3");
    assert w.currentCells == ["3"];
    w.Next();
    assert ["3"] + seq(1, _ => "") == ["3", ""];
    assert w.rows == [["1", "2"], ["3", ""]];
    TwoColumnText();
    text := w.stream;
  }
}
