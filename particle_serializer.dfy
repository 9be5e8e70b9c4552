/**
 * The binary particle file (src/libFluid/serialization/ParticleSerializer.cpp).
 * The file holds, in the stream's little-endian layout: the format version
 * (a 32-bit 1), the number of components present (32 bits), their ids
 * (32 bits each, in the fixed order below), the particle count (64 bits),
 * and then for every particle the record of each present component, again
 * in the fixed order.
 *
 * A component record is taken as the bytes its stream operators write (the
 * glm vectors as their floats, one after the other); `width(c)` is the
 * number of bytes a record of component `c` takes. The collection stores
 * each component's records as byte sequences, under the component's id.
 *
 * The readers take the unread input and give back what is left after them.
 * The functions that walk the components of a particle take the order as a
 * parameter `cs`; the file itself always uses `Order`.
 */
module ParticleSerializer {
  import opened Wrappers
  import opened EndianStream
  import PC = ParticleCollection

  /** The six component types the file can hold. */
  datatype Component = MovementData | MovementData3D | ParticleInfo | ParticleData | ExternalForces | ExternalForces3D

  /** The order in which the ids and the records of the components go into the file. */
  const Order: seq<Component> := [MovementData, MovementData3D, ParticleInfo, ParticleData, ExternalForces, ExternalForces3D]

  /** The component an id in the file stands for; ids outside 1..6 stand for none. */
  function FromId(id: nat): (r: Option<Component>)
    ensures r.Some? <==> 1 <= id <= 6
  {
    if id == 1 then Some(MovementData)
    else if id == 2 then Some(MovementData3D)
    else if id == 3 then Some(ParticleInfo)
    else if id == 4 then Some(ParticleData)
    else if id == 5 then Some(ExternalForces)
    else if id == 6 then Some(ExternalForces3D)
    else None
  }

  /** The id a component is written under: its place in the fixed order, from 1. */
  function Id(c: Component): (id: nat)
    ensures 1 <= id <= 6 && Order[id - 1] == c
    ensures FromId(id) == Some(c)
  {
    match c
    case MovementData => 1
    case MovementData3D => 2
    case ParticleInfo => 3
    case ParticleData => 4
    case ExternalForces => 5
    case ExternalForces3D => 6
  }

  /** The only version the format knows. */
  const FormatVersion: nat := 1
  const UnsupportedVersion: string := "Unsupported particle data format version"
  const InvalidComponentId: string := "invalid component id"

  /** One particle: the record of each component present. */
  type Row = map<Component, seq<uint8>>

  /** What a file holds: the components present and one row per particle. */
  datatype Snapshot = Snapshot(available: set<Component>, rows: seq<Row>)

  /** A row holds a record of the right width for each available component, and no other. */
  predicate RowFits(row: Row, available: set<Component>, width: Component -> nat)
  {
    row.Keys == available && forall c :: c in row ==> |row[c]| == width(c)
  }

  /** A snapshot the file format can carry: fitting rows and a count that fits 64 bits. */
  predicate Fits(s: Snapshot, width: Component -> nat)
  {
    |s.rows| < 0x1_0000_0000_0000_0000 &&
    forall i :: 0 <= i < |s.rows| ==> RowFits(s.rows[i], s.available, width)
  }

  // ---------------------------------------------------------------------
  // Encoding
  // ---------------------------------------------------------------------

  /** How many of `cs` are available: the count get_amount_of_components returns for the fixed order. */
  function Amount(available: set<Component>, cs: seq<Component>): (n: nat)
    ensures n <= |cs|
  {
    if cs == [] then 0
    else (if cs[0] in available then 1 else 0) + Amount(available, cs[1..])
  }

  /** The ids of the available components among `cs`, each as 32 bits. */
  function IdBytes(available: set<Component>, cs: seq<Component>): (b: seq<uint8>)
    ensures |b| == 4 * Amount(available, cs)
  {
    if cs == [] then []
    else (if cs[0] in available then LittleEndian(Id(cs[0]), 4) else []) + IdBytes(available, cs[1..])
  }

  /** A particle's records for the components of `cs` it has, in that order. */
  function RowBytes(row: Row, cs: seq<Component>): seq<uint8>
  {
    if cs == [] then []
    else (if cs[0] in row then row[cs[0]] else []) + RowBytes(row, cs[1..])
  }

  /** Every particle's records, particle after particle. */
  function RowsBytes(rows: seq<Row>, cs: seq<Component>): seq<uint8>
  {
    if rows == [] then [] else RowBytes(rows[0], cs) + RowsBytes(rows[1..], cs)
  }

  /** The header: version, number of components, their ids, particle count. */
  function Header(available: set<Component>, count: nat): seq<uint8>
  {
    LittleEndian(FormatVersion, 4) + LittleEndian(Amount(available, Order), 4) + IdBytes(available, Order) +
    LittleEndian(count, 8)
  }

  /** The whole file serialize writes. */
  function Encode(s: Snapshot): seq<uint8>
  {
    Header(s.available, |s.rows|) + RowsBytes(s.rows, Order)
  }

  // ---------------------------------------------------------------------
  // Decoding
  // ---------------------------------------------------------------------

  /** An integer of `width` bytes at the front of the input; a short read fails with "malformed data". */
  function Field(input: seq<uint8>, width: nat): (r: Result<(nat, seq<uint8>)>)
    ensures r.Ok? <==> width <= |input|
    ensures r.Ok? ==> r.value == (FromLittleEndian(input[..width]), input[width..])
    ensures r.Err? ==> r.message == MalformedData
  {
    if width <= |input| then Ok((FromLittleEndian(input[..width]), input[width..])) else Err(MalformedData)
  }

  /** A record of `width` bytes at the front of the input; a short read fails with "malformed data". */
  function Record(input: seq<uint8>, width: nat): (r: Result<(seq<uint8>, seq<uint8>)>)
    ensures r.Ok? <==> width <= |input|
    ensures r.Ok? ==> r.value.0 + r.value.1 == input && |r.value.0| == width
    ensures r.Err? ==> r.message == MalformedData
  {
    if width <= |input| then Ok((input[..width], input[width..])) else Err(MalformedData)
  }

  /**
   * The loop of read_available_components from its `n`-th last round on:
   * each id read marks its component available; an id outside 1..6 throws.
   */
  function ReadIds(input: seq<uint8>, n: nat, available: set<Component>): Result<(set<Component>, seq<uint8>)>
    decreases n
  {
    if n == 0 then Ok((available, input))
    else match Field(input, 4)
      case Err(e) => Err(e)
      case Ok((id, rest)) =>
        match FromId(id)
        case None => Err(InvalidComponentId)
        case Some(c) => ReadIds(rest, n - 1, available + {c})
  }

  /** read_available_components: the number of ids, then the ids. */
  function ReadComponentIds(input: seq<uint8>): Result<(set<Component>, seq<uint8>)>
  {
    match Field(input, 4)
    case Err(e) => Err(e)
    case Ok((n, rest)) => ReadIds(rest, n, {})
  }

  /** The records of one particle for the available components among `cs`, added to `row`. */
  function ReadRow(input: seq<uint8>, cs: seq<Component>, available: set<Component>,
                   width: Component -> nat, row: Row): Result<(Row, seq<uint8>)>
    decreases |cs|
  {
    if cs == [] then Ok((row, input))
    else if cs[0] !in available then ReadRow(input, cs[1..], available, width, row)
    else match Record(input, width(cs[0]))
      case Err(e) => Err(e)
      case Ok((record, rest)) => ReadRow(rest, cs[1..], available, width, row[cs[0] := record])
  }

  /** The next `k` particles, each read in the order `cs`, appended to `rows`. */
  function ReadRows(input: seq<uint8>, k: nat, cs: seq<Component>, available: set<Component>,
                    width: Component -> nat, rows: seq<Row>): Result<(seq<Row>, seq<uint8>)>
    decreases k
  {
    if k == 0 then Ok((rows, input))
    else match ReadRow(input, cs, available, width, map[])
      case Err(e) => Err(e)
      case Ok((row, rest)) => ReadRows(rest, k - 1, cs, available, width, rows + [row])
  }

  /**
   * The header deserialize reads: a version other than 1 is refused; then
   * the components and the particle count.
   */
  function ReadHeader(input: seq<uint8>): Result<(set<Component>, nat, seq<uint8>)>
  {
    match Field(input, 4)
    case Err(e) => Err(e)
    case Ok((version, rest)) =>
      if version != FormatVersion then Err(UnsupportedVersion)
      else match ReadComponentIds(rest)
        case Err(e) => Err(e)
        case Ok((available, more)) =>
          match Field(more, 8)
          case Err(e) => Err(e)
          case Ok((count, body)) => Ok((available, count, body))
  }

  /** deserialize: the header, then the particles. */
  function Decode(input: seq<uint8>, width: Component -> nat): Result<Snapshot>
  {
    match ReadHeader(input)
    case Err(e) => Err(e)
    case Ok((available, count, body)) =>
      match ReadRows(body, count, Order, available, width, [])
      case Err(e) => Err(e)
      case Ok((rows, _)) => Ok(Snapshot(available, rows))
  }

  // ---------------------------------------------------------------------
  // The round trip
  // ---------------------------------------------------------------------

  /** The components of `cs` that are available. */
  function Picked(available: set<Component>, cs: seq<Component>): set<Component>
  {
    set c | c in cs && c in available
  }

  /** The number of available components among distinct `cs` is the size of the set picked. */
  lemma {:induction false} AmountIsSize(available: set<Component>, cs: seq<Component>)
    requires forall i, j :: 0 <= i < j < |cs| ==> cs[i] != cs[j]
    ensures Amount(available, cs) == |Picked(available, cs)|
    decreases |cs|
  {
    if cs != [] {
      AmountIsSize(available, cs[1..]);
      var rest := Picked(available, cs[1..]);
      assert cs[0] !in rest;
      if cs[0] in available {
        assert Picked(available, cs) == rest + {cs[0]};
      } else {
        assert Picked(available, cs) == rest;
      }
    }
  }

  /** An integer written in `width` bytes reads back, leaving what follows it. */
  lemma FieldAt(v: nat, width: nat, rest: seq<uint8>)
    requires v < Power256(width)
    ensures Field(LittleEndian(v, width) + rest, width) == Ok((v, rest))
  {
    var input := LittleEndian(v, width) + rest;
    assert input[..width] == LittleEndian(v, width);
    assert input[width..] == rest;
    ValueRoundTrip(v, width);
  }

  /** A component's id word reads back as that component. */
  lemma IdWordAt(c: Component, n: nat, acc: set<Component>, rest: seq<uint8>)
    ensures ReadIds(LittleEndian(Id(c), 4) + rest, n + 1, acc) == ReadIds(rest, n, acc + {c})
  {
    Powers();
    FieldAt(Id(c), 4, rest);
  }

  /** Picking from a non-empty sequence: its head, if available, then the rest. */
  lemma PickedStep(available: set<Component>, cs: seq<Component>, acc: set<Component>)
    requires cs != []
    ensures cs[0] in available ==> acc + {cs[0]} + Picked(available, cs[1..]) == acc + Picked(available, cs)
    ensures cs[0] !in available ==> acc + Picked(available, cs[1..]) == acc + Picked(available, cs)
  {
    assert cs == [cs[0]] + cs[1..];
  }

  /** The ids written for `cs` read back as the available components among them. */
  lemma {:induction false} IdsAt(available: set<Component>, cs: seq<Component>, acc: set<Component>, rest: seq<uint8>)
    ensures ReadIds(IdBytes(available, cs) + rest, Amount(available, cs), acc) == Ok((acc + Picked(available, cs), rest))
    decreases |cs|
  {
    if cs == [] {
      assert Picked(available, cs) == {};
      assert acc + Picked(available, cs) == acc;
      assert IdBytes(available, cs) + rest == rest;
    } else {
      var c := cs[0];
      var tail := IdBytes(available, cs[1..]);
      PickedStep(available, cs, acc);
      if c in available {
        assert IdBytes(available, cs) + rest == LittleEndian(Id(c), 4) + (tail + rest);
        IdWordAt(c, Amount(available, cs[1..]), acc, tail + rest);
        IdsAt(available, cs[1..], acc + {c}, rest);
      } else {
        assert IdBytes(available, cs) == tail;
        IdsAt(available, cs[1..], acc, rest);
      }
    }
  }

  /** The entries of `row` for the components of `cs`. */
  function Restrict(row: Row, cs: seq<Component>): Row
  {
    map c | c in row && c in cs :: row[c]
  }

  /** Restricting to a non-empty sequence: its head's entry, if any, then the rest. */
  lemma RestrictStep(row: Row, cs: seq<Component>, acc: Row)
    requires cs != []
    ensures cs[0] in row ==> acc[cs[0] := row[cs[0]]] + Restrict(row, cs[1..]) == acc + Restrict(row, cs)
    ensures cs[0] !in row ==> acc + Restrict(row, cs[1..]) == acc + Restrict(row, cs)
  {
    assert cs == [cs[0]] + cs[1..];
  }

  /** A particle's records read back, each in its component's width. */
  lemma {:induction false} RowAt(row: Row, cs: seq<Component>, available: set<Component>,
                                 width: Component -> nat, acc: Row, rest: seq<uint8>)
    requires RowFits(row, available, width)
    ensures ReadRow(RowBytes(row, cs) + rest, cs, available, width, acc) == Ok((acc + Restrict(row, cs), rest))
    decreases |cs|
  {
    if cs == [] {
      assert Restrict(row, cs) == map[];
      assert acc + Restrict(row, cs) == acc;
      assert RowBytes(row, cs) + rest == rest;
    } else {
      var c := cs[0];
      var tail := RowBytes(row, cs[1..]);
      RestrictStep(row, cs, acc);
      if c in available {
        var record := row[c];
        assert RowBytes(row, cs) + rest == record + (tail + rest);
        assert (record + (tail + rest))[..width(c)] == record;
        assert (record + (tail + rest))[width(c)..] == tail + rest;
        RowAt(row, cs[1..], available, width, acc[c := record], rest);
      } else {
        assert RowBytes(row, cs) == tail;
        RowAt(row, cs[1..], available, width, acc, rest);
      }
    }
  }

  /** One particle's records read back as the row written, when `cs` names all its components. */
  lemma OneRowAt(row: Row, cs: seq<Component>, available: set<Component>, width: Component -> nat, rest: seq<uint8>)
    requires RowFits(row, available, width) && forall c :: c in available ==> c in cs
    ensures ReadRow(RowBytes(row, cs) + rest, cs, available, width, map[]) == Ok((row, rest))
  {
    RowAt(row, cs, available, width, map[], rest);
    assert map[] + Restrict(row, cs) == row;
  }

  /** Reading the next particles is reading one, then the others from where it ended. */
  lemma ReadRowsStep(input: seq<uint8>, k: nat, cs: seq<Component>, available: set<Component>,
                     width: Component -> nat, rows: seq<Row>, row: Row, rest: seq<uint8>)
    requires 0 < k && ReadRow(input, cs, available, width, map[]) == Ok((row, rest))
    ensures ReadRows(input, k, cs, available, width, rows) == ReadRows(rest, k - 1, cs, available, width, rows + [row])
  {
  }

  /** Reading k particles gives k rows more. */
  lemma {:induction false} ReadRowsLength(input: seq<uint8>, k: nat, cs: seq<Component>, available: set<Component>,
                                          width: Component -> nat, rows: seq<Row>)
    requires ReadRows(input, k, cs, available, width, rows).Ok?
    ensures |ReadRows(input, k, cs, available, width, rows).value.0| == |rows| + k
    decreases k
  {
    if k > 0 {
      var (row, rest) := ReadRow(input, cs, available, width, map[]).value;
      ReadRowsLength(rest, k - 1, cs, available, width, rows + [row]);
    }
  }

  /** Appending the head of a sequence, then its tail, appends the sequence. */
  lemma AppendFirst<T>(acc: seq<T>, xs: seq<T>)
    requires xs != []
    ensures acc + [xs[0]] + xs[1..] == acc + xs
  {
    assert xs == [xs[0]] + xs[1..];
  }

  /** The particles' records read back, row after row. */
  lemma {:induction false} RowsAt(rows: seq<Row>, cs: seq<Component>, available: set<Component>,
                                  width: Component -> nat, acc: seq<Row>, rest: seq<uint8>)
    requires forall i :: 0 <= i < |rows| ==> RowFits(rows[i], available, width)
    requires forall c :: c in available ==> c in cs
    ensures ReadRows(RowsBytes(rows, cs) + rest, |rows|, cs, available, width, acc) == Ok((acc + rows, rest))
    decreases |rows|
  {
    if rows == [] {
      assert RowsBytes(rows, cs) + rest == rest;
      assert acc + rows == acc;
    } else {
      var tail := RowsBytes(rows[1..], cs) + rest;
      assert RowsBytes(rows, cs) + rest == RowBytes(rows[0], cs) + tail;
      OneRowAt(rows[0], cs, available, width, tail);
      ReadRowsStep(RowsBytes(rows, cs) + rest, |rows|, cs, available, width, acc, rows[0], tail);
      RowsAt(rows[1..], cs, available, width, acc + [rows[0]], rest);
      AppendFirst(acc, rows);
    }
  }

  /** Every component has its place in the fixed order. */
  lemma InOrder(c: Component)
    ensures c in Order
  {
    assert Order[Id(c) - 1] == c;
  }

  /** Every component of the fixed order that is available: all the available ones. */
  lemma PickedAll(available: set<Component>)
    ensures Picked(available, Order) == available
  {
    forall c | c in available ensures c in Order { InOrder(c); }
  }

  /** The header reads back: the components present, the count, and what follows. */
  lemma HeaderAt(available: set<Component>, count: nat, rest: seq<uint8>)
    requires count < 0x1_0000_0000_0000_0000
    ensures ReadHeader(Header(available, count) + rest) == Ok((available, count, rest))
  {
    Powers();
    var amount := Amount(available, Order);
    var ids := IdBytes(available, Order);
    var more := ids + (LittleEndian(count, 8) + rest);
    assert Header(available, count) + rest ==
      LittleEndian(FormatVersion, 4) + (LittleEndian(amount, 4) + more);
    FieldAt(FormatVersion, 4, LittleEndian(amount, 4) + more);
    FieldAt(amount, 4, more);
    IdsAt(available, Order, {}, LittleEndian(count, 8) + rest);
    PickedAll(available);
    assert {} + available == available;
    FieldAt(count, 8, rest);
  }

  /**
   * deserialize reads back what serialize wrote: whatever follows the file,
   * decoding gives the same components and rows.
   */
  lemma DecodeEncode(s: Snapshot, rest: seq<uint8>, width: Component -> nat)
    requires Fits(s, width)
    ensures Decode(Encode(s) + rest, width) == Ok(s)
  {
    var body := RowsBytes(s.rows, Order) + rest;
    assert Encode(s) + rest == Header(s.available, |s.rows|) + body;
    HeaderAt(s.available, |s.rows|, body);
    forall c | c in s.available ensures c in Order { InOrder(c); }
    RowsAt(s.rows, Order, s.available, width, [], rest);
    assert [] + s.rows == s.rows;
  }

  /** A file whose version is not 1 is refused before anything else is read. */
  lemma BadVersionRefused(v: nat, rest: seq<uint8>, width: Component -> nat)
    requires v < 0x1_0000_0000 && v != FormatVersion
    ensures Decode(LittleEndian(v, 4) + rest, width) == Err(UnsupportedVersion)
  {
    Powers();
    FieldAt(v, 4, rest);
  }

  /** An id outside 1..6 in the component list is refused. */
  lemma UnknownIdRefused(n: nat, id: nat, rest: seq<uint8>, width: Component -> nat)
    requires 0 < n < 0x1_0000_0000 && id < 0x1_0000_0000 && !(1 <= id <= 6)
    ensures Decode(LittleEndian(FormatVersion, 4) + LittleEndian(n, 4) + LittleEndian(id, 4) + rest, width) ==
            Err(InvalidComponentId)
  {
    Powers();
    var version, number, word := LittleEndian(FormatVersion, 4), LittleEndian(n, 4), LittleEndian(id, 4);
    assert version + number + word + rest == version + (number + (word + rest));
    FieldAt(FormatVersion, 4, number + (word + rest));
    FieldAt(n, 4, word + rest);
    FieldAt(id, 4, rest);
  }

  // ---------------------------------------------------------------------
  // Adding the components a file brings
  // ---------------------------------------------------------------------

  /** The collection the serializer fills: each component's records as bytes, under its id. */
  type Collection = PC.ParticleCollection<seq<uint8>>
  type Table = seq<Option<seq<seq<uint8>>>>

  /** The ids of the components among `cs` that are available but absent from `data`, in order. */
  function Missing(data: Table, available: set<Component>, cs: seq<Component>): seq<nat>
    decreases |cs|
  {
    if cs == [] then []
    else
      var c := cs[|cs| - 1];
      Missing(data, available, cs[..|cs| - 1]) + (if c in available && PC.At(data, Id(c)).None? then [Id(c)] else [])
  }

  /** Exactly the available components that are absent are added, and only they. */
  lemma {:induction false} MissingExactly(data: Table, available: set<Component>, cs: seq<Component>, id: nat)
    ensures id in Missing(data, available, cs) <==>
      FromId(id).Some? && FromId(id).value in cs && FromId(id).value in available && PC.At(data, id).None?
    decreases |cs|
  {
    if cs != [] {
      var init, c := cs[..|cs| - 1], cs[|cs| - 1];
      MissingExactly(data, available, init, id);
      assert cs == init + [c];
      if id == Id(c) {
        assert FromId(id) == Some(c);
      }
    }
  }

  /** Component `id` after the components of `cs` were added where available and absent. */
  function Added(data: Table, available: set<Component>, cs: seq<Component>, size: nat,
                 blankOf: nat -> seq<uint8>, id: nat): Option<seq<seq<uint8>>>
  {
    if FromId(id).Some? && FromId(id).value in cs && FromId(id).value in available && PC.At(data, id).None?
    then Some(seq(size, _ => blankOf(id)))
    else PC.At(data, id)
  }

  /** One more component handled: its id is missing exactly when it is available and absent. */
  lemma MissingSnoc(data: Table, available: set<Component>, cs: seq<Component>, c: Component)
    ensures Missing(data, available, cs + [c]) ==
      Missing(data, available, cs) + (if c in available && PC.At(data, Id(c)).None? then [Id(c)] else [])
  {
    assert (cs + [c])[..|cs|] == cs;
  }

  /** One more component handled: only its own entry can change, to a blank one. */
  lemma AddedSnoc(data: Table, available: set<Component>, cs: seq<Component>, c: Component, size: nat,
                  blankOf: nat -> seq<uint8>, id: nat)
    ensures Added(data, available, cs + [c], size, blankOf, id) ==
      if id == Id(c) && c in available && PC.At(data, id).None? then Some(seq(size, _ => blankOf(id)))
      else Added(data, available, cs, size, blankOf, id)
  {
    if id == Id(c) {
      assert FromId(id) == Some(c);
    }
  }

  /** A component added by add_components_if_required is present afterwards; any other keeps its entry. */
  lemma AddedPresent(data: Table, available: set<Component>, cs: seq<Component>, size: nat,
                     blankOf: nat -> seq<uint8>, c: Component)
    requires c in cs && c in available
    ensures Added(data, available, cs, size, blankOf, Id(c)).Some?
  {
  }

  // ---------------------------------------------------------------------
  // Reading particles into the collection
  // ---------------------------------------------------------------------

  /** Component `id` after particle i's records in `row` were stored. */
  function Stored(entry: Option<seq<seq<uint8>>>, i: nat, row: Row, id: nat): Option<seq<seq<uint8>>>
  {
    if FromId(id).Some? && FromId(id).value in row && entry.Some? && i < |entry.value|
    then Some(entry.value[i := row[FromId(id).value]])
    else entry
  }

  /** Component c's records of the rows, one per particle. */
  function Column(rows: seq<Row>, c: Component): (r: seq<seq<uint8>>)
    ensures |r| == |rows|
  {
    seq(|rows|, j requires 0 <= j < |rows| => if c in rows[j] then rows[j][c] else [])
  }

  /** Component `id` after the first |rows| particles were read over the resized entry. */
  function PartlyRead(entry: Option<seq<seq<uint8>>>, available: set<Component>, rows: seq<Row>, id: nat): Option<seq<seq<uint8>>>
  {
    if FromId(id).Some? && FromId(id).value in available && entry.Some? && |rows| <= |entry.value|
    then Some(Column(rows, FromId(id).value) + entry.value[|rows|..])
    else entry
  }

  /** Storing the next row continues the partly read entry. */
  lemma PartlyReadStep(entry: Option<seq<seq<uint8>>>, available: set<Component>, rows: seq<Row>, row: Row, id: nat)
    requires row.Keys == available
    requires entry.Some? ==> |rows| < |entry.value|
    ensures Stored(PartlyRead(entry, available, rows, id), |rows|, row, id) == PartlyRead(entry, available, rows + [row], id)
  {
    if FromId(id).Some? && FromId(id).value in available && entry.Some? {
      var c := FromId(id).value;
      var i := |rows|;
      var v := entry.value;
      assert PartlyRead(entry, available, rows, id) == Some(Column(rows, c) + v[i..]);
      assert (Column(rows, c) + v[i..])[i := row[c]] == Column(rows + [row], c) + v[i + 1..];
    }
  }

  /**
   * A particle read in the fixed order holds every available component, and
   * the particles after it follow it.
   */
  lemma ReadNextRow(input: seq<uint8>, k: nat, available: set<Component>, width: Component -> nat,
                    rows: seq<Row>, row: Row, rest: seq<uint8>)
    requires 0 < k && ReadRow(input, Order, available, width, map[]) == Ok((row, rest))
    ensures row.Keys == available
    ensures ReadRows(input, k, Order, available, width, rows) == ReadRows(rest, k - 1, Order, available, width, rows + [row])
  {
    ReadRowKeys(input, Order, available, width, map[]);
    PickedAll(available);
    ReadRowsStep(input, k, Order, available, width, rows, row, rest);
  }

  /** Every available component has an entry in `data`. */
  ghost predicate HoldsAllIn(data: Table, available: set<Component>)
  {
    forall c :: c in available ==> PC.At(data, Id(c)).Some?
  }

  /** Every entry of `data` holds n records. */
  ghost predicate SizedIn(data: Table, n: nat)
  {
    forall id :: PC.At(data, id).Some? ==> |PC.At(data, id).value| == n
  }

  /** `data` is `data0` with particle i's records of `row` stored. */
  ghost predicate StoredIn(data: Table, data0: Table, i: nat, row: Row)
  {
    forall id :: PC.At(data, id) == Stored(PC.At(data0, id), i, row, id)
  }

  /** `data` is `data0` with the first |rows| particles read. */
  ghost predicate PartlyReadIn(data: Table, data0: Table, available: set<Component>, rows: seq<Row>)
  {
    forall id :: PC.At(data, id) == PartlyRead(PC.At(data0, id), available, rows, id)
  }

  /** Storing one more record of particle i stores the row grown by it. */
  lemma StoredSet(data: Table, data0: Table, i: nat, row: Row, c: Component, record: seq<uint8>)
    requires StoredIn(data, data0, i, row)
    requires Id(c) < |data| && data[Id(c)].Some? && i < |data[Id(c)].value|
    ensures StoredIn(data[Id(c) := Some(data[Id(c)].value[i := record])], data0, i, row[c := record])
  {
    var after := data[Id(c) := Some(data[Id(c)].value[i := record])];
    assert FromId(Id(c)) == Some(c);
    forall id: nat
      ensures PC.At(after, id) == Stored(PC.At(data0, id), i, row[c := record], id)
    {
      assert PC.At(data, id) == Stored(PC.At(data0, id), i, row, id);
      if id != Id(c) {
        assert PC.At(after, id) == PC.At(data, id);
        if FromId(id).Some? {
          assert FromId(id).value != c;
        }
      } else if c in row {
        var v := PC.At(data0, id).value;
        assert v[i := row[c]][i := record] == v[i := record];
      }
    }
  }

  /** Storing records keeps every entry there. */
  lemma StoredHoldsAll(data: Table, data0: Table, i: nat, row: Row, available: set<Component>)
    requires StoredIn(data, data0, i, row) && HoldsAllIn(data0, available)
    ensures HoldsAllIn(data, available)
  {
    forall c | c in available
      ensures PC.At(data, Id(c)).Some?
    {
      assert PC.At(data, Id(c)) == Stored(PC.At(data0, Id(c)), i, row, Id(c));
    }
  }

  /** No particle read yet: the table is as it was. */
  lemma PartlyReadNothing(data: Table, available: set<Component>)
    ensures PartlyReadIn(data, data, available, [])
  {
    forall id: nat
      ensures PC.At(data, id) == PartlyRead(PC.At(data, id), available, [], id)
    {
      if FromId(id).Some? && PC.At(data, id).Some? {
        assert Column([], FromId(id).value) + PC.At(data, id).value[0..] == PC.At(data, id).value;
      }
    }
  }

  /** Storing the next particle's row continues the partly read table. */
  lemma PartlyReadNext(before: Table, after: Table, data0: Table, available: set<Component>,
                       rows: seq<Row>, row: Row, n: nat)
    requires PartlyReadIn(before, data0, available, rows) && StoredIn(after, before, |rows|, row)
    requires row.Keys == available && SizedIn(data0, n) && |rows| < n
    ensures PartlyReadIn(after, data0, available, rows + [row])
  {
    forall id: nat
      ensures PC.At(after, id) == PartlyRead(PC.At(data0, id), available, rows + [row], id)
    {
      assert PC.At(after, id) == Stored(PC.At(before, id), |rows|, row, id);
      assert PC.At(before, id) == PartlyRead(PC.At(data0, id), available, rows, id);
      PartlyReadStep(PC.At(data0, id), available, rows, row, id);
    }
  }

  /** The components a row read from the file holds: those it had and the available ones read. */
  lemma {:induction false} ReadRowKeys(input: seq<uint8>, cs: seq<Component>, available: set<Component>,
                                       width: Component -> nat, row: Row)
    requires ReadRow(input, cs, available, width, row).Ok?
    ensures ReadRow(input, cs, available, width, row).value.0.Keys == row.Keys + Picked(available, cs)
    decreases |cs|
  {
    if cs == [] {
      assert Picked(available, cs) == {};
    } else {
      var c := cs[0];
      if c in available {
        var (record, rest) := Record(input, width(c)).value;
        ReadRowKeys(rest, cs[1..], available, width, row[c := record]);
        assert row[c := record].Keys + Picked(available, cs[1..]) == row.Keys + Picked(available, cs);
      } else {
        ReadRowKeys(input, cs[1..], available, width, row);
        assert Picked(available, cs[1..]) == Picked(available, cs);
      }
    }
  }

  /** Component `id` after a whole file was read into a collection holding `data`. */
  function Loaded(data: Table, s: Snapshot, blankOf: nat -> seq<uint8>, id: nat): Option<seq<seq<uint8>>>
  {
    if FromId(id).Some? && FromId(id).value in s.available then Some(Column(s.rows, FromId(id).value))
    else match PC.At(data, id)
      case None => None
      case Some(v) => Some(PC.ResizeSeq(v, |s.rows|, blankOf(id)))
  }

  /** An entry after resize. */
  function ResizedEntry(entry: Option<seq<seq<uint8>>>, n: nat, blank: seq<uint8>): Option<seq<seq<uint8>>>
  {
    match entry
    case None => None
    case Some(v) => Some(PC.ResizeSeq(v, n, blank))
  }

  /**
   * Adding the components, resizing to the particle count and reading every
   * particle leaves each component as the file says: the file's records for
   * the components it holds, the old records resized for the others.
   */
  lemma LoadedAfterReading(data: Table, s: Snapshot, size: nat, blankOf: nat -> seq<uint8>, id: nat)
    ensures PartlyRead(ResizedEntry(Added(data, s.available, Order, size, blankOf, id), |s.rows|, blankOf(id)),
                       s.available, s.rows, id) == Loaded(data, s, blankOf, id)
  {
    var n := |s.rows|;
    if FromId(id).Some? && FromId(id).value in s.available {
      var c := FromId(id).value;
      InOrder(c);
      var entry := ResizedEntry(Added(data, s.available, Order, size, blankOf, id), n, blankOf(id));
      assert entry.Some? && |entry.value| == n;
      assert Column(s.rows, c) + entry.value[n..] == Column(s.rows, c);
    }
  }

  // ---------------------------------------------------------------------
  // What the collection holds
  // ---------------------------------------------------------------------

  /** The components present in a collection. */
  function Present(collection: Collection): set<Component>
    reads collection
  {
    set c | c in Order && collection.IsTypePresent(Id(c))
  }

  /** A component is present in the collection exactly when the collection holds its id. */
  lemma PresentIff(collection: Collection, c: Component)
    ensures c in Present(collection) <==> collection.IsTypePresent(Id(c))
  {
    InOrder(c);
  }

  /** Particle i's records, one for each present component. */
  function RowOf(collection: Collection, i: nat): (row: Row)
    reads collection
    requires collection.Valid() && i < collection.internalSize
    ensures row.Keys == Present(collection)
  {
    map c | c in Order && collection.IsTypePresent(Id(c)) :: collection.data[Id(c)].value[i]
  }

  /** The first n particles' rows. */
  function RowsOf(collection: Collection, n: nat): (rows: seq<Row>)
    reads collection
    requires collection.Valid() && n <= collection.internalSize
    ensures |rows| == n
    ensures forall i :: 0 <= i < n ==> rows[i] == RowOf(collection, i)
  {
    if n == 0 then [] else RowsOf(collection, n - 1) + [RowOf(collection, n - 1)]
  }

  /** What serialize writes of a collection. */
  function SnapshotOf(collection: Collection): Snapshot
    reads collection
    requires collection.Valid()
  {
    Snapshot(Present(collection), RowsOf(collection, collection.internalSize))
  }

  // ---------------------------------------------------------------------
  // The fixed order, written out
  // ---------------------------------------------------------------------

  /** One component's id word in write_component_ids. */
  function IdWord(available: set<Component>, c: Component): seq<uint8>
  {
    if c in available then LittleEndian(Id(c), 4) else []
  }

  /** One component's record in a particle. */
  function Part(row: Row, c: Component): seq<uint8>
  {
    if c in row then row[c] else []
  }

  /** The count of `cs` and then of `c`. */
  lemma {:induction false} AmountSnoc(available: set<Component>, cs: seq<Component>, c: Component)
    ensures Amount(available, cs + [c]) == Amount(available, cs) + (if c in available then 1 else 0)
    decreases |cs|
  {
    if cs == [] {
      assert [] + [c] == [c];
    } else {
      assert (cs + [c])[1..] == cs[1..] + [c];
      AmountSnoc(available, cs[1..], c);
    }
  }

  /** No component comes twice in the order. */
  lemma OrderDistinct()
    ensures forall i, j :: 0 <= i < j < |Order| ==> Order[i] != Order[j]
  {
  }

  /** The six steps of the methods that follow the fixed order spell it out. */
  lemma OrderInSteps()
    ensures [] + [MovementData] + [MovementData3D] + [ParticleInfo] + [ParticleData] + [ExternalForces] + [ExternalForces3D] == Order
  {
  }

  /** The fixed order taken apart from the front, as the reading methods consume it. */
  lemma OrderFromFront()
    ensures [MovementData] + ([MovementData3D] + ([ParticleInfo] + ([ParticleData] + ([ExternalForces] + [ExternalForces3D])))) == Order
  {
  }

  /** Counting the available components in the fixed order counts them all. */
  lemma AmountOfAll(available: set<Component>)
    ensures Amount(available, Order) == |available|
  {
    OrderDistinct();
    AmountIsSize(available, Order);
    PickedAll(available);
  }

  /** The rows' bytes grow by one row's bytes when a row is appended. */
  lemma {:induction false} RowsBytesSnoc(rows: seq<Row>, row: Row, cs: seq<Component>)
    ensures RowsBytes(rows + [row], cs) == RowsBytes(rows, cs) + RowBytes(row, cs)
    decreases |rows|
  {
    if rows == [] {
      assert [] + [row] == [row];
      assert RowsBytes([row], cs) == RowBytes(row, cs) + RowsBytes([], cs);
    } else {
      assert (rows + [row])[1..] == rows[1..] + [row];
      RowsBytesSnoc(rows[1..], row, cs);
    }
  }

  /** The ids of `cs` and then of `c`. */
  lemma {:induction false} IdBytesSnoc(available: set<Component>, cs: seq<Component>, c: Component)
    ensures IdBytes(available, cs + [c]) == IdBytes(available, cs) + IdWord(available, c)
    decreases |cs|
  {
    if cs == [] {
      assert [] + [c] == [c];
    } else {
      assert (cs + [c])[1..] == cs[1..] + [c];
      IdBytesSnoc(available, cs[1..], c);
    }
  }

  /** The records of `cs` and then of `c`. */
  lemma {:induction false} RowBytesSnoc(row: Row, cs: seq<Component>, c: Component)
    ensures RowBytes(row, cs + [c]) == RowBytes(row, cs) + Part(row, c)
    decreases |cs|
  {
    if cs == [] {
      assert [] + [c] == [c];
    } else {
      assert (cs + [c])[1..] == cs[1..] + [c];
      RowBytesSnoc(row, cs[1..], c);
    }
  }

  /** Sequence concatenation is associative. */
  lemma Associative<T>(a: seq<T>, b: seq<T>, c: seq<T>)
    ensures a + b + c == a + (b + c)
  {
  }

  /** One `if` of get_amount_of_components counts the component when the collection holds it. */
  lemma CountStep(collection: Collection, cs: seq<Component>, c: Component)
    ensures Amount(Present(collection), cs + [c]) ==
      Amount(Present(collection), cs) + (if collection.IsTypePresent(Id(c)) then 1 else 0)
  {
    AmountSnoc(Present(collection), cs, c);
    PresentIff(collection, c);
  }

  // ---------------------------------------------------------------------
  // The stream side
  // ---------------------------------------------------------------------

  /** What the stream has not read yet. */
  function Unread(stream: BinaryStream): seq<uint8>
    reads stream
    requires stream.Valid()
  {
    stream.bytes[stream.position..]
  }

  /** `stream >> v` for a 32- or 64-bit integer: the value at the front, "malformed data" on a short read. */
  method ReadField(stream: BinaryStream, width: nat) returns (r: Result<nat>)
    requires stream.Valid() && !stream.failed && width in {4, 8}
    modifies stream
    ensures stream.Valid() && stream.bytes == old(stream.bytes)
    ensures var f := Field(old(Unread(stream)), width);
      && (r.Ok? <==> f.Ok?)
      && (r.Ok? ==> r.value == f.value.0 && !stream.failed && Unread(stream) == f.value.1)
      && (r.Err? ==> r.message == f.message)
  {
    ghost var input := Unread(stream);
    ghost var pos := stream.position;
    r := stream.ReadInteger(width);
    if r.Ok? {
      assert stream.bytes[pos..pos + width] == input[..width];
      assert stream.bytes[pos + width..] == input[width..];
    }
  }

  /** The reads of one component record: its `width` bytes, "malformed data" on a short read. */
  method ReadRecord(stream: BinaryStream, width: nat) returns (r: Result<seq<uint8>>)
    requires stream.Valid() && !stream.failed
    modifies stream
    ensures stream.Valid() && stream.bytes == old(stream.bytes)
    ensures var f := Record(old(Unread(stream)), width);
      && (r.Ok? <==> f.Ok?)
      && (r.Ok? ==> r.value == f.value.0 && !stream.failed && Unread(stream) == f.value.1)
      && (r.Err? ==> r.message == f.message)
  {
    ghost var input := Unread(stream);
    ghost var pos := stream.position;
    var got := stream.Read(width);
    if stream.failed {
      return Err(MalformedData);
    }
    assert got == input[..width];
    assert stream.bytes[pos + width..] == input[width..];
    r := Ok(got);
  }

  // ---------------------------------------------------------------------
  // The serializer
  // ---------------------------------------------------------------------

  class Serializer {
    /** The file written and read; opening it through the LZ4 stream is not part of this model. */
    const filepath: string
    /** The number of bytes one record of each component takes. */
    const width: Component -> nat

    constructor (filepath: string, width: Component -> nat)
      ensures this.filepath == filepath && this.width == width
    {
      this.filepath := filepath;
      this.width := width;
    }

    /** One `if` of get_amount_of_components: the component counts when the collection holds it. */
    method CountIfPresent(collection: Collection, c: Component, count: nat, ghost done: seq<Component>)
      returns (result: nat)
      requires count == Amount(Present(collection), done)
      ensures result == Amount(Present(collection), done + [c])
    {
      result := count;
      if collection.IsTypePresent(Id(c)) {
        result := result + 1;
      }
      CountStep(collection, done, c);
    }

    /** get_amount_of_components: how many of the six components the collection holds. */
    method GetAmountOfComponents(collection: Collection) returns (result: nat)
      ensures result == Amount(Present(collection), Order)
      ensures result == |Present(collection)|
    {
      result := 0;
      ghost var done: seq<Component> := [];
      result := CountIfPresent(collection, MovementData, result, done);
      done := done + [MovementData];
      result := CountIfPresent(collection, MovementData3D, result, done);
      done := done + [MovementData3D];
      result := CountIfPresent(collection, ParticleInfo, result, done);
      done := done + [ParticleInfo];
      result := CountIfPresent(collection, ParticleData, result, done);
      done := done + [ParticleData];
      result := CountIfPresent(collection, ExternalForces, result, done);
      done := done + [ExternalForces];
      result := CountIfPresent(collection, ExternalForces3D, result, done);
      done := done + [ExternalForces3D];
      OrderInSteps();
      AmountOfAll(Present(collection));
    }

    /** One `if` of write_component_ids: the component's id, when the collection holds it. */
    method WriteIdIfPresent(stream: BinaryStream, collection: Collection, c: Component,
                            ghost start: seq<uint8>, ghost done: seq<Component>)
      requires stream.Valid() && stream.bytes == start + IdBytes(Present(collection), done)
      modifies stream
      ensures stream.Valid() && stream.position == old(stream.position) && stream.failed == old(stream.failed)
      ensures stream.bytes == start + IdBytes(Present(collection), done + [c])
    {
      IdBytesSnoc(Present(collection), done, c);
      PresentIff(collection, c);
      Associative(start, IdBytes(Present(collection), done), IdWord(Present(collection), c));
      if collection.IsTypePresent(Id(c)) {
        Powers();
        stream.WriteInteger(Id(c), 4);
      }
    }

    /** write_component_ids: the ids of the components present, in the fixed order. */
    method WriteComponentIds(stream: BinaryStream, collection: Collection)
      requires stream.Valid()
      modifies stream
      ensures stream.Valid() && stream.position == old(stream.position) && stream.failed == old(stream.failed)
      ensures stream.bytes == old(stream.bytes) + IdBytes(Present(collection), Order)
    {
      ghost var start := stream.bytes;
      assert stream.bytes == start + IdBytes(Present(collection), []);
      ghost var done: seq<Component> := [];
      WriteIdIfPresent(stream, collection, MovementData, start, done);
      done := done + [MovementData];
      WriteIdIfPresent(stream, collection, MovementData3D, start, done);
      done := done + [MovementData3D];
      WriteIdIfPresent(stream, collection, ParticleInfo, start, done);
      done := done + [ParticleInfo];
      WriteIdIfPresent(stream, collection, ParticleData, start, done);
      done := done + [ParticleData];
      WriteIdIfPresent(stream, collection, ExternalForces, start, done);
      done := done + [ExternalForces];
      WriteIdIfPresent(stream, collection, ExternalForces3D, start, done);
      done := done + [ExternalForces3D];
      OrderInSteps();
    }

    /** One `if` of the particle loop of serialize: the component's record, when the collection holds it. */
    method WriteRecordIfPresent(stream: BinaryStream, collection: Collection, c: Component, i: nat,
                                ghost start: seq<uint8>, ghost done: seq<Component>)
      requires collection.Valid() && i < collection.internalSize
      requires stream.Valid() && stream.bytes == start + RowBytes(RowOf(collection, i), done)
      modifies stream
      ensures stream.Valid() && stream.position == old(stream.position) && stream.failed == old(stream.failed)
      ensures stream.bytes == start + RowBytes(RowOf(collection, i), done + [c])
    {
      var row := RowOf(collection, i);
      RowBytesSnoc(row, done, c);
      PresentIff(collection, c);
      Associative(start, RowBytes(row, done), Part(row, c));
      if collection.IsTypePresent(Id(c)) {
        stream.Write(collection.Get(Id(c), i));
      }
    }

    /** The body of serialize's particle loop: particle i's records in the fixed order. */
    method WriteParticle(stream: BinaryStream, collection: Collection, i: nat)
      requires collection.Valid() && i < collection.internalSize && stream.Valid()
      modifies stream
      ensures stream.Valid() && stream.position == old(stream.position) && stream.failed == old(stream.failed)
      ensures stream.bytes == old(stream.bytes) + RowBytes(RowOf(collection, i), Order)
    {
      ghost var start := stream.bytes;
      assert stream.bytes == start + RowBytes(RowOf(collection, i), []);
      ghost var done: seq<Component> := [];
      WriteRecordIfPresent(stream, collection, MovementData, i, start, done);
      done := done + [MovementData];
      WriteRecordIfPresent(stream, collection, MovementData3D, i, start, done);
      done := done + [MovementData3D];
      WriteRecordIfPresent(stream, collection, ParticleInfo, i, start, done);
      done := done + [ParticleInfo];
      WriteRecordIfPresent(stream, collection, ParticleData, i, start, done);
      done := done + [ParticleData];
      WriteRecordIfPresent(stream, collection, ExternalForces, i, start, done);
      done := done + [ExternalForces];
      WriteRecordIfPresent(stream, collection, ExternalForces3D, i, start, done);
      done := done + [ExternalForces3D];
      OrderInSteps();
    }

    /** The first part of serialize: the version, the number and ids of the components present, the particle count. */
    method WriteHeader(stream: BinaryStream, collection: Collection)
      requires stream.Valid() && collection.internalSize < 0x1_0000_0000_0000_0000
      modifies stream
      ensures stream.Valid() && stream.position == old(stream.position) && stream.failed == old(stream.failed)
      ensures stream.bytes == old(stream.bytes) + Header(Present(collection), collection.internalSize)
    {
      ghost var start := stream.bytes;
      ghost var present := Present(collection);
      Powers();
      var amount := GetAmountOfComponents(collection);
      ghost var version, count := LittleEndian(FormatVersion, 4), LittleEndian(collection.internalSize, 8);
      ghost var number, ids := LittleEndian(amount, 4), IdBytes(present, Order);
      stream.WriteInteger(FormatVersion, 4);
      stream.WriteInteger(amount, 4);
      Associative(start, version, number);
      WriteComponentIds(stream, collection);
      Associative(start, version + number, ids);
      stream.WriteInteger(collection.Size(), 8);
      Associative(start, version + number + ids, count);
    }

    /** The particle loop of serialize: every particle's records, particle after particle. */
    method WriteParticles(stream: BinaryStream, collection: Collection)
      requires stream.Valid() && collection.Valid()
      modifies stream
      ensures stream.Valid() && stream.position == old(stream.position) && stream.failed == old(stream.failed)
      ensures stream.bytes == old(stream.bytes) + RowsBytes(RowsOf(collection, collection.internalSize), Order)
    {
      ghost var start := stream.bytes;
      assert stream.bytes == start + RowsBytes(RowsOf(collection, 0), Order);
      var i := 0;
      while i < collection.Size()
        invariant stream.Valid() && stream.position == old(stream.position) && stream.failed == old(stream.failed)
        invariant i <= collection.internalSize
        invariant stream.bytes == start + RowsBytes(RowsOf(collection, i), Order)
      {
        WriteParticle(stream, collection, i);
        RowsBytesSnoc(RowsOf(collection, i), RowOf(collection, i), Order);
        Associative(start, RowsBytes(RowsOf(collection, i), Order), RowBytes(RowOf(collection, i), Order));
        i := i + 1;
      }
    }

    /**
     * serialize: the header, then every particle's records; what it writes
     * is the encoding of the collection, and reads back as it.
     */
    method Serialize(stream: BinaryStream, collection: Collection)
      requires stream.Valid() && collection.Valid() && collection.internalSize < 0x1_0000_0000_0000_0000
      modifies stream
      ensures stream.Valid() && stream.position == old(stream.position) && stream.failed == old(stream.failed)
      ensures stream.bytes == old(stream.bytes) + Encode(SnapshotOf(collection))
      ensures Fits(SnapshotOf(collection), width) ==>
        Decode(stream.bytes[|old(stream.bytes)|..], width) == Ok(SnapshotOf(collection))
    {
      ghost var start := stream.bytes;
      ghost var s := SnapshotOf(collection);
      ghost var header := Header(s.available, collection.internalSize);
      WriteHeader(stream, collection);
      WriteParticles(stream, collection);
      assert Encode(s) == header + RowsBytes(s.rows, Order);
      Associative(start, header, RowsBytes(s.rows, Order));
      assert stream.bytes[|start|..] == Encode(s) + [];
      if Fits(s, width) {
        DecodeEncode(s, [], width);
      }
    }

    /** read_available_components: the number of ids, then each id, which marks its component available. */
    method ReadAvailableComponents(stream: BinaryStream) returns (r: Result<set<Component>>)
      requires stream.Valid() && !stream.failed
      modifies stream
      ensures stream.Valid() && stream.bytes == old(stream.bytes)
      ensures var d := ReadComponentIds(old(Unread(stream)));
        && (r.Ok? <==> d.Ok?)
        && (r.Ok? ==> r.value == d.value.0 && !stream.failed && Unread(stream) == d.value.1)
        && (r.Err? ==> r.message == d.message)
    {
      ghost var input := Unread(stream);
      var number := ReadField(stream, 4);
      if number.Err? {
        return Err(number.message);
      }
      var result: set<Component> := {};
      var i: nat := 0;
      while i < number.value
        invariant stream.Valid() && !stream.failed && stream.bytes == old(stream.bytes)
        invariant i <= number.value
        invariant ReadComponentIds(input) == ReadIds(Unread(stream), number.value - i, result)
        decreases number.value - i
      {
        ghost var here := Unread(stream);
        var id := ReadField(stream, 4);
        if id.Err? {
          return Err(id.message);
        }
        match id.value {
          case 1 => result := result + {MovementData};
          case 2 => result := result + {MovementData3D};
          case 3 => result := result + {ParticleInfo};
          case 4 => result := result + {ParticleData};
          case 5 => result := result + {ExternalForces};
          case 6 => result := result + {ExternalForces3D};
          case _ => return Err(InvalidComponentId);
        }
        i := i + 1;
      }
      return Ok(result);
    }

    /**
     * One `if` of add_components_if_required: an available component the
     * collection lacks is added. `done` are the components handled before.
     */
    method AddIfRequired(available: set<Component>, collection: Collection, c: Component,
                         ghost data0: Table, ghost calls0: seq<nat>, ghost done: seq<Component>)
      requires collection.Valid() && c !in done
      requires forall id ::
        PC.At(collection.data, id) == Added(data0, available, done, collection.internalSize, collection.blankOf, id)
      requires collection.calls == calls0 + Missing(data0, available, done)
      modifies collection
      ensures collection.Valid() && collection.internalSize == old(collection.internalSize)
      ensures forall id ::
        PC.At(collection.data, id) == Added(data0, available, done + [c], collection.internalSize, collection.blankOf, id)
      ensures collection.calls == calls0 + Missing(data0, available, done + [c])
    {
      MissingSnoc(data0, available, done, c);
      assert FromId(Id(c)) == Some(c);
      assert PC.At(collection.data, Id(c)) == PC.At(data0, Id(c));
      ghost var before := collection.data;
      if c in available {
        if !collection.IsTypePresent(Id(c)) {
          collection.AddType(Id(c));
        }
      }
      forall id: nat
        ensures PC.At(collection.data, id) == Added(data0, available, done + [c], collection.internalSize, collection.blankOf, id)
      {
        AddedSnoc(data0, available, done, c, collection.internalSize, collection.blankOf, id);
        if id == Id(c) && c in available && PC.At(data0, id).None? {
          var blank := seq(collection.internalSize, _ => collection.blankOf(id));
          assert collection.data[id] == Some(blank);
        } else {
          assert PC.At(collection.data, id) == PC.At(before, id);
        }
      }
    }

    /**
     * add_components_if_required: every available component the collection
     * lacks is added, in the fixed order; the others are left alone.
     */
    method AddComponentsIfRequired(available: set<Component>, collection: Collection)
      requires collection.Valid()
      modifies collection
      ensures collection.Valid() && collection.internalSize == old(collection.internalSize)
      ensures forall id ::
        PC.At(collection.data, id) == Added(old(collection.data), available, Order, collection.internalSize, collection.blankOf, id)
      ensures collection.calls == old(collection.calls) + Missing(old(collection.data), available, Order)
    {
      ghost var data0, calls0 := collection.data, collection.calls;
      ghost var done: seq<Component> := [];
      assert collection.calls == calls0 + Missing(data0, available, done);
      AddIfRequired(available, collection, MovementData, data0, calls0, done);
      done := done + [MovementData];
      AddIfRequired(available, collection, MovementData3D, data0, calls0, done);
      done := done + [MovementData3D];
      AddIfRequired(available, collection, ParticleInfo, data0, calls0, done);
      done := done + [ParticleInfo];
      AddIfRequired(available, collection, ParticleData, data0, calls0, done);
      done := done + [ParticleData];
      AddIfRequired(available, collection, ExternalForces, data0, calls0, done);
      done := done + [ExternalForces];
      AddIfRequired(available, collection, ExternalForces3D, data0, calls0, done);
      done := done + [ExternalForces3D];
      OrderInSteps();
    }

    /**
     * One `if` of deserialize's particle loop: when the file holds component
     * c, its record of particle i is read and stored. `row` holds the records
     * read before, `todo` are the components after c, and `whole` is the
     * outcome of reading the particle from where it started.
     */
    method ReadRecordIfAvailable(stream: BinaryStream, collection: Collection, available: set<Component>,
                                 c: Component, i: nat, row: Row, ghost todo: seq<Component>, ghost data0: Table,
                                 ghost whole: Result<(Row, seq<uint8>)>)
      returns (r: Result<Row>)
      requires stream.Valid() && !stream.failed && collection.Valid() && i < collection.internalSize
      requires HoldsAllIn(data0, available) && StoredIn(collection.data, data0, i, row)
      requires whole == ReadRow(Unread(stream), [c] + todo, available, width, row)
      modifies stream, collection
      ensures stream.Valid() && stream.bytes == old(stream.bytes)
      ensures collection.Valid() && collection.internalSize == old(collection.internalSize)
      ensures collection.calls == old(collection.calls)
      ensures r.Ok? ==> !stream.failed && whole == ReadRow(Unread(stream), todo, available, width, r.value)
      ensures r.Err? ==> whole == Err(r.message)
      ensures r.Ok? ==> StoredIn(collection.data, data0, i, r.value)
    {
      assert ([c] + todo)[0] == c && ([c] + todo)[1..] == todo;
      if c !in available {
        return Ok(row);
      }
      var record := ReadRecord(stream, width(c));
      if record.Err? {
        return Err(record.message);
      }
      ghost var before := collection.data;
      assert FromId(Id(c)) == Some(c);
      assert PC.At(before, Id(c)) == Stored(PC.At(data0, Id(c)), i, row, Id(c));
      assert |before[Id(c)].value| == collection.internalSize;
      collection.Set(Id(c), i, record.value);
      StoredSet(before, data0, i, row, c, record.value);
      r := Ok(row[c := record.value]);
    }

    /**
     * The body of deserialize's particle loop: particle i's records of the
     * available components, in the fixed order, each stored in the collection.
     */
    method ReadParticle(stream: BinaryStream, collection: Collection, available: set<Component>, i: nat)
      returns (r: Result<Row>)
      requires stream.Valid() && !stream.failed && collection.Valid() && i < collection.internalSize
      requires HoldsAllIn(collection.data, available)
      modifies stream, collection
      ensures stream.Valid() && stream.bytes == old(stream.bytes)
      ensures collection.Valid() && collection.internalSize == old(collection.internalSize)
      ensures collection.calls == old(collection.calls)
      ensures var d := ReadRow(old(Unread(stream)), Order, available, width, map[]);
        && (r.Ok? <==> d.Ok?)
        && (r.Ok? ==> !stream.failed && r.value == d.value.0 && Unread(stream) == d.value.1)
        && (r.Err? ==> r.message == d.message)
      ensures r.Ok? ==> StoredIn(collection.data, old(collection.data), i, r.value)
    {
      ghost var data0 := collection.data;
      ghost var todo5 := [ExternalForces3D];
      ghost var todo4 := [ExternalForces] + todo5;
      ghost var todo3 := [ParticleData] + todo4;
      ghost var todo2 := [ParticleInfo] + todo3;
      ghost var todo1 := [MovementData3D] + todo2;
      OrderFromFront();
      var row: Row := map[];
      ghost var whole := ReadRow(Unread(stream), Order, available, width, row);
      assert StoredIn(data0, data0, i, row);
      r := ReadRecordIfAvailable(stream, collection, available, MovementData, i, row, todo1, data0, whole);
      if r.Err? {
        return;
      }
      row := r.value;
      r := ReadRecordIfAvailable(stream, collection, available, MovementData3D, i, row, todo2, data0, whole);
      if r.Err? {
        return;
      }
      row := r.value;
      r := ReadRecordIfAvailable(stream, collection, available, ParticleInfo, i, row, todo3, data0, whole);
      if r.Err? {
        return;
      }
      row := r.value;
      r := ReadRecordIfAvailable(stream, collection, available, ParticleData, i, row, todo4, data0, whole);
      if r.Err? {
        return;
      }
      row := r.value;
      r := ReadRecordIfAvailable(stream, collection, available, ExternalForces, i, row, todo5, data0, whole);
      if r.Err? {
        return;
      }
      row := r.value;
      r := ReadRecordIfAvailable(stream, collection, available, ExternalForces3D, i, row, [], data0, whole);
    }

    /**
     * deserialize's particle loop: `count` particles, each read into the
     * collection at its index. The rows read are given back.
     */
    method ReadParticles(stream: BinaryStream, collection: Collection, available: set<Component>, count: nat)
      returns (r: Result<seq<Row>>)
      requires stream.Valid() && !stream.failed && collection.Valid() && collection.internalSize == count
      requires HoldsAllIn(collection.data, available)
      modifies stream, collection
      ensures stream.Valid() && stream.bytes == old(stream.bytes)
      ensures collection.Valid() && collection.internalSize == count && collection.calls == old(collection.calls)
      ensures var d := ReadRows(old(Unread(stream)), count, Order, available, width, []);
        && (r.Ok? <==> d.Ok?)
        && (r.Ok? ==> r.value == d.value.0)
        && (r.Err? ==> r.message == d.message)
      ensures r.Ok? ==> PartlyReadIn(collection.data, old(collection.data), available, r.value)
    {
      ghost var data0 := collection.data;
      assert SizedIn(data0, count);
      PartlyReadNothing(data0, available);
      var i := 0;
      var rows: seq<Row> := [];
      while i < count
        invariant stream.Valid() && !stream.failed && stream.bytes == old(stream.bytes)
        invariant collection.Valid() && collection.internalSize == count && collection.calls == old(collection.calls)
        invariant i == |rows| <= count
        invariant HoldsAllIn(collection.data, available)
        invariant ReadRows(old(Unread(stream)), count, Order, available, width, []) ==
                  ReadRows(Unread(stream), count - i, Order, available, width, rows)
        invariant PartlyReadIn(collection.data, data0, available, rows)
        decreases count - i
      {
        ghost var here, before := Unread(stream), collection.data;
        var row := ReadParticle(stream, collection, available, i);
        if row.Err? {
          return Err(row.message);
        }
        ReadNextRow(here, count - i, available, width, rows, row.value, Unread(stream));
        StoredHoldsAll(collection.data, before, i, row.value, available);
        PartlyReadNext(before, collection.data, data0, available, rows, row.value, count);
        rows := rows + [row.value];
        i := i + 1;
      }
      r := Ok(rows);
    }

    /**
     * deserialize: the version, the components (added to the collection
     * where it lacks them), the particle count (the collection is resized to
     * it), then every particle's records. It fails exactly where decoding the
     * unread bytes fails, with the same message; when it succeeds, the
     * collection holds what the file says.
     */
    method Deserialize(stream: BinaryStream, collection: Collection) returns (r: Result<()>)
      requires stream.Valid() && !stream.failed && collection.Valid()
      modifies stream, collection
      ensures stream.Valid() && stream.bytes == old(stream.bytes) && collection.Valid()
      ensures var d := Decode(old(Unread(stream)), width);
        && (r.Ok? <==> d.Ok?)
        && (r.Err? ==> r.message == d.message)
        && (r.Ok? ==>
              && collection.internalSize == |d.value.rows|
              && collection.calls == old(collection.calls) + Missing(old(collection.data), d.value.available, Order)
              && forall id :: PC.At(collection.data, id) == Loaded(old(collection.data), d.value, collection.blankOf, id))
    {
      ghost var input := Unread(stream);
      ghost var data0, size0 := collection.data, collection.internalSize;
      var version := ReadField(stream, 4);
      if version.Err? {
        return Err(version.message);
      }
      if version.value != FormatVersion {
        return Err(UnsupportedVersion);
      }
      var available := ReadAvailableComponents(stream);
      if available.Err? {
        return Err(available.message);
      }
      var components := available.value;
      AddComponentsIfRequired(components, collection);
      ghost var data1, calls1 := collection.data, collection.calls;
      var count := ReadField(stream, 8);
      if count.Err? {
        return Err(count.message);
      }
      ghost var body := Unread(stream);
      assert ReadHeader(input) == Ok((components, count.value, body));
      forall c | c in components ensures PC.At(data1, Id(c)).Some? {
        InOrder(c);
        AddedPresent(data0, components, Order, size0, collection.blankOf, c);
      }
      collection.Resize(count.value);
      ghost var data2 := collection.data;
      assert forall id :: PC.At(data2, id) == ResizedEntry(PC.At(data1, id), count.value, collection.blankOf(id));
      assert HoldsAllIn(data2, components);
      var rows := ReadParticles(stream, collection, components, count.value);
      if rows.Err? {
        return Err(rows.message);
      }
      ghost var s := Snapshot(components, rows.value);
      assert Decode(input, width) == Ok(s);
      ReadRowsLength(body, count.value, Order, components, width, []);
      forall id ensures PC.At(collection.data, id) == Loaded(data0, s, collection.blankOf, id) {
        var blank := collection.blankOf(id);
        var added := Added(data0, components, Order, size0, collection.blankOf, id);
        assert PC.At(data1, id) == added;
        assert PC.At(data2, id) == ResizedEntry(added, |s.rows|, blank);
        LoadedAfterReading(data0, s, size0, collection.blankOf, id);
      }
      r := Ok(());
    }
  }
}
