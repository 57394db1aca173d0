/** Whole scans: any interleaving of iterating and rescanning, no type errors, and reading back
    what was written. */
module ScanTheorems {
  import opened Wrappers
  import opened Arrow
  import opened Convert
  import opened Streaming
  import opened ChunkStream
  import opened Scan
  import TypeSafety
  import JsonMeaning
  import Readability

  // ----- interleavings -----

  datatype Op = DoIterate | DoRescan(stream: Items)

  ghost predicate ReadableOps(ops: seq<Op>)
  {
    forall i | 0 <= i < |ops| && ops[i].DoRescan? :: Readable(ops[i].stream)
  }

  /** The scan that the first `n` calls last started. */
  ghost function Started(first: Flat, ops: seq<Op>, n: nat): Flat
    requires n <= |ops| && ReadableOps(ops)
  {
    if n == 0 then first
    else if ops[n - 1].DoRescan? then FlatOf(ops[n - 1].stream)
    else Started(first, ops, n - 1)
  }

  /** The number of iterate calls since then. */
  function SinceStart(ops: seq<Op>, n: nat): nat
    requires n <= |ops|
  {
    if n == 0 || ops[n - 1].DoRescan? then 0 else SinceStart(ops, n - 1) + 1
  }

  /** What is left of a scan after `k` iterate calls. */
  ghost function From(scan: Flat, k: nat): Flat {
    scan.(rows := if k <= |scan.rows| then scan.rows[k..] else [])
  }

  lemma {:induction false} AdvancedFrom(scan: Flat, k: nat)
    ensures Advanced(From(scan, k)) == From(scan, k + 1)
  {
  }

  /** What an iterate call returns after `n` other calls: row `k` of the current scan, where `k`
      calls have been made since it started, and behind the last row an empty slot or the error
      that the stream runs into. */
  ghost function Expected(t: Table, first: Flat, ops: seq<Op>, n: nat): Out
    requires n <= |ops| && ReadableOps(ops) && |t.columns| == |t.attrs|
  {
    var current, k := Started(first, ops, n), SinceStart(ops, n);
    if k >= |current.rows| then (if current.broken then StreamError else EmptySlot)
    else match Slot(t, current.rows[k])
      case Ok(cells) => Row(cells)
      case Err(kind) => ConvertError(kind)
  }

  ghost predicate AsExpected(t: Table, first: Flat, ops: seq<Op>, i: nat, out: Option<Out>)
    requires i < |ops| && ReadableOps(ops) && |t.columns| == |t.attrs|
  {
    out == if ops[i].DoIterate? then Some(Expected(t, first, ops, i)) else None
  }

  /** After `i` calls the cursor has what is left of the scan last started. */
  ghost predicate InStep(s: State, first: Flat, ops: seq<Op>, i: nat)
    requires i <= |ops| && ReadableOps(ops)
    reads s
  {
    s.Valid() && s.Rest() == From(Started(first, ops, i), SinceStart(ops, i))
  }

  const READ_ERROR: Option<Out> := Some(StreamError)

  /** One call. */
  method Perform(s: State, ops: seq<Op>, i: nat, ghost first: Flat) returns (out: Option<Out>)
    requires i < |ops| && ReadableOps(ops) && InStep(s, first, ops, i)
    modifies s
    ensures s.Valid() && AsExpected(s.table, first, ops, i, out)
    ensures out != READ_ERROR ==> InStep(s, first, ops, i + 1)
  {
    if ops[i].DoIterate? {
      AdvancedFrom(Started(first, ops, i), SinceStart(ops, i));
      var r := s.Iterate();
      out := Some(r);
    } else {
      s.Rescan(ops[i].stream);
      out := None;
    }
  }

  /** Any sequence of iterate and rescan calls on a cursor. A read error ends the query, and only that
      leaves calls unanswered. */
  method Replay(s: State, ops: seq<Op>) returns (outs: seq<Option<Out>>)
    requires s.Valid() && ReadableOps(ops)
    modifies s
    ensures |outs| <= |ops|
    ensures forall i | 0 <= i < |outs| :: AsExpected(s.table, old(s.Rest()), ops, i, outs[i])
    ensures forall i | 0 <= i < |outs| - 1 :: outs[i] != READ_ERROR
    ensures |outs| < |ops| ==> outs != [] && outs[|outs| - 1] == READ_ERROR
  {
    outs := ReplayFrom(s, ops, s.Rest());
  }

  method ReplayFrom(s: State, ops: seq<Op>, ghost first: Flat) returns (outs: seq<Option<Out>>)
    requires ReadableOps(ops) && InStep(s, first, ops, 0)
    modifies s
    ensures |outs| <= |ops|
    ensures forall i | 0 <= i < |outs| :: AsExpected(s.table, first, ops, i, outs[i])
    ensures forall i | 0 <= i < |outs| - 1 :: outs[i] != READ_ERROR
    ensures |outs| < |ops| ==> outs != [] && outs[|outs| - 1] == READ_ERROR
  {
    outs := [];
    for i := 0 to |ops|
      invariant InStep(s, first, ops, i)
      invariant |outs| == i
      invariant forall j | 0 <= j < i :: AsExpected(s.table, first, ops, j, outs[j])
      invariant forall j | 0 <= j < i :: outs[j] != READ_ERROR
    {
      var out := Perform(s, ops, i, first);
      outs := outs + [out];
      if out == READ_ERROR {
        return;
      }
    }
  }

  // ----- no type errors -----

  ghost predicate WellTypedRow(fields: seq<Field>, row: ArrowRow)
  {
    |row| == |fields| && forall j | 0 <= j < |fields| :: JsonMeaning.WellTyped(row[j], fields[j].dataType)
  }

  /** After the checks at the start of a scan no row fails for its type, and what a row shows has
      the types of the foreign table. */
  lemma {:induction false} ScansNeverMismatch(t: Table, row: ArrowRow, n: nat)
    requires n <= |t.attrs| && Begins(t.fields, t.attrs, |t.attrs|) && t.columns == AttToBatchCol(t.fields, t.attrs)
    requires WellTypedRow(t.fields, row)
    ensures var r := Cells(t, row, n);
            && JsonMeaning.NotATypeError(r)
            && (r.Ok? ==> forall i | 0 <= i < n && !t.attrs[i].dropped ::
              TypeSafety.HasType(t.lim, r.value[i], t.attrs[i].typ))
    decreases n
  {
    if n > 0 {
      ScansNeverMismatch(t, row, n - 1);
      var a := t.attrs[n - 1];
      if !a.dropped {
        var idx := LastField(t.fields, a.name).value;
        TypeSafety.ConversionIsSound(t.lim, t.fields[idx].dataType, row[idx], a.typ);
      }
    }
  }

  /** The column that attribute `i` shows can be read. */
  ghost predicate ColumnReads(t: Table, row: ArrowRow, i: nat)
    requires i < |t.attrs| && |row| == |t.fields|
  {
    t.attrs[i].dropped ||
    var f := LastField(t.fields, t.attrs[i].name);
    f.Some? && Readability.Readable(t.lim, t.fields[f.value].dataType, row[f.value], t.attrs[i].typ)
  }

  /** Cell `i` is null for a dropped attribute, and else denotes the value of the last field of its name. */
  ghost predicate CellShows(t: Table, row: ArrowRow, i: nat, c: Cell)
    requires i < |t.attrs| && |row| == |t.fields|
  {
    if t.attrs[i].dropped then c == NullCell
    else
      var f := LastField(t.fields, t.attrs[i].name);
      f.Some? && TypeSafety.Denotes(t.fields[f.value].dataType, row[f.value], c)
  }

  /** What the first `n` attributes show. */
  ghost predicate CellsShow(t: Table, row: ArrowRow, n: nat, r: Result<seq<Cell>, ErrorKind>)
    requires n <= |t.attrs| && |row| == |t.fields|
  {
    && (r.Ok? <==> forall i | 0 <= i < n :: ColumnReads(t, row, i))
    && (r.Ok? ==> |r.value| == n && forall i | 0 <= i < n :: CellShows(t, row, i, r.value[i]))
  }

  /** A row that passed the checks at the start of the scan is shown exactly if every live column can be
      read, and then attribute by attribute. */
  lemma {:induction false} RowShowsIff(t: Table, row: ArrowRow, n: nat)
    requires n <= |t.attrs| && Begins(t.fields, t.attrs, |t.attrs|) && t.columns == AttToBatchCol(t.fields, t.attrs)
    requires WellTypedRow(t.fields, row)
    ensures CellsShow(t, row, n, Cells(t, row, n))
    decreases n
  {
    if n > 0 {
      RowShowsIff(t, row, n - 1);
      var a := t.attrs[n - 1];
      if !a.dropped {
        var f := LastField(t.fields, a.name).value;
        ColumnShows(t, row, n - 1);
        OneMoreCell(t, row, n, Cells(t, row, n - 1), ToCell(t.lim, t.fields[f].dataType, row[f], a.typ));
      }
    }
  }

  lemma {:induction false} ColumnShows(t: Table, row: ArrowRow, i: nat)
    requires i < |t.attrs| && Begins(t.fields, t.attrs, |t.attrs|) && WellTypedRow(t.fields, row)
    requires !t.attrs[i].dropped
    ensures var f := LastField(t.fields, t.attrs[i].name);
            && f.Some?
            && var c := ToCell(t.lim, t.fields[f.value].dataType, row[f.value], t.attrs[i].typ);
               (c.Ok? <==> ColumnReads(t, row, i)) && (c.Ok? ==> CellShows(t, row, i, c.value))
  {
    var a := t.attrs[i];
    var f := LastField(t.fields, a.name).value;
    TypeSafety.AcceptedIsConvertible(t.fields[f].dataType, a.typ);
    TypeSafety.ConversionIsSound(t.lim, t.fields[f].dataType, row[f], a.typ);
    Readability.ReadsIff(t.lim, t.fields[f].dataType, row[f], a.typ);
  }

  lemma {:induction false} OneMoreCell(t: Table, row: ArrowRow, n: nat, before: Result<seq<Cell>, ErrorKind>,
                                       c: Result<Cell, ErrorKind>)
    requires 0 < n <= |t.attrs| && |row| == |t.fields| && CellsShow(t, row, n - 1, before)
    requires (c.Ok? <==> ColumnReads(t, row, n - 1)) && (c.Ok? ==> CellShows(t, row, n - 1, c.value))
    ensures CellsShow(t, row, n, if before.Err? then before
                                 else if c.Ok? then Ok(before.value + [c.value]) else Err(c.error))
  {
  }

  // ----- reading back what was written -----

  /** No column is overridden to a type that loses its values. */
  ghost predicate KeepingTypes(cols: seq<WriteTypes.Column>)
  {
    forall c | 0 <= c < |cols| ::
      WriteTypes.Buildable(cols[c].arrowType) && WriteTypes.Keeps(cols[c].arrowType, cols[c].oid)
  }

  ghost predicate DistinctNames(cols: seq<WriteTypes.Column>)
  {
    forall c, d | 0 <= c < d < |cols| :: cols[c].name != cols[d].name
  }

  /** The schema of the dataset that a write creates. */
  function FieldsOf(cols: seq<WriteTypes.Column>): seq<Field> {
    seq(|cols|, c requires 0 <= c < |cols| => Field(cols[c].name, Prim(cols[c].arrowType)))
  }

  /** The foreign table imported for it. */
  function AttrsOf(cols: seq<WriteTypes.Column>): seq<Attribute> {
    seq(|cols|, c requires 0 <= c < |cols| => Attribute(cols[c].name, Base(RequiredBase(cols[c].arrowType)), false))
  }

  function TableOf(lim: Limits, cols: seq<WriteTypes.Column>): Table {
    Table(lim, FieldsOf(cols), AttrsOf(cols), AttToBatchCol(FieldsOf(cols), AttrsOf(cols)))
  }

  ghost predicate ReadableRow(lim: Limits, cols: seq<WriteTypes.Column>, row: PgRow)
  {
    && |row| == |cols|
    && forall c | 0 <= c < |cols| ::
      WriteTypes.HasType(cols[c].oid, row[c]) && WriteTypes.InRange(lim, cols[c].arrowType, row[c])
  }

  function ShownRow(cols: seq<WriteTypes.Column>, row: PgRow): seq<Cell>
    requires |cols| == |row|
  {
    seq(|cols|, c requires 0 <= c < |cols| => WriteTypes.Shown(cols[c].arrowType, row[c]))
  }

  lemma {:induction false} OwnField(cols: seq<WriteTypes.Column>, c: nat)
    requires DistinctNames(cols) && c < |cols|
    ensures LastField(FieldsOf(cols), cols[c].name) == Some(c)
  {
    var f := LastField(FieldsOf(cols), cols[c].name);
    assert FieldsOf(cols)[c].name == cols[c].name;
    assert f.Some? && FieldsOf(cols)[f.value].name == cols[f.value].name;
  }

  /** The imported table passes the checks at the start of its scans. */
  lemma {:induction false} WrittenTablesBegin(cols: seq<WriteTypes.Column>)
    requires DistinctNames(cols)
    ensures Begins(FieldsOf(cols), AttrsOf(cols), |AttrsOf(cols)|)
  {
    forall c | 0 <= c < |cols| ensures LastField(FieldsOf(cols), AttrsOf(cols)[c].name) == Some(c) {
      OwnField(cols, c);
    }
  }

  /** Cell `c` is converted from column `c`. */
  ghost predicate CellIs(t: Table, row: ArrowRow, c: nat, cell: Cell)
    requires c < |t.attrs| == |t.columns|
  {
    && !t.attrs[c].dropped && t.columns[c] == Some(c) && c < |row| && c < |t.fields|
    && ToCell(t.lim, t.fields[c].dataType, row[c], t.attrs[c].typ) == Ok(cell)
  }

  lemma {:induction false} AllCells(t: Table, row: ArrowRow, cells: seq<Cell>, n: nat)
    requires n <= |cells| == |t.attrs| == |t.columns|
    requires forall c | 0 <= c < n :: CellIs(t, row, c, cells[c])
    ensures Cells(t, row, n) == Ok(cells[..n])
    decreases n
  {
    if n > 0 {
      AllCells(t, row, cells, n - 1);
      assert CellIs(t, row, n - 1, cells[n - 1]);
      assert cells[..n] == cells[..n - 1] + [cells[n - 1]];
    }
  }

  lemma {:induction false} CellReadsBack(lim: Limits, cols: seq<WriteTypes.Column>, row: PgRow, c: nat)
    requires KeepingTypes(cols) && DistinctNames(cols) && ReadableRow(lim, cols, row) && c < |cols|
    ensures CellIs(TableOf(lim, cols), ConvertRow(cols, row), c, WriteTypes.Shown(cols[c].arrowType, row[c]))
  {
    OwnField(cols, c);
    WriteTypes.WrittenValuesReadBack(lim, cols[c].arrowType, cols[c].oid, row[c]);
  }

  /** A written row is shown with the values it was written from. */
  lemma {:induction false} WrittenRowReadsBack(lim: Limits, cols: seq<WriteTypes.Column>, row: PgRow)
    requires KeepingTypes(cols) && DistinctNames(cols) && ReadableRow(lim, cols, row)
    ensures Slot(TableOf(lim, cols), ConvertRow(cols, row)) == Ok(ShownRow(cols, row))
  {
    var t, r, cells := TableOf(lim, cols), ConvertRow(cols, row), ShownRow(cols, row);
    forall c | 0 <= c < |cells| ensures CellIs(t, r, c, cells[c]) {
      CellReadsBack(lim, cols, row, c);
    }
    AllCells(t, r, cells, |cells|);
    assert cells[..|cells|] == cells;
  }

  /** From query to query: row `k` of a scan over a dataset that holds rows of a source, in any
      batches, shows row `k` of the source. */
  lemma {:induction false} WrittenSourceScansBack(lim: Limits, source: Source, config: Config,
                                                  cols: seq<WriteTypes.Column>, stream: Items, k: nat)
    requires WellFormed(source) && Columns(source, config) == Some(cols)
    requires Readable(stream) && FlatOf(stream).rows <= SourceRows(source, config) && k < |FlatOf(stream).rows|
    requires KeepingTypes(cols) && DistinctNames(cols) && ReadableRow(lim, cols, source.rows[k])
    ensures OutOf(TableOf(lim, cols), From(FlatOf(stream), k)) == Row(ShownRow(cols, source.rows[k]))
  {
    WrittenRowReadsBack(lim, cols, source.rows[k]);
    assert SourceRows(source, config)[k] == ConvertRow(cols, source.rows[k]);
    assert FlatOf(stream).rows[k] == SourceRows(source, config)[k];
  }
}
