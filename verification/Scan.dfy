/** The scan cursor (src/fdw/scan.rs:210-291, 301-451). */
module Scan {
  import opened Wrappers
  import opened Arrow
  import opened Convert
  import opened Streaming

  // ----- begin_foreign_scan: attributes and batch columns -----

  datatype BeginError = ColumnNotFound | Rejected(kind: ErrorKind)

  /** The last field of the given name: later insertions into the source's map win. */
  function LastField(fields: seq<Field>, name: string): (r: Option<nat>)
    ensures r.Some? ==> r.value < |fields| && fields[r.value].name == name
                        && forall j | r.value < j < |fields| :: fields[j].name != name
    ensures r.None? ==> forall j | 0 <= j < |fields| :: fields[j].name != name
    decreases |fields|
  {
    if fields == [] then None
    else if fields[|fields| - 1].name == name then Some(|fields| - 1)
    else LastField(fields[..|fields| - 1], name)
  }

  method NameIndex(fields: seq<Field>) returns (nameToIdx: map<string, nat>)
    ensures forall name :: name in nameToIdx <==> LastField(fields, name).Some?
    ensures forall name | name in nameToIdx :: LastField(fields, name) == Some(nameToIdx[name])
  {
    nameToIdx := map[];
    for i := 0 to |fields|
      invariant forall name :: name in nameToIdx <==> LastField(fields[..i], name).Some?
      invariant forall name | name in nameToIdx :: LastField(fields[..i], name) == Some(nameToIdx[name])
    {
      nameToIdx := nameToIdx[fields[i].name := i];
      assert fields[..i + 1][..i] == fields[..i];
    }
    assert fields[..|fields|] == fields;
  }

  type ColumnMap = seq<Option<nat>>

  /** What the attribute loop accepts: live attributes name a field and pass validation. */
  ghost predicate Begins(fields: seq<Field>, attrs: seq<Attribute>, n: nat)
    requires n <= |attrs|
  {
    forall i | 0 <= i < n && !attrs[i].dropped ::
      var f := LastField(fields, attrs[i].name); f.Some? && Validate(fields[f.value].dataType, attrs[i].typ).Ok?
  }

  function AttToBatchCol(fields: seq<Field>, attrs: seq<Attribute>): ColumnMap {
    seq(|attrs|, i requires 0 <= i < |attrs| => if attrs[i].dropped then None else LastField(fields, attrs[i].name))
  }

  method MapColumns(fields: seq<Field>, attrs: seq<Attribute>) returns (r: Result<ColumnMap, BeginError>)
    ensures r.Ok? <==> Begins(fields, attrs, |attrs|)
    ensures r.Ok? ==> r.value == AttToBatchCol(fields, attrs)
  {
    var nameToIdx := NameIndex(fields);
    var columns: ColumnMap := [];
    for i := 0 to |attrs|
      invariant Begins(fields, attrs, i)
      invariant columns == AttToBatchCol(fields, attrs)[..i]
    {
      if attrs[i].dropped {
        columns := columns + [None];
        continue;
      }
      if attrs[i].name !in nameToIdx {
        return Err(ColumnNotFound);
      }
      var idx := nameToIdx[attrs[i].name];
      var valid := Validate(fields[idx].dataType, attrs[i].typ);
      if valid.Err? {
        return Err(Rejected(valid.error));
      }
      columns := columns + [Some(idx)];
    }
    r := Ok(columns);
  }

  // ----- filling a slot -----

  datatype Table = Table(lim: Limits, fields: seq<Field>, attrs: seq<Attribute>, columns: ColumnMap)

  /** The cells of the first `n` attributes, or the first conversion error. */
  function Cells(t: Table, row: ArrowRow, n: nat): (r: Result<seq<Cell>, ErrorKind>)
    requires n <= |t.attrs| && |t.columns| == |t.attrs|
    ensures r.Ok? ==> |r.value| == n
  {
    if n == 0 then Ok([])
    else
      var before, a, idx := Cells(t, row, n - 1), t.attrs[n - 1], t.columns[n - 1];
      if before.Err? then before
      else if a.dropped then Ok(before.value + [NullCell])
      else if idx.None? || idx.value >= |row| || idx.value >= |t.fields| then Err(Internal)
      else
        var c := ToCell(t.lim, t.fields[idx.value].dataType, row[idx.value], a.typ);
        if c.Ok? then Ok(before.value + [c.value]) else Err(c.error)
  }

  function Slot(t: Table, row: ArrowRow): Result<seq<Cell>, ErrorKind>
    requires |t.columns| == |t.attrs|
  {
    Cells(t, row, |t.attrs|)
  }

  lemma {:induction false} CellsErrorStays(t: Table, row: ArrowRow, i: nat, n: nat)
    requires i <= n <= |t.attrs| == |t.columns| && Cells(t, row, i).Err?
    ensures Cells(t, row, n) == Cells(t, row, i)
    decreases n
  {
    if i < n {
      CellsErrorStays(t, row, i, n - 1);
    }
  }

  // ----- the rows a stream holds -----

  type Items = seq<Result<Batch, string>>

  ghost predicate Readable(stream: Items)
  {
    forall i | 0 <= i < |stream| && stream[i].Ok? :: InLockstep(stream[i].value)
  }

  /** The rows before the first error of a stream, and whether there is an error. */
  datatype Flat = Flat(rows: seq<ArrowRow>, broken: bool)

  ghost function FlatOf(stream: Items): Flat
    requires Readable(stream)
  {
    if stream == [] then Flat([], false)
    else if stream[0].Err? then Flat([], true)
    else
      var rest := FlatOf(stream[1..]);
      Flat(RowsOf(stream[0].value) + rest.rows, rest.broken)
  }

  datatype Out = Row(cells: seq<Cell>) | EmptySlot | StreamError | ConvertError(kind: ErrorKind)

  /** What one call returns when `flat` is still to come. */
  ghost function OutOf(t: Table, flat: Flat): Out
    requires |t.columns| == |t.attrs|
  {
    if flat.rows == [] then (if flat.broken then StreamError else EmptySlot)
    else match Slot(t, flat.rows[0])
      case Ok(cells) => Row(cells)
      case Err(kind) => ConvertError(kind)
  }

  ghost function Advanced(flat: Flat): Flat {
    if flat.rows == [] then flat else flat.(rows := flat.rows[1..])
  }

  class State {
    const table: Table
    var stream: Items
    var currentBatch: Option<Batch>
    var currentRow: nat

    ghost predicate Valid()
      reads this
    {
      && |table.columns| == |table.attrs|
      && Readable(stream)
      && (currentBatch.Some? ==> InLockstep(currentBatch.value) && currentRow <= currentBatch.value.numRows)
    }

    /** The rows still to come. */
    ghost function Rest(): Flat
      requires Valid()
      reads this
    {
      var after := FlatOf(stream);
      if currentBatch.None? then after
      else after.(rows := RowsOf(currentBatch.value)[currentRow..] + after.rows)
    }

    constructor (table: Table, stream: Items)
      requires |table.columns| == |table.attrs| && Readable(stream)
      ensures Valid() && this.table == table && Rest() == FlatOf(stream)
    {
      this.table := table;
      this.stream := stream;
      currentBatch := None;
      currentRow := 0;
    }

    predicate NeedsBatch()
      reads this
    {
      currentBatch.None? || currentRow >= currentBatch.value.numRows
    }

    /** Takes the next batch; the result is what to return when there is none. */
    method NextBatch() returns (ended: Option<Out>)
      requires Valid() && NeedsBatch()
      modifies this
      ensures Valid()
      ensures ended.Some? ==>
              old(Rest()).rows == [] && ended.value == if old(Rest()).broken then StreamError else EmptySlot
      ensures ended == Some(EmptySlot) || ended.None? ==> Rest() == old(Rest())
      ensures ended.None? ==> |stream| < old(|stream|) && currentBatch.Some?
    {
      if stream == [] {
        return Some(EmptySlot);
      }
      var next := stream[0];
      stream := stream[1..];
      if next.Err? {
        return Some(StreamError);
      }
      currentBatch := Some(next.value);
      currentRow := 0;
      assert RowsOf(next.value)[0..] == RowsOf(next.value);
      return None;
    }

    /** `iterate_foreign_scan`: the next row, whatever batches it takes to get to it. */
    method Iterate() returns (out: Out)
      requires Valid()
      modifies this
      ensures Valid()
      ensures out == OutOf(table, old(Rest()))
      ensures old(Rest()).rows != [] || !old(Rest()).broken ==> Rest() == Advanced(old(Rest()))
    {
      while true
        invariant Valid() && Rest() == old(Rest())
        decreases |stream|, if currentBatch.Some? then 1 else 0
      {
        if NeedsBatch() {
          var ended := NextBatch();
          if ended.Some? {
            return ended.value;
          }
        }
        if currentRow >= currentBatch.value.numRows {
          ForgetBatch();
          continue;
        }
        out := TakeRow();
        return;
      }
    }

    /** An exhausted batch is let go. */
    method ForgetBatch()
      requires Valid() && currentBatch.Some? && NeedsBatch()
      modifies this
      ensures Valid() && Rest() == old(Rest()) && stream == old(stream) && currentBatch.None?
    {
      currentBatch := None;
    }

    /** The current row of the current batch. */
    method TakeRow() returns (out: Out)
      requires Valid() && !NeedsBatch()
      modifies this
      ensures Valid() && Rest() == Advanced(old(Rest()))
      ensures old(Rest()).rows != [] && out == OutOf(table, old(Rest()))
    {
      var batch, row := currentBatch.value, currentRow;
      currentRow := currentRow + 1;
      out := FillSlot(batch, row);
    }

    /** The attribute loop for one row of a batch. */
    method FillSlot(batch: Batch, row: nat) returns (out: Out)
      requires |table.columns| == |table.attrs| && InLockstep(batch) && row < batch.numRows
      ensures out == match Slot(table, RowsOf(batch)[row])
                     case Ok(cells) => Row(cells)
                     case Err(kind) => ConvertError(kind)
    {
      ghost var values := RowsOf(batch)[row];
      var cells: seq<Cell> := [];
      for i := 0 to |table.attrs|
        invariant Cells(table, values, i) == Ok(cells)
      {
        if table.attrs[i].dropped {
          cells := cells + [NullCell];
          continue;
        }
        var idx := table.columns[i];
        if idx.None? || idx.value >= |batch.columns| || idx.value >= |table.fields| {
          CellsErrorStays(table, values, i + 1, |table.attrs|);
          return ConvertError(Internal);
        }
        assert values[idx.value] == batch.columns[idx.value][row];
        var c := ToCell(table.lim, table.fields[idx.value].dataType, batch.columns[idx.value][row], table.attrs[i].typ);
        if c.Err? {
          CellsErrorStays(table, values, i + 1, |table.attrs|);
          return ConvertError(c.error);
        }
        cells := cells + [c.value];
      }
      return Row(cells);
    }

    /** `rescan_foreign_scan`: start over with a fresh stream. */
    method Rescan(newStream: Items)
      requires Valid() && Readable(newStream)
      modifies this
      ensures Valid() && Rest() == FlatOf(newStream)
    {
      stream := newStream;
      currentBatch := None;
      currentRow := 0;
    }
  }
}
