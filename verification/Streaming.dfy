/** Streaming a source query in chunks of record batches (src/write/pg_to_arrow.rs:399-571). */
module Streaming {
  import opened Wrappers
  import opened Convert
  import opened WriteTypes
  import opened Pieces

  type PgRow = seq<Datum>
  type ArrowRow = seq<Value>

  /** A record batch holds its columns. */
  datatype Batch = Batch(columns: seq<seq<Value>>, numRows: nat)

  /** All columns have as many values as the batch has rows. */
  ghost predicate InLockstep(b: Batch)
  {
    forall c | 0 <= c < |b.columns| :: |b.columns[c]| == b.numRows
  }

  function RowsOf(b: Batch): seq<ArrowRow>
    requires InLockstep(b)
  {
    seq(b.numRows, r requires 0 <= r < b.numRows =>
      seq(|b.columns|, c requires 0 <= c < |b.columns| => b.columns[c][r]))
  }

  ghost predicate Shaped(cols: seq<Column>, rows: seq<PgRow>)
  {
    forall r | 0 <= r < |rows| :: |rows[r]| == |cols|
  }

  /** What a source row becomes. */
  function ConvertRow(cols: seq<Column>, row: PgRow): ArrowRow
    requires |row| == |cols|
  {
    seq(|cols|, c requires 0 <= c < |cols| => AppendDatum(cols[c].arrowType, cols[c].oid, row[c]))
  }

  function ConvertRows(cols: seq<Column>, rows: seq<PgRow>): seq<ArrowRow>
    requires Shaped(cols, rows)
  {
    seq(|rows|, r requires 0 <= r < |rows| => ConvertRow(cols, rows[r]))
  }

  function ColumnOf(cols: seq<Column>, c: nat, rows: seq<PgRow>): seq<Value>
    requires Shaped(cols, rows) && c < |cols|
  {
    seq(|rows|, r requires 0 <= r < |rows| => AppendDatum(cols[c].arrowType, cols[c].oid, rows[r][c]))
  }

  function BatchOf(cols: seq<Column>, rows: seq<PgRow>): (b: Batch)
    requires Shaped(cols, rows)
  {
    Batch(seq(|cols|, c requires 0 <= c < |cols| => ColumnOf(cols, c, rows)), |rows|)
  }

  /** Column-wise building and row-wise conversion agree. */
  lemma {:induction false} BatchHoldsRows(cols: seq<Column>, rows: seq<PgRow>)
    requires Shaped(cols, rows)
    ensures InLockstep(BatchOf(cols, rows)) && RowsOf(BatchOf(cols, rows)) == ConvertRows(cols, rows)
  {
    var b := BatchOf(cols, rows);
    forall r | 0 <= r < |rows| ensures RowsOf(b)[r] == ConvertRow(cols, rows[r]) {
      forall c | 0 <= c < |cols| ensures RowsOf(b)[r][c] == ConvertRow(cols, rows[r])[c] {
        assert b.columns[c] == ColumnOf(cols, c, rows);
      }
    }
  }

  /** The batches of one chunk. */
  function Batches(cols: seq<Column>, rows: seq<PgRow>, n: nat): seq<Batch>
    requires n > 0 && Shaped(cols, rows)
    decreases |rows|
  {
    if rows == [] then []
    else if |rows| <= n then [BatchOf(cols, rows)]
    else [BatchOf(cols, rows[..n])] + Batches(cols, rows[n..], n)
  }

  type Sizer = Batch -> nat

  /** The memory that batches take. */
  function Total(size: Sizer, batches: seq<Batch>): nat {
    if batches == [] then 0 else Total(size, batches[..|batches| - 1]) + size(batches[|batches| - 1])
  }

  predicate Fits(limit: nat, size: Sizer, batches: seq<Batch>) {
    limit == 0 || Total(size, batches) <= limit
  }

  lemma {:induction false} TotalSnoc(size: Sizer, batches: seq<Batch>, b: Batch)
    ensures Total(size, batches + [b]) == Total(size, batches) + size(b)
  {
    assert (batches + [b])[..|batches|] == batches;
  }

  lemma {:induction false} TotalGrows(size: Sizer, a: seq<Batch>, b: seq<Batch>)
    ensures Total(size, a + b) >= Total(size, a)
    decreases |b|
  {
    if b == [] {
      assert a + b == a;
    } else {
      TotalGrows(size, a, b[..|b| - 1]);
      assert a + b == (a + b[..|b| - 1]) + [b[|b| - 1]];
      TotalSnoc(size, a + b[..|b| - 1], b[|b| - 1]);
    }
  }

  // ----- convert_spi_rows -----

  /** The builders hold, column by column, the values of `rows`. */
  ghost predicate Built(cols: seq<Column>, rows: seq<PgRow>, builders: seq<seq<Value>>)
    requires Shaped(cols, rows)
  {
    |builders| == |cols| && forall c | 0 <= c < |cols| :: builders[c] == ColumnOf(cols, c, rows)
  }

  /** Appends row `i` to builders that hold the rows from `start` on. */
  method AppendRow(cols: seq<Column>, rows: seq<PgRow>, ghost start: nat, i: nat, builders0: seq<seq<Value>>)
    returns (builders: seq<seq<Value>>)
    requires Shaped(cols, rows) && start <= i < |rows| && Built(cols, rows[start..i], builders0)
    ensures Built(cols, rows[start..i + 1], builders)
  {
    builders := builders0;
    var row := rows[i];
    for c := 0 to |cols|
      invariant |builders| == |cols|
      invariant forall k | 0 <= k < |cols| ::
                builders[k] == ColumnOf(cols, k, if k < c then rows[start..i + 1] else rows[start..i])
    {
      builders := builders[c := builders[c] + [AppendDatum(cols[c].arrowType, cols[c].oid, row[c])]];
      assert builders[c] == ColumnOf(cols, c, rows[start..i + 1]);
    }
  }

  function EmptyBuilders(cols: seq<Column>): seq<seq<Value>> {
    seq(|cols|, c => [])
  }

  lemma {:induction false} NothingBuilt(cols: seq<Column>)
    ensures Built(cols, [], EmptyBuilders(cols))
  {
    forall c | 0 <= c < |cols| ensures ColumnOf(cols, c, []) == [] {
    }
  }

  /** `batches` are the full batches of `rows[..start]`; the builders hold `rows[start..i]`. */
  ghost predicate Filling(cols: seq<Column>, rows: seq<PgRow>, n: nat, start: nat, i: nat, batches: seq<Batch>,
                          builders: seq<seq<Value>>)
    requires n > 0 && Shaped(cols, rows)
  {
    && start <= i <= |rows| && i - start < n
    && Built(cols, rows[start..i], builders)
    && Batches(cols, rows, n) == batches + Batches(cols, rows[start..], n)
  }

  /** `bytes` is what `batches` take, within the limit. */
  ghost predicate Buffered(limit: nat, size: Sizer, batches: seq<Batch>, bytes: nat)
  {
    bytes == Total(size, batches) && Fits(limit, size, batches)
  }

  lemma {:induction false} ExceedsForGood(limit: nat, size: Sizer, batches: seq<Batch>, batch: Batch, rest: seq<Batch>)
    requires 0 < limit < Total(size, batches) + size(batch)
    ensures !Fits(limit, size, batches + [batch] + rest)
  {
    TotalSnoc(size, batches, batch);
    TotalGrows(size, batches + [batch], rest);
  }

  /** Accepts a finished batch, unless the buffer grows beyond its limit. */
  method PushBatch(limit: nat, size: Sizer, batches: seq<Batch>, bufferedBytes: nat, batch: Batch,
                   ghost rest: seq<Batch>)
    returns (r: Result<(seq<Batch>, nat), string>)
    requires Buffered(limit, size, batches, bufferedBytes)
    ensures r.Ok? ==> r.value.0 == batches + [batch] && Buffered(limit, size, r.value.0, r.value.1)
    ensures r.Err? ==> !Fits(limit, size, batches + [batch] + rest)
  {
    var buffered := bufferedBytes + size(batch);
    if limit > 0 && buffered > limit {
      ExceedsForGood(limit, size, batches, batch, rest);
      return Err("source chunk exceeds lance.max_write_buffer_mb limit");
    }
    TotalSnoc(size, batches, batch);
    r := Ok((batches + [batch], buffered));
  }

  /** Accepts the batch in the builders once it is full. */
  method PushFull(limit: nat, size: Sizer, batches: seq<Batch>, bufferedBytes: nat, builders: seq<seq<Value>>,
                  cols: seq<Column>, n: nat, ghost rows: seq<PgRow>, ghost start: nat)
    returns (r: Result<(seq<Batch>, nat), string>)
    requires n > 0 && Shaped(cols, rows) && start + n <= |rows|
    requires Batches(cols, rows, n) == batches + Batches(cols, rows[start..], n)
    requires Built(cols, rows[start..start + n], builders) && Buffered(limit, size, batches, bufferedBytes)
    ensures r.Ok? ==>
              && Filling(cols, rows, n, start + n, start + n, r.value.0, EmptyBuilders(cols))
              && Buffered(limit, size, r.value.0, r.value.1)
    ensures r.Err? ==> !Fits(limit, size, Batches(cols, rows, n))
  {
    FullBatch(cols, rows, n, batches, start);
    assert builders == BatchOf(cols, rows[start..start + n]).columns;
    r := PushBatch(limit, size, batches, bufferedBytes, Batch(builders, n), Batches(cols, rows[start + n..], n));
  }

  /** Accepts the rows behind the last full batch, if any. */
  method PushRest(limit: nat, size: Sizer, batches: seq<Batch>, bufferedBytes: nat, builders: seq<seq<Value>>,
                  rowsInBatch: nat, ghost cols: seq<Column>, ghost n: nat, ghost rows: seq<PgRow>)
    returns (r: Result<seq<Batch>, string>)
    requires n > 0 && Shaped(cols, rows) && rowsInBatch <= |rows| && Buffered(limit, size, batches, bufferedBytes)
    requires Filling(cols, rows, n, |rows| - rowsInBatch, |rows|, batches, builders)
    ensures r.Ok? <==> Fits(limit, size, Batches(cols, rows, n))
    ensures r.Ok? ==> r.value == Batches(cols, rows, n)
  {
    LastBatch(cols, rows, n, |rows| - rowsInBatch, batches, builders);
    if rowsInBatch == 0 {
      return Ok(batches);
    }
    var batch := Batch(builders, rowsInBatch);
    assert batches + [batch] + [] == batches + [batch];
    var pushed :- PushBatch(limit, size, batches, bufferedBytes, batch, []);
    r := Ok(pushed.0);
  }

  /** A chunk becomes its batches, unless they exceed the buffer limit; every row counts. */
  method ConvertSpiRows(rows: seq<PgRow>, cols: seq<Column>, batchSize: nat, limit: nat, size: Sizer)
    returns (r: Result<(seq<Batch>, nat), string>)
    requires batchSize > 0 && Shaped(cols, rows)
    ensures r.Ok? <==> Fits(limit, size, Batches(cols, rows, batchSize))
    ensures r.Ok? ==> r.value == (Batches(cols, rows, batchSize), |rows|)
  {
    var bufferedBytes := 0;
    var batches: seq<Batch> := [];
    var totalRows := 0;
    var builders := EmptyBuilders(cols);
    var rowsInBatch := 0;
    ghost var start := 0;
    FillingStarts(cols, rows, batchSize);
    for i := 0 to |rows|
      invariant totalRows == i && start + rowsInBatch == i
      invariant Filling(cols, rows, batchSize, start, i, batches, builders)
      invariant Buffered(limit, size, batches, bufferedBytes)
    {
      builders := AppendRow(cols, rows, start, i, builders);
      rowsInBatch := rowsInBatch + 1;
      totalRows := totalRows + 1;
      if rowsInBatch >= batchSize {
        var pushed :- PushFull(limit, size, batches, bufferedBytes, builders, cols, rowsInBatch, rows, start);
        batches, bufferedBytes := pushed.0, pushed.1;
        builders := EmptyBuilders(cols);
        start, rowsInBatch := i + 1, 0;
      } else {
        StillFilling(cols, rows, batchSize, start, i, batches, builders);
      }
    }
    var all :- PushRest(limit, size, batches, bufferedBytes, builders, rowsInBatch, cols, batchSize, rows);
    r := Ok((all, totalRows));
  }

  lemma {:induction false} FillingStarts(cols: seq<Column>, rows: seq<PgRow>, n: nat)
    requires n > 0 && Shaped(cols, rows)
    ensures Filling(cols, rows, n, 0, 0, [], EmptyBuilders(cols))
  {
    NothingBuilt(cols);
    assert rows[0..] == rows && rows[0..0] == [];
    assert [] + Batches(cols, rows, n) == Batches(cols, rows, n);
  }

  lemma {:induction false} StillFilling(cols: seq<Column>, rows: seq<PgRow>, n: nat, start: nat, i: nat,
                                        batches: seq<Batch>, builders: seq<seq<Value>>)
    requires n > 0 && Shaped(cols, rows) && start <= i < |rows| && i + 1 - start < n
    requires Batches(cols, rows, n) == batches + Batches(cols, rows[start..], n)
    requires Built(cols, rows[start..i + 1], builders)
    ensures Filling(cols, rows, n, start, i + 1, batches, builders)
  {
  }

  lemma {:induction false} FullBatch(cols: seq<Column>, rows: seq<PgRow>, n: nat, batches: seq<Batch>, start: nat)
    requires n > 0 && Shaped(cols, rows) && start + n <= |rows|
    requires Batches(cols, rows, n) == batches + Batches(cols, rows[start..], n)
    ensures Batches(cols, rows, n) ==
            batches + [BatchOf(cols, rows[start..start + n])] + Batches(cols, rows[start + n..], n)
    ensures Filling(cols, rows, n, start + n, start + n, batches + [BatchOf(cols, rows[start..start + n])],
            EmptyBuilders(cols))
  {
    var rest := rows[start..];
    assert rest[..n] == rows[start..start + n] && rest[n..] == rows[start + n..];
    if |rest| == n {
      assert rest == rows[start..start + n] && rows[start + n..] == [];
    }
    NothingBuilt(cols);
    assert rows[start + n..start + n] == [];
  }

  lemma {:induction false} LastBatch(cols: seq<Column>, rows: seq<PgRow>, n: nat, start: nat, batches: seq<Batch>,
                                     builders: seq<seq<Value>>)
    requires n > 0 && Shaped(cols, rows) && Filling(cols, rows, n, start, |rows|, batches, builders)
    ensures Batches(cols, rows, n) == if start < |rows| then batches + [Batch(builders, |rows| - start)] else batches
  {
    assert rows[start..|rows|] == rows[start..];
    assert builders == BatchOf(cols, rows[start..]).columns;
  }

  // ----- the shape of a chunk's batches -----

  ghost predicate AllInLockstep(batches: seq<Batch>)
  {
    forall i | 0 <= i < |batches| :: InLockstep(batches[i])
  }

  /** The rows of the batches, one batch after the other. */
  function Flatten(batches: seq<Batch>): seq<ArrowRow>
    requires AllInLockstep(batches)
  {
    if batches == [] then [] else RowsOf(batches[0]) + Flatten(batches[1..])
  }

  /** The batches of a chunk hold its rows in order, column by column in lockstep; each has 1 to
      `n` rows, and only the last may have fewer than `n`. */
  lemma {:induction false} BatchesHoldRows(cols: seq<Column>, rows: seq<PgRow>, n: nat)
    requires n > 0 && Shaped(cols, rows)
    ensures var batches := Batches(cols, rows, n);
            && AllInLockstep(batches) && Flatten(batches) == ConvertRows(cols, rows)
            && IsCeil(|batches|, |rows|, n)
            && (forall i | 0 <= i < |batches| :: 1 <= batches[i].numRows <= n)
            && (forall i | 0 <= i < |batches| - 1 :: batches[i].numRows == n)
    decreases |rows|
  {
    var batches := Batches(cols, rows, n);
    if rows == [] {
    } else if |rows| <= n {
      BatchHoldsRows(cols, rows);
      assert batches[1..] == [] && Flatten(batches) == RowsOf(batches[0]) + [];
    } else {
      var head, tail := rows[..n], rows[n..];
      BatchHoldsRows(cols, head);
      BatchesHoldRows(cols, tail, n);
      CeilStep(|Batches(cols, tail, n)|, |tail|, n);
      assert batches[1..] == Batches(cols, tail, n);
      assert ConvertRows(cols, rows) == ConvertRows(cols, head) + ConvertRows(cols, tail);
    }
  }
}
