/** The loop over the source cursor, seen from the chunk handlers (src/write/pg_to_arrow.rs:501-571). */
module ChunkStream {
  import opened Wrappers
  import opened Machine
  import opened Arrow
  import opened WriteTypes
  import opened Pieces
  import opened Streaming

  /** A source query: its columns, the rows it yields, and whether it then fails instead of ending. */
  datatype Source = Source(described: seq<(string, Oid)>, rows: seq<PgRow>, fails: bool)

  datatype Config = Config(batchSize: nat, chunkRows: nat, overrides: Option<map<string, Primitive>>, limit: nat,
    size: Sizer)

  ghost predicate WellFormed(source: Source)
  {
    forall r | 0 <= r < |source.rows| :: |source.rows[r]| == |source.described|
  }

  /** The number of rows per fetch; 0 asks for all that a signed 64-bit count can express. */
  function FetchCount(chunkRows: nat): (c: nat)
    ensures c > 0
  {
    if chunkRows == 0 then I64_MAX else if chunkRows < I64_MAX then chunkRows else I64_MAX
  }

  function BatchRows(config: Config): (n: nat)
    ensures n > 0
  {
    if config.batchSize == 0 then 1 else config.batchSize
  }

  datatype Chunk = Chunk(cols: seq<Column>, batches: seq<Batch>)

  /** The chunks handed over, and whether the source was read to its end. */
  datatype Feed = Feed(chunks: seq<seq<Batch>>, complete: bool)

  function Columns(source: Source, config: Config): Option<seq<Column>> {
    WriteColumns(source.described, config.overrides)
  }

  function FetchEnd(source: Source, config: Config, pos: nat): (end: nat)
    requires pos < |source.rows|
    ensures pos < end <= |source.rows|
  {
    if pos + FetchCount(config.chunkRows) <= |source.rows| then pos + FetchCount(config.chunkRows) else |source.rows|
  }

  /** A fetch that needs more rows than there are runs into the failure of the query. */
  predicate FetchFails(source: Source, config: Config, pos: nat) {
    source.fails && pos + FetchCount(config.chunkRows) > |source.rows|
  }

  function FeedFrom(source: Source, config: Config, pos: nat): Feed
    requires WellFormed(source) && pos <= |source.rows|
    decreases |source.rows| - pos
  {
    if FetchFails(source, config, pos) then Feed([], false)
    else if pos == |source.rows| then Feed([], true)
    else
      var cols, end := Columns(source, config), FetchEnd(source, config, pos);
      if cols.None? then Feed([], false)
      else
        var batches := Batches(cols.value, source.rows[pos..end], BatchRows(config));
        if !Fits(config.limit, config.size, batches) then Feed([], false)
        else
          var rest := FeedFrom(source, config, end);
          Feed([batches] + rest.chunks, rest.complete)
  }

  class Stream {
    const source: Source
    const config: Config
    var pos: nat
    var schemaCols: Option<seq<Column>>
    var totalRows: nat

    ghost predicate Valid()
      reads this
    {
      && WellFormed(source) && pos <= |source.rows| && totalRows == pos
      && (schemaCols.Some? ==> Columns(source, config) == schemaCols)
    }

    /** What is still to come. */
    ghost function Rest(): Feed
      requires Valid()
      reads this
    {
      FeedFrom(source, config, pos)
    }

    constructor (source: Source, config: Config)
      requires WellFormed(source)
      ensures Valid() && Rest() == FeedFrom(source, config, 0)
      ensures this.source == source && this.config == config
    {
      this.source := source;
      this.config := config;
      pos := 0;
      schemaCols := None;
      totalRows := 0;
    }

    /** The next rows of the cursor; none at its end. */
    method Fetch() returns (r: Result<seq<PgRow>, string>)
      requires Valid()
      modifies `pos
      ensures r.Err? <==> FetchFails(source, config, old(pos))
      ensures r.Err? ==> pos == old(pos)
      ensures r.Ok? ==> pos == if old(pos) == |source.rows| then old(pos) else FetchEnd(source, config, old(pos))
      ensures r.Ok? ==> old(pos) <= pos <= |source.rows| && r.value == source.rows[old(pos)..pos]
    {
      var count := FetchCount(config.chunkRows);
      if pos + count > |source.rows| && source.fails {
        return Err("SPI cursor fetch failed");
      }
      var end := if pos + count <= |source.rows| then pos + count else |source.rows|;
      r := Ok(source.rows[pos..end]);
      pos := end;
    }

    /** One round of the loop, up to the call of the handler. */
    method Next() returns (r: Result<Option<Chunk>, string>)
      requires Valid()
      modifies this
      ensures r.Ok? ==> Valid()
      ensures old(Rest()).chunks != [] ==>
                && r == Ok(Some(Chunk(Columns(source, config).value, old(Rest()).chunks[0])))
                && Rest() == Feed(old(Rest()).chunks[1..], old(Rest()).complete)
      ensures old(Rest()).chunks == [] ==>
              if old(Rest()).complete then r == Ok(None) && totalRows == |source.rows| else r.Err?
      ensures r.Ok? && r.value.Some? ==> Columns(source, config).Some?
    {
      var fetched :- Fetch();
      if fetched == [] {
        return Ok(None);
      }
      if schemaCols.None? {
        var derived :- DeriveColumns(source.described, config.overrides);
        schemaCols := Some(derived);
      }
      var converted :- ConvertSpiRows(fetched, schemaCols.value, BatchRows(config), config.limit, config.size);
      totalRows := totalRows + converted.1;
      r := Ok(Some(Chunk(schemaCols.value, converted.0)));
    }
  }

  // ----- what a feed delivers -----

  ghost predicate ChunksInLockstep(chunks: seq<seq<Batch>>)
  {
    forall i | 0 <= i < |chunks| :: AllInLockstep(chunks[i])
  }

  /** All rows of the chunks, in order. */
  function Delivered(chunks: seq<seq<Batch>>): seq<ArrowRow>
    requires ChunksInLockstep(chunks)
  {
    if chunks == [] then [] else Flatten(chunks[0]) + Delivered(chunks[1..])
  }

  /** The pieces of the source that the fetches see. */
  function Fetches(source: Source, config: Config, pos: nat): seq<seq<PgRow>>
    requires pos <= |source.rows|
  {
    Cut(source.rows[pos..], FetchCount(config.chunkRows))
  }

  ghost predicate ChunkIs(source: Source, config: Config, cols: seq<Column>, batches: seq<Batch>, rows: seq<PgRow>)
  {
    && Shaped(cols, rows)
    && batches == Batches(cols, rows, BatchRows(config))
    && Fits(config.limit, config.size, batches)
  }

  lemma {:induction false} FetchesStep(source: Source, config: Config, pos: nat)
    requires pos < |source.rows|
    ensures var end := FetchEnd(source, config, pos);
            Fetches(source, config, pos) == [source.rows[pos..end]] + Fetches(source, config, end)
  {
    var end, c, s := FetchEnd(source, config, pos), FetchCount(config.chunkRows), source.rows[pos..];
    if pos + c < |source.rows| {
      assert s[..c] == source.rows[pos..end] && s[c..] == source.rows[end..];
    } else {
      assert s == source.rows[pos..end] && source.rows[end..] == [];
    }
  }

  /** Chunk by chunk, the feed delivers the pieces of the source, and it is complete when it has
      delivered all of them. */
  lemma {:induction false} FeedFollowsFetches(source: Source, config: Config, pos: nat)
    requires WellFormed(source) && pos <= |source.rows|
    ensures var feed, pieces := FeedFrom(source, config, pos), Fetches(source, config, pos);
            && |feed.chunks| <= |pieces|
            && (feed.complete ==> !source.fails && |feed.chunks| == |pieces|)
            && (feed.chunks != [] ==> Columns(source, config).Some?)
            && (forall i | 0 <= i < |feed.chunks| ::
              ChunkIs(source, config, Columns(source, config).value, feed.chunks[i], pieces[i]))
    decreases |source.rows| - pos
  {
    var feed, pieces := FeedFrom(source, config, pos), Fetches(source, config, pos);
    if feed.chunks != [] {
      var end := FetchEnd(source, config, pos);
      FetchesStep(source, config, pos);
      FeedFollowsFetches(source, config, end);
      var rest := FeedFrom(source, config, end);
      forall i | 0 <= i < |feed.chunks|
        ensures ChunkIs(source, config, Columns(source, config).value, feed.chunks[i], pieces[i])
      {
        if i > 0 {
          assert feed.chunks[i] == rest.chunks[i - 1] && pieces[i] == Fetches(source, config, end)[i - 1];
        }
      }
    }
  }

  /** The rows of the source, converted. */
  function SourceRows(source: Source, config: Config): seq<ArrowRow>
    requires WellFormed(source)
  {
    if Columns(source, config).Some? then ConvertRows(Columns(source, config).value, source.rows) else []
  }

  /** The rows handed over are the first rows of the source, in order and with all columns in
      lockstep; on completion they are all of them. */
  lemma {:induction false} FeedDelivers(source: Source, config: Config, pos: nat)
    requires WellFormed(source) && pos <= |source.rows| && Columns(source, config).Some?
    ensures var feed := FeedFrom(source, config, pos);
            var all := ConvertRows(Columns(source, config).value, source.rows[pos..]);
            && ChunksInLockstep(feed.chunks)
            && Delivered(feed.chunks) <= all
            && (feed.complete ==> Delivered(feed.chunks) == all)
    decreases |source.rows| - pos
  {
    var feed := FeedFrom(source, config, pos);
    if feed.chunks != [] {
      var cols, end := Columns(source, config).value, FetchEnd(source, config, pos);
      var rest := FeedFrom(source, config, end);
      FeedDelivers(source, config, end);
      BatchesHoldRows(cols, source.rows[pos..end], BatchRows(config));
      assert feed.chunks[1..] == rest.chunks;
      RowsSplit(cols, source.rows, pos, end);
    }
  }

  lemma {:induction false} RowsSplit(cols: seq<Column>, rows: seq<PgRow>, pos: nat, end: nat)
    requires Shaped(cols, rows) && pos <= end <= |rows|
    ensures ConvertRows(cols, rows[pos..]) == ConvertRows(cols, rows[pos..end]) + ConvertRows(cols, rows[end..])
  {
  }

  /** Neither the chunk size nor the batch size nor the buffer limit influences which rows are
      handed over: always a prefix of the converted source, and all of it on completion. */
  lemma {:induction false} StreamedRows(source: Source, config: Config)
    requires WellFormed(source)
    ensures var feed := FeedFrom(source, config, 0);
            && ChunksInLockstep(feed.chunks)
            && Delivered(feed.chunks) <= SourceRows(source, config)
            && (feed.complete ==> Delivered(feed.chunks) == SourceRows(source, config))
  {
    if Columns(source, config).Some? {
      FeedDelivers(source, config, 0);
      assert source.rows[0..] == source.rows;
    }
  }

  /** Every fetched piece fits the buffer. */
  ghost predicate AllFit(config: Config, cols: seq<Column>, pieces: seq<seq<PgRow>>)
    requires forall i | 0 <= i < |pieces| :: Shaped(cols, pieces[i])
  {
    forall i | 0 <= i < |pieces| :: Fits(config.limit, config.size, Batches(cols, pieces[i], BatchRows(config)))
  }

  lemma {:induction false} FetchesAreShaped(source: Source, config: Config, pos: nat, cols: seq<Column>)
    requires Shaped(cols, source.rows) && pos <= |source.rows|
    ensures forall i | 0 <= i < |Fetches(source, config, pos)| :: Shaped(cols, Fetches(source, config, pos)[i])
    decreases |source.rows| - pos
  {
    if pos < |source.rows| {
      FetchesStep(source, config, pos);
      FetchesAreShaped(source, config, FetchEnd(source, config, pos), cols);
    }
  }

  /** A stream completes exactly when the query does not fail, and, unless it yields nothing, its
      columns can be written and every fetched piece fits the buffer. */
  lemma {:induction false} CompletesIff(source: Source, config: Config, pos: nat, cols: seq<Column>)
    requires WellFormed(source) && pos <= |source.rows| && Columns(source, config) == Some(cols)
    ensures (forall i | 0 <= i < |Fetches(source, config, pos)| :: Shaped(cols, Fetches(source, config, pos)[i]))
    ensures FeedFrom(source, config, pos).complete <==>
            !source.fails && AllFit(config, cols, Fetches(source, config, pos))
    decreases |source.rows| - pos
  {
    FetchesAreShaped(source, config, pos, cols);
    if pos < |source.rows| {
      var end := FetchEnd(source, config, pos);
      FetchesStep(source, config, pos);
      CompletesIff(source, config, end, cols);
      var here, pieces := source.rows[pos..end], Fetches(source, config, end);
      FirstFits(config, cols, here, pieces);
      if source.fails {
        FailureIsLast(source, config, pos);
      }
    }
  }

  lemma {:induction false} FirstFits(config: Config, cols: seq<Column>, here: seq<PgRow>, pieces: seq<seq<PgRow>>)
    requires Shaped(cols, here) && forall i | 0 <= i < |pieces| :: Shaped(cols, pieces[i])
    ensures forall i | 0 <= i < |[here] + pieces| :: Shaped(cols, ([here] + pieces)[i])
    ensures AllFit(config, cols, [here] + pieces) <==>
            Fits(config.limit, config.size, Batches(cols, here, BatchRows(config))) && AllFit(config, cols, pieces)
  {
    var all := [here] + pieces;
    assert all[0] == here && forall i | 0 <= i < |pieces| :: all[i + 1] == pieces[i];
  }

  /** A failing query is never read to completion. */
  lemma {:induction false} FailureIsLast(source: Source, config: Config, pos: nat)
    requires WellFormed(source) && pos <= |source.rows| && source.fails
    ensures !FeedFrom(source, config, pos).complete
    decreases |source.rows| - pos
  {
    if pos < |source.rows| {
      FailureIsLast(source, config, FetchEnd(source, config, pos));
    }
  }

  /** Every chunk but the last of the source carries exactly the fetch size, and the last one no more. */
  lemma {:induction false} ChunkSizes(source: Source, config: Config)
    requires WellFormed(source)
    ensures var feed, c := FeedFrom(source, config, 0), FetchCount(config.chunkRows);
            && ChunksInLockstep(feed.chunks)
            && (forall i | 0 <= i < |feed.chunks| :: 1 <= |Flatten(feed.chunks[i])| <= c)
            && (forall i | 0 <= i < |feed.chunks| - 1 :: |Flatten(feed.chunks[i])| == c)
  {
    var feed, pieces := FeedFrom(source, config, 0), Fetches(source, config, 0);
    FeedFollowsFetches(source, config, 0);
    CutKeeps(source.rows[0..], FetchCount(config.chunkRows));
    forall i | 0 <= i < |feed.chunks|
      ensures AllInLockstep(feed.chunks[i]) && |Flatten(feed.chunks[i])| == |pieces[i]|
    {
      BatchesHoldRows(Columns(source, config).value, pieces[i], BatchRows(config));
    }
  }

  /** The number of handler calls of a completed stream is the number of rows divided by the
      fetch size, rounded up; with chunking off there is at most one. */
  lemma {:induction false} CallsOfCompletedStream(source: Source, config: Config)
    requires WellFormed(source) && FeedFrom(source, config, 0).complete
    ensures IsCeil(|FeedFrom(source, config, 0).chunks|, |source.rows|, FetchCount(config.chunkRows))
    ensures config.chunkRows == 0 && |source.rows| <= I64_MAX ==> |FeedFrom(source, config, 0).chunks| <= 1
  {
    FeedFollowsFetches(source, config, 0);
    assert source.rows[0..] == source.rows;
    CutCount(source.rows, FetchCount(config.chunkRows));
  }

  // ----- sizes and failures in terms of the settings -----

  /** The bytes of all batches together. */
  ghost function Bytes(size: Sizer, batches: seq<Batch>): nat {
    if batches == [] then 0 else size(batches[0]) + Bytes(size, batches[1..])
  }

  lemma {:induction false} TotalIsBytes(size: Sizer, batches: seq<Batch>)
    ensures Total(size, batches) == Bytes(size, batches)
    decreases |batches|
  {
    if |batches| > 1 {
      var n := |batches| - 1;
      TotalIsBytes(size, batches[1..]);
      TotalIsBytes(size, batches[..n]);
      TotalIsBytes(size, batches[1..n]);
      assert batches[..n][1..] == batches[1..n] && batches[1..][..n - 1] == batches[1..n];
    }
  }

  /** Every chunk but the last has the configured number of rows, and the last no more; 0 stands for as many
      as a signed 64-bit count can express, and so do larger settings. */
  ghost predicate ShapedBy(config: Config, chunks: seq<seq<Batch>>)
    requires ChunksInLockstep(chunks)
  {
    && (config.chunkRows == 0 || config.chunkRows > 0x7FFF_FFFF_FFFF_FFFF ==>
          forall i | 0 <= i < |chunks| - 1 :: |Flatten(chunks[i])| == 0x7FFF_FFFF_FFFF_FFFF)
    && (0 < config.chunkRows <= 0x7FFF_FFFF_FFFF_FFFF ==>
      && (forall i | 0 <= i < |chunks| - 1 :: |Flatten(chunks[i])| == config.chunkRows)
      && (forall i | 0 <= i < |chunks| :: 1 <= |Flatten(chunks[i])| <= config.chunkRows))
    && forall i | 0 <= i < |chunks| :: BatchedBy(config, chunks[i])
  }

  /** All batches but the last have the configured number of rows, where 0 counts as 1, and the last no more;
      together they stay within a limit other than 0. */
  ghost predicate BatchedBy(config: Config, batches: seq<Batch>)
  {
    && (config.batchSize > 0 ==>
      && (forall j | 0 <= j < |batches| - 1 :: batches[j].numRows == config.batchSize)
      && (forall j | 0 <= j < |batches| :: 1 <= batches[j].numRows <= config.batchSize))
    && (config.batchSize == 0 ==> forall j | 0 <= j < |batches| :: batches[j].numRows == 1)
    && (config.limit > 0 ==> Bytes(config.size, batches) <= config.limit)
  }

  /** The settings alone say how the rows of a source are cut into chunks and batches. */
  lemma {:induction false} FeedIsShaped(source: Source, config: Config)
    requires WellFormed(source)
    ensures ChunksInLockstep(FeedFrom(source, config, 0).chunks)
    ensures ShapedBy(config, FeedFrom(source, config, 0).chunks)
  {
    var feed, pieces := FeedFrom(source, config, 0), Fetches(source, config, 0);
    ChunkSizes(source, config);
    FeedFollowsFetches(source, config, 0);
    forall i | 0 <= i < |feed.chunks| ensures BatchedBy(config, feed.chunks[i]) {
      BatchesHoldRows(Columns(source, config).value, pieces[i], BatchRows(config));
      TotalIsBytes(config.size, feed.chunks[i]);
    }
  }

  /** Why the fetch of `piece` hands over no chunk: no column type, a query that fails before the fetch is
      full, or too many bytes. */
  ghost predicate Refused(source: Source, config: Config, piece: seq<PgRow>)
  {
    || Columns(source, config).None?
    || (source.fails && |piece| < FetchCount(config.chunkRows))
    || (Shaped(Columns(source, config).value, piece) && config.limit > 0 &&
        config.limit < Bytes(config.size, Batches(Columns(source, config).value, piece, BatchRows(config))))
  }

  /** The first `k` of `pieces` are handed over, and no more. */
  ghost predicate StopsAfter(source: Source, config: Config, pieces: seq<seq<PgRow>>, k: nat)
  {
    && k <= |pieces| && (k < |pieces| ==> Refused(source, config, pieces[k]))
    && (forall i | 0 <= i < k :: !Refused(source, config, pieces[i]))
  }

  lemma {:induction false} StopsOneLater(source: Source, config: Config, piece: seq<PgRow>, later: seq<seq<PgRow>>,
                                         k: nat)
    requires !Refused(source, config, piece) && StopsAfter(source, config, later, k)
    ensures StopsAfter(source, config, [piece] + later, k + 1)
  {
    var pieces := [piece] + later;
    forall i | 0 <= i < k + 1 ensures !Refused(source, config, pieces[i]) {
      assert i > 0 ==> pieces[i] == later[i - 1];
    }
  }

  /** Whether a fetch that has rows hands over a chunk. */
  lemma {:induction false} HandedOverIff(source: Source, config: Config, pos: nat)
    requires WellFormed(source) && pos < |source.rows|
    ensures FeedFrom(source, config, pos).chunks == [] <==>
            Refused(source, config, source.rows[pos..FetchEnd(source, config, pos)])
    ensures FeedFrom(source, config, pos).chunks == [] ==> !FeedFrom(source, config, pos).complete
  {
    var piece := source.rows[pos..FetchEnd(source, config, pos)];
    if Columns(source, config).Some? {
      TotalIsBytes(config.size, Batches(Columns(source, config).value, piece, BatchRows(config)));
    }
  }

  /** A stream never stops early: it ends behind the last piece, or at the first piece that is refused. */
  lemma {:induction false} FeedReaches(source: Source, config: Config, pos: nat)
    requires WellFormed(source) && pos <= |source.rows|
    ensures var feed, pieces := FeedFrom(source, config, pos), Fetches(source, config, pos);
            && StopsAfter(source, config, pieces, |feed.chunks|)
            && (feed.complete <==> |feed.chunks| == |pieces| && !source.fails)
    decreases |source.rows| - pos
  {
    var feed := FeedFrom(source, config, pos);
    if pos < |source.rows| {
      var end := FetchEnd(source, config, pos);
      FetchesStep(source, config, pos);
      HandedOverIff(source, config, pos);
      if feed.chunks != [] {
        FeedReaches(source, config, end);
        StopsOneLater(source, config, source.rows[pos..end], Fetches(source, config, end), |feed.chunks| - 1);
      }
    }
  }
}
