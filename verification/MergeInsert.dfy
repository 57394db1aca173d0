/** Merging a query result into a dataset, chunk by chunk (src/write/merge_insert.rs:65-214). */
module MergeInsert {
  import opened Wrappers
  import opened Convert
  import opened WriteTypes
  import opened Streaming
  import opened ChunkStream
  import opened Merging
  import Append

  type Key = seq<Value>

  /** The dataset at the uri: its columns and its rows by key. */
  datatype Target = Target(names: seq<string>, rows: map<Key, ArrowRow>)

  /** The value of the first column with the given name. */
  function ValueOf(cols: seq<Column>, name: string, row: ArrowRow): Value
    decreases |cols|
  {
    if cols == [] || row == [] then Null
    else if cols[0].name == name then row[0]
    else ValueOf(cols[1..], name, row[1..])
  }

  function KeyOf(cols: seq<Column>, on: seq<string>, row: ArrowRow): Key {
    seq(|on|, i requires 0 <= i < |on| => ValueOf(cols, on[i], row))
  }

  function Keyed(cols: seq<Column>, on: seq<string>, rows: seq<ArrowRow>): seq<Entry<Key, ArrowRow>> {
    seq(|rows|, i requires 0 <= i < |rows| => Entry(KeyOf(cols, on, rows[i]), rows[i]))
  }

  predicate ValidWhen(whenMatched: string, whenNotMatched: string) {
    (whenMatched == "update" || whenMatched == "nothing") && (whenNotMatched == "insert" || whenNotMatched == "nothing")
  }

  function ModesOf(whenMatched: string, whenNotMatched: string): Modes {
    Modes(whenMatched == "update", whenNotMatched == "insert")
  }

  /** The dataset exists and has, like the source, all key columns. */
  predicate Opens(on: seq<string>, cols: seq<Column>, store: Option<Target>) {
    && store.Some?
    && (forall i | 0 <= i < |on| :: HasColumn(cols, on[i]))
    && (forall i | 0 <= i < |on| :: on[i] in store.value.names)
  }

  type Rows = map<Key, ArrowRow>

  type Merge = seq<Entry<Key, ArrowRow>>

  /** The SDK's merge: what the n-th commit makes of the rows of the dataset, or nothing when it
      fails. What it does with a merge that repeats a key is left open. */
  type Sdk = (Modes, nat, Rows, Merge) -> Option<Rows>

  /** Without repeated keys, a commit that succeeds merges. */
  ghost predicate Faithful(sdk: Sdk)
  {
    forall modes, n, rows, merge | NoRepeats(merge) && sdk(modes, n, rows, merge).Some? ::
      sdk(modes, n, rows, merge).value == Merged(modes, rows, merge)
  }

  /** The chunk handler with its captured variables, and the dataset at the uri. */
  class Handler {
    const on: seq<string>
    const whenMatched: string
    const whenNotMatched: string
    const sdk: Sdk
    var store: Option<Target>
    var dataset: Option<Target>
    var chunkTxns: nat

    constructor (on: seq<string>, whenMatched: string, whenNotMatched: string, sdk: Sdk, store: Option<Target>)
      ensures this.on == on && this.whenMatched == whenMatched && this.whenNotMatched == whenNotMatched
      ensures this.sdk == sdk && this.store == store && dataset == None && chunkTxns == 0
    {
      this.on := on;
      this.whenMatched := whenMatched;
      this.whenNotMatched := whenNotMatched;
      this.sdk := sdk;
      this.store := store;
      dataset := None;
      chunkTxns := 0;
    }

    /** Opens the dataset and checks the key columns. */
    method Open(cols: seq<Column>) returns (r: Result<Target, string>)
      ensures r.Ok? <==> Opens(on, cols, store)
      ensures r.Ok? ==> Some(r.value) == store
    {
      if store.None? {
        return Err("dataset not found");
      }
      for i := 0 to |on|
        invariant forall j | 0 <= j < i :: HasColumn(cols, on[j])
      {
        if !HasColumn(cols, on[i]) {
          return Err("on_column not found in source query result");
        }
      }
      for i := 0 to |on|
        invariant forall j | 0 <= j < i :: on[j] in store.value.names
      {
        if on[i] !in store.value.names {
          return Err("on_column not found in Lance schema");
        }
      }
      return Ok(store.value);
    }

    /** Commits the merge of one chunk, or fails without any effect on the dataset. */
    method HandleChunk(chunk: Chunk) returns (r: Result<(), string>)
      requires AllInLockstep(chunk.batches)
      requires dataset.Some? ==> dataset == store
      modifies this
      ensures chunk.batches == [] ==>
                r.Ok? && store == old(store) && dataset == old(dataset) && chunkTxns == old(chunkTxns)
      ensures chunk.batches != [] ==>
                Handled(on, whenMatched, whenNotMatched, sdk, chunk, old(dataset), old(store), old(chunkTxns), r)
      ensures chunk.batches != [] && r.Ok? ==>
                && dataset == store && chunkTxns == old(chunkTxns) + 1
                && store == MergedStore(on, whenMatched, whenNotMatched, sdk, chunk, old(store), old(chunkTxns))
      ensures r.Err? ==> store == old(store) && chunkTxns == old(chunkTxns)
    {
      if |chunk.batches| == 0 {
        return Ok(());
      }
      if dataset.None? {
        var ds :- Open(chunk.cols);
        dataset := Some(ds);
      }
      var current := dataset.value;
      dataset := None;
      if whenMatched != "update" && whenMatched != "nothing" {
        return Err("invalid when_matched value");
      }
      if whenNotMatched != "insert" && whenNotMatched != "nothing" {
        return Err("invalid when_not_matched value");
      }
      var rows := sdk(ModesOf(whenMatched, whenNotMatched), chunkTxns, current.rows,
                      Keyed(chunk.cols, on, Flatten(chunk.batches)));
      if rows.None? {
        return Err("lance merge_insert failed");
      }
      store := Some(current.(rows := rows.value));
      dataset := store;
      chunkTxns := chunkTxns + 1;
      return Ok(());
    }
  }

  /** The dataset after the merge of a chunk, if the commit succeeds. */
  function MergedStore(on: seq<string>, whenMatched: string, whenNotMatched: string, sdk: Sdk, chunk: Chunk,
                       store: Option<Target>, n: nat): Option<Target>
    requires AllInLockstep(chunk.batches)
  {
    if store.None? then None
    else
      var rows := sdk(ModesOf(whenMatched, whenNotMatched), n, store.value.rows,
                      Keyed(chunk.cols, on, Flatten(chunk.batches)));
      if rows.None? then None else Some(store.value.(rows := rows.value))
  }

  /** A chunk is merged exactly when it passes all checks and the SDK commits it. */
  ghost predicate Handled(on: seq<string>, whenMatched: string, whenNotMatched: string, sdk: Sdk, chunk: Chunk,
                          dataset: Option<Target>, store: Option<Target>, n: nat, r: Result<(), string>)
    requires AllInLockstep(chunk.batches)
  {
    r.Ok? <==>
      && (dataset.Some? || Opens(on, chunk.cols, store))
      && ValidWhen(whenMatched, whenNotMatched)
      && MergedStore(on, whenMatched, whenNotMatched, sdk, chunk, store, n).Some?
  }

  // ----- a whole run -----

  datatype Call = Call(on: seq<string>, whenMatched: string, whenNotMatched: string)

  datatype Stats = Stats(rowsMerged: nat, rowsInserted: int, rowsUpdated: int, chunkTxns: nat, chunkRows: nat)

  function CallModes(call: Call): Modes {
    ModesOf(call.whenMatched, call.whenNotMatched)
  }

  /** The keyed rows of every chunk. */
  function KeyedChunks(cols: seq<Column>, on: seq<string>, chunks: seq<seq<Batch>>): seq<Merge>
    requires ChunksInLockstep(chunks)
  {
    seq(|chunks|, i requires 0 <= i < |chunks| => Keyed(cols, on, Flatten(chunks[i])))
  }

  /** The chunks of a source as the merges see them. */
  function Merges(call: Call, source: Source, config: Config): seq<Merge>
    requires WellFormed(source)
  {
    StreamedRows(source, config);
    var feed := FeedFrom(source, config, 0);
    if Columns(source, config).None? then []
    else KeyedChunks(Columns(source, config).value, call.on, feed.chunks)
  }

  /** The checks of the first chunk. */
  predicate Accepts(call: Call, source: Source, config: Config, store: Option<Target>) {
    && ValidWhen(call.whenMatched, call.whenNotMatched)
    && Columns(source, config).Some? && Opens(call.on, Columns(source, config).value, store)
  }

  /** The number of commits that succeed and the rows that they leave. */
  datatype Progress = Progress(k: nat, rows: Rows)

  /** The first `n` merges, up to the first that fails. */
  function Committed(sdk: Sdk, modes: Modes, rows: Rows, merges: seq<Merge>, n: nat): (p: Progress)
    requires n <= |merges|
    ensures p.k <= n
  {
    if n == 0 then Progress(0, rows)
    else
      var before := Committed(sdk, modes, rows, merges, n - 1);
      if before.k < n - 1 then before
      else
        match sdk(modes, n - 1, before.rows, merges[n - 1])
        case None => before
        case Some(after) => Progress(n, after)
  }

  /** The number of chunks that a run commits, and the dataset that it leaves. */
  function Outcome(call: Call, accepts: bool, sdk: Sdk, store: Option<Target>, merges: seq<Merge>, n: nat)
    : (nat, Option<Target>)
    requires n <= |merges|
  {
    if !accepts || store.None? then (0, store)
    else
      var p := Committed(sdk, CallModes(call), store.value.rows, merges, n);
      (p.k, Some(store.value.(rows := p.rows)))
  }

  function OutcomeOf(call: Call, source: Source, config: Config, sdk: Sdk, store: Option<Target>): (nat, Option<Target>)
    requires WellFormed(source)
  {
    var merges := Merges(call, source, config);
    Outcome(call, Accepts(call, source, config, store), sdk, store, merges, |merges|)
  }

  /** How a run ends: the chunks before the first failure are merged. */
  ghost predicate Ended(call: Call, source: Source, config: Config, sdk: Sdk, store: Option<Target>,
                        r: Result<Stats, string>, after: Option<Target>)
    requires WellFormed(source)
  {
    var outcome := OutcomeOf(call, source, config, sdk, store);
    && after == outcome.1
    && (r.Ok? <==> FeedFrom(source, config, 0).complete && outcome.0 == |Merges(call, source, config)|)
    && (r.Ok? ==> var unknown := if |source.rows| == 0 then 0 else -1;
                  r.value == Stats(|source.rows|, unknown, unknown, outcome.0, config.chunkRows))
  }

  /** The handler after `k` merges. */
  ghost predicate HandlerAt(h: Handler, call: Call, accepts: bool, store: Option<Target>, merges: seq<Merge>, k: nat)
    reads h
  {
    && h.on == call.on && h.whenMatched == call.whenMatched && h.whenNotMatched == call.whenNotMatched
    && h.chunkTxns == k <= |merges|
    && Outcome(call, accepts, h.sdk, store, merges, k) == (k, h.store)
    && (if k == 0 then h.dataset.None? else h.dataset.Some? && h.dataset == h.store)
  }

  ghost predicate Running(h: Handler, call: Call, source: Source, config: Config, store: Option<Target>, rest: Feed,
                          k: nat)
    reads h
    requires WellFormed(source)
  {
    var feed := FeedFrom(source, config, 0);
    && HandlerAt(h, call, Accepts(call, source, config, store), store, Merges(call, source, config), k)
    && k <= |feed.chunks| == |Merges(call, source, config)| && rest == Feed(feed.chunks[k..], feed.complete)
  }

  /** After a failed commit nothing more is committed. */
  lemma {:induction false} NothingMore(sdk: Sdk, modes: Modes, rows: Rows, merges: seq<Merge>, m: nat, n: nat)
    requires m <= n <= |merges| && Committed(sdk, modes, rows, merges, m).k < m
    ensures Committed(sdk, modes, rows, merges, n) == Committed(sdk, modes, rows, merges, m)
    decreases n
  {
    if m < n {
      NothingMore(sdk, modes, rows, merges, m, n - 1);
    }
  }

  lemma {:induction false} StopsHere(call: Call, accepts: bool, sdk: Sdk, store: Option<Target>, merges: seq<Merge>,
                                     k: nat)
    requires k < |merges| && Outcome(call, accepts, sdk, store, merges, k).0 == k
    requires Outcome(call, accepts, sdk, store, merges, k + 1).0 == k
    ensures Outcome(call, accepts, sdk, store, merges, |merges|) == Outcome(call, accepts, sdk, store, merges, k)
  {
    if accepts && store.Some? {
      NothingMore(sdk, CallModes(call), store.value.rows, merges, k + 1, |merges|);
    }
  }

  lemma {:induction false} ChunkIsMerge(call: Call, source: Source, config: Config, k: nat)
    requires WellFormed(source) && k < |FeedFrom(source, config, 0).chunks|
    ensures Columns(source, config).Some? && k < |Merges(call, source, config)|
    ensures AllInLockstep(FeedFrom(source, config, 0).chunks[k])
    ensures Merges(call, source, config)[k] ==
            Keyed(Columns(source, config).value, call.on, Flatten(FeedFrom(source, config, 0).chunks[k]))
  {
    StreamedRows(source, config);
  }

  /** The loop has ended with `rows` source rows, or failed. */
  ghost predicate RunEnds(h: Handler, call: Call, source: Source, config: Config, store: Option<Target>,
                          rows: Result<nat, string>)
    requires WellFormed(source)
    reads h
  {
    var outcome := OutcomeOf(call, source, config, h.sdk, store);
    && h.store == outcome.1
    && (rows.Ok? <==> FeedFrom(source, config, 0).complete && outcome.0 == |Merges(call, source, config)|)
    && (rows.Ok? ==> rows.value == |source.rows| && h.chunkTxns == outcome.0)
  }

  lemma {:induction false} NoMoreChunks(h: Handler, call: Call, source: Source, config: Config, store: Option<Target>,
                                        feed: Feed, k: nat, rows: Result<nat, string>)
    requires WellFormed(source) && feed == FeedFrom(source, config, 0) && k == |feed.chunks|
    requires HandlerAt(h, call, Accepts(call, source, config, store), store, Merges(call, source, config), k)
    requires k == |Merges(call, source, config)| && (rows.Ok? <==> feed.complete)
    requires rows.Ok? ==> rows.value == |source.rows|
    ensures RunEnds(h, call, source, config, store, rows)
  {
  }

  /** One round of the loop: fetch, convert, merge. */
  method Round(h: Handler, stream: Stream, ghost call: Call, ghost store: Option<Target>, ghost k: nat)
    returns (r: Option<Result<nat, string>>)
    requires stream.Valid()
    requires Running(h, call, stream.source, stream.config, store, stream.Rest(), k)
    modifies h, stream
    ensures r.Some? ==> RunEnds(h, call, stream.source, stream.config, store, r.value)
    ensures r.None? ==> stream.Valid() && k < |FeedFrom(stream.source, stream.config, 0).chunks| &&
                        Running(h, call, stream.source, stream.config, store, stream.Rest(), k + 1)
  {
    ghost var feed := FeedFrom(stream.source, stream.config, 0);
    Append.FeedIsInLockstep(stream.source, stream.config);
    if k < |feed.chunks| {
      ChunkIsMerge(call, stream.source, stream.config, k);
    }
    var next := stream.Next();
    if next.Err? {
      NoMoreChunks(h, call, stream.source, stream.config, store, feed, k, Err(next.error));
      return Some(Err(next.error));
    }
    if next.value.None? {
      NoMoreChunks(h, call, stream.source, stream.config, store, feed, k, Ok(stream.totalRows));
      return Some(Ok(stream.totalRows));
    }
    assert k < |feed.chunks|;
    assert next.value.value.batches == feed.chunks[k] && feed.chunks[k..][1..] == feed.chunks[k + 1..];
    var handled := Apply(h, next.value.value, call, Accepts(call, stream.source, stream.config, store), store,
                         Merges(call, stream.source, stream.config), k);
    if handled.Err? {
      return Some(Err(handled.error));
    }
    return None;
  }

  /** The handler's part of a round. */
  method Apply(h: Handler, chunk: Chunk, ghost call: Call, ghost accepts: bool, ghost store: Option<Target>,
               ghost merges: seq<Merge>, ghost k: nat)
    returns (r: Result<(), string>)
    requires HandlerAt(h, call, accepts, store, merges, k) && k < |merges|
    requires chunk.batches != [] && AllInLockstep(chunk.batches)
    requires merges[k] == Keyed(chunk.cols, call.on, Flatten(chunk.batches))
    requires accepts <==> ValidWhen(call.whenMatched, call.whenNotMatched) && Opens(call.on, chunk.cols, store)
    modifies h
    ensures r.Ok? ==> HandlerAt(h, call, accepts, store, merges, k + 1)
    ensures r.Err? ==> Outcome(call, accepts, h.sdk, store, merges, |merges|) == (k, h.store)
  {
    r := h.HandleChunk(chunk);
    if r.Err? {
      StopsHere(call, accepts, h.sdk, store, merges, k);
    }
  }

  /** The loop over all chunks. */
  method MergeChunks(h: Handler, stream: Stream, ghost call: Call, ghost store: Option<Target>)
    returns (rows: Result<nat, string>)
    requires stream.Valid()
    requires Running(h, call, stream.source, stream.config, store, stream.Rest(), 0)
    modifies h, stream
    ensures RunEnds(h, call, stream.source, stream.config, store, rows)
  {
    ghost var n := |FeedFrom(stream.source, stream.config, 0).chunks|;
    ghost var k := 0;
    while true
      invariant stream.Valid()
      invariant Running(h, call, stream.source, stream.config, store, stream.Rest(), k)
      decreases n - k
    {
      var ended := Round(h, stream, call, store, k);
      if ended.Some? {
        return ended.value;
      }
      k := k + 1;
    }
  }

  /** A run: it commits the chunks before the first failure, whatever the SDK makes of each. */
  method LanceMergeInsert(call: Call, source: Source, config: Config, sdk: Sdk, store: Option<Target>)
    returns (r: Result<Stats, string>, after: Option<Target>)
    requires WellFormed(source)
    ensures call.on == [] ==> r.Err? && after == store
    ensures call.on != [] ==> Ended(call, source, config, sdk, store, r, after)
  {
    if |call.on| == 0 {
      return Err("on_columns must not be empty"), store;
    }
    var h := new Handler(call.on, call.whenMatched, call.whenNotMatched, sdk, store);
    var stream := new Stream(source, config);
    MergesPerChunk(call, source, config);
    var rows := MergeChunks(h, stream, call, store);
    if rows.Err? {
      return Err(rows.error), h.store;
    }
    var unknown := if rows.value == 0 then 0 else -1;
    return Ok(Stats(rows.value, unknown, unknown, h.chunkTxns, config.chunkRows)), h.store;
  }

  lemma {:induction false} MergesPerChunk(call: Call, source: Source, config: Config)
    requires WellFormed(source)
    ensures |Merges(call, source, config)| == |FeedFrom(source, config, 0).chunks|
  {
    if Columns(source, config).None? {
      assert FeedFrom(source, config, 0).chunks == [];
    }
  }
}
