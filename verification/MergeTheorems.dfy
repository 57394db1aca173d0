/** Whole merge runs: one merge, and healing after a failure. */
module MergeTheorems {
  import opened Wrappers
  import opened Convert
  import opened WriteTypes
  import opened Streaming
  import opened ChunkStream
  import opened Merging
  import opened MergeInsert

  lemma {:induction false} ConcatKeyed(cols: seq<Column>, on: seq<string>, chunks: seq<seq<Batch>>)
    requires ChunksInLockstep(chunks)
    ensures Pieces.Concat(KeyedChunks(cols, on, chunks)) == Keyed(cols, on, Delivered(chunks))
    decreases |chunks|
  {
    if chunks != [] {
      ConcatKeyed(cols, on, chunks[1..]);
      assert KeyedChunks(cols, on, chunks)[1..] == KeyedChunks(cols, on, chunks[1..]);
    }
  }

  /** All source rows with their keys. */
  function KeyedSource(call: Call, source: Source, config: Config): seq<Entry<Key, ArrowRow>>
    requires WellFormed(source)
  {
    if Columns(source, config).None? then []
      else Keyed(Columns(source, config).value, call.on, SourceRows(source, config))
  }

  /** The first merges cover the first rows of the source; all merges of a complete run cover all. */
  lemma {:induction false} MergesCover(call: Call, source: Source, config: Config, k: nat)
    requires WellFormed(source) && k <= |Merges(call, source, config)|
    ensures Pieces.Concat(Merges(call, source, config)[..k]) <= KeyedSource(call, source, config)
    ensures FeedFrom(source, config, 0).complete && k == |Merges(call, source, config)| ==>
              Pieces.Concat(Merges(call, source, config)[..k]) == KeyedSource(call, source, config)
  {
    var feed := FeedFrom(source, config, 0);
    StreamedRows(source, config);
    if Columns(source, config).Some? {
      PrefixCovers(Columns(source, config).value, call.on, feed.chunks, k, SourceRows(source, config));
      assert KeyedChunks(Columns(source, config).value, call.on, feed.chunks) == Merges(call, source, config);
      if k == |feed.chunks| {
        assert feed.chunks[..k] == feed.chunks;
      }
    }
  }

  lemma {:induction false} PrefixCovers(cols: seq<Column>, on: seq<string>, chunks: seq<seq<Batch>>, k: nat,
                                        all: seq<ArrowRow>)
    requires ChunksInLockstep(chunks) && k <= |chunks| && Delivered(chunks) <= all
    ensures Pieces.Concat(KeyedChunks(cols, on, chunks)[..k]) == Keyed(cols, on, Delivered(chunks[..k]))
    ensures Keyed(cols, on, Delivered(chunks[..k])) <= Keyed(cols, on, all)
  {
    ConcatKeyed(cols, on, chunks[..k]);
    assert KeyedChunks(cols, on, chunks)[..k] == KeyedChunks(cols, on, chunks[..k]);
    Append.DeliveredPrefix(chunks, k);
    var p := Delivered(chunks[..k]);
    assert p <= all;
    assert p + all[|p|..] == all;
  }

  ghost predicate NoChunkRepeats(merges: seq<Merge>)
  {
    forall i | 0 <= i < |merges| :: NoRepeats(merges[i])
  }

  /** Where no key repeats inside a chunk, the committed chunks are merged one after the other. */
  lemma {:induction false} CommittedIsMerged(sdk: Sdk, modes: Modes, rows: Rows, merges: seq<Merge>, n: nat)
    requires n <= |merges| && Faithful(sdk) && NoChunkRepeats(merges)
    ensures var p := Committed(sdk, modes, rows, merges, n);
            p.rows == MergedChunks(modes, rows, merges[..p.k])
    decreases n
  {
    if n > 0 {
      CommittedIsMerged(sdk, modes, rows, merges, n - 1);
      OneMoreMerge(modes, rows, merges, n - 1);
      CommitMerges(sdk, modes, n - 1, Committed(sdk, modes, rows, merges, n - 1).rows, merges[n - 1]);
    }
  }

  lemma {:induction false} CommitMerges(sdk: Sdk, modes: Modes, n: nat, rows: Rows, merge: Merge)
    requires Faithful(sdk) && NoRepeats(merge)
    ensures sdk(modes, n, rows, merge).Some? ==> sdk(modes, n, rows, merge).value == Merged(modes, rows, merge)
  {
  }

  lemma {:induction false} OneMoreMerge(modes: Modes, rows: Rows, merges: seq<Merge>, k: nat)
    requires NoChunkRepeats(merges) && k < |merges|
    ensures NoRepeats(merges[k])
    ensures MergedChunks(modes, rows, merges[..k + 1]) ==
            Merged(modes, MergedChunks(modes, rows, merges[..k]), merges[k])
  {
    assert merges[..k + 1][..k] == merges[..k];
  }

  /** The rows a run leaves are those of merging, row by row, the source rows it got to. */
  ghost predicate Reached(call: Call, store: Target, done: seq<Entry<Key, ArrowRow>>, after: Target)
  {
    after == store.(rows := Steps(ModesOf(call.whenMatched, call.whenNotMatched), store.rows, done))
  }

  lemma {:induction false} RunReaches(call: Call, source: Source, config: Config, sdk: Sdk, store: Target,
                                      r: Result<Stats, string>, after: Option<Target>)
    returns (done: seq<Entry<Key, ArrowRow>>)
    requires WellFormed(source) && Faithful(sdk) && NoChunkRepeats(Merges(call, source, config))
    requires Ended(call, source, config, sdk, Some(store), r, after)
    ensures done <= KeyedSource(call, source, config)
    ensures r.Ok? ==> done == KeyedSource(call, source, config)
    ensures after.Some? && Reached(call, store, done, after.value)
  {
    var merges := Merges(call, source, config);
    var accepts := Accepts(call, source, config, Some(store));
    var k := Outcome(call, accepts, sdk, Some(store), merges, |merges|).0;
    done := Pieces.Concat(merges[..k]);
    MergesCover(call, source, config, k);
    if accepts {
      CommittedIsMerged(sdk, CallModes(call), store.rows, merges, |merges|);
    }
    ChunksAreSteps(CallModes(call), store.rows, merges[..k]);
  }

  /** A successful run over a source without repeated keys is a single merge of all its rows,
      whatever the chunk and batch sizes, in all four modes; over a source without rows it
      changes nothing. */
  lemma {:induction false} RunIsOneMerge(call: Call, source: Source, config: Config, sdk: Sdk, store: Target,
                                         r: Result<Stats, string>, after: Option<Target>)
    requires WellFormed(source) && Faithful(sdk)
    requires NoRepeats(KeyedSource(call, source, config))
    requires Ended(call, source, config, sdk, Some(store), r, after) && r.Ok?
    ensures after == Some(store.(rows := Merged(CallModes(call), store.rows, KeyedSource(call, source, config))))
  {
    MergesCover(call, source, config, |Merges(call, source, config)|);
    assert Merges(call, source, config)[..|Merges(call, source, config)|] == Merges(call, source, config);
    ChunksDoNotRepeat(Merges(call, source, config));
    var done := RunReaches(call, source, config, sdk, store, r, after);
    MergedIsSteps(CallModes(call), store.rows, done);
  }

  // ----- the outcome key by key -----

  /** `key` holds, for each key column in turn, the row's value in the first column of that name. */
  ghost predicate HasKey(cols: seq<Column>, on: seq<string>, row: ArrowRow, key: Key)
  {
    |row| == |cols| && |key| == |on| && forall i | 0 <= i < |on| :: KeyValue(cols, on[i], row, key[i])
  }

  ghost predicate KeyValue(cols: seq<Column>, name: string, row: ArrowRow, v: Value)
    requires |row| == |cols|
  {
    exists c :: 0 <= c < |cols| && NamedFirst(cols, name, c) && row[c] == v
  }

  ghost predicate NamedFirst(cols: seq<Column>, name: string, c: nat)
    requires c < |cols|
  {
    cols[c].name == name && forall d | 0 <= d < c :: cols[d].name != name
  }

  lemma {:induction false} ValueIsFirst(cols: seq<Column>, name: string, row: ArrowRow)
    requires |row| == |cols| && HasColumn(cols, name)
    ensures KeyValue(cols, name, row, ValueOf(cols, name, row))
    decreases |cols|
  {
    if cols[0].name == name {
      assert NamedFirst(cols, name, 0);
    } else {
      var i :| 0 <= i < |cols| && cols[i].name == name;
      assert cols[1..][i - 1].name == name;
      ValueIsFirst(cols[1..], name, row[1..]);
      var c :| 0 <= c < |cols[1..]| && NamedFirst(cols[1..], name, c)
               && row[1..][c] == ValueOf(cols[1..], name, row[1..]);
      forall d | 0 <= d < c + 1 ensures cols[d].name != name {
        assert d > 0 ==> cols[d] == cols[1..][d - 1];
      }
      assert NamedFirst(cols, name, c + 1);
    }
  }

  lemma {:induction false} KeysAreFirst(cols: seq<Column>, on: seq<string>, row: ArrowRow, key: Key)
    requires |row| == |cols| && forall i | 0 <= i < |on| :: HasColumn(cols, on[i])
    ensures HasKey(cols, on, row, key) <==> key == KeyOf(cols, on, row)
  {
    forall i | 0 <= i < |on| ensures KeyValue(cols, on[i], row, KeyOf(cols, on, row)[i]) {
      ValueIsFirst(cols, on[i], row);
    }
    if HasKey(cols, on, row, key) {
      forall i | 0 <= i < |on| ensures key[i] == KeyOf(cols, on, row)[i] {
        assert KeyValue(cols, on[i], row, key[i]) && KeyValue(cols, on[i], row, KeyOf(cols, on, row)[i]);
      }
    }
  }

  /** What a run leaves for a key, given the source row with that key, if there is one. */
  ghost predicate LeftForKey(call: Call, before: Rows, after: Rows, key: Key, row: Option<ArrowRow>)
  {
    if row.Some? && key in before then
      key in after && after[key] == (if call.whenMatched == "update" then row.value else before[key])
    else if row.Some? then
      (key in after <==> call.whenNotMatched == "insert") && (key in after ==> after[key] == row.value)
    else (key in after <==> key in before) && (key in after ==> after[key] == before[key])
  }

  /** A successful run over a source without repeated keys, key by key: a row of both the source and the
      dataset is replaced under 'update' and kept under 'nothing', a row of the source alone is added
      under 'insert' only, and all other rows stay. */
  lemma {:induction false} RunByKey(call: Call, source: Source, config: Config, sdk: Sdk, store: Target,
                                    r: Result<Stats, string>, after: Option<Target>, key: Key)
    requires WellFormed(source) && Faithful(sdk) && source.rows != []
    requires Ended(call, source, config, sdk, Some(store), r, after) && r.Ok?
    requires Columns(source, config).Some? && NoRepeats(KeyedSource(call, source, config))
    ensures var cols, rows := Columns(source, config).value, SourceRows(source, config);
            && after.Some? && after.value.names == store.names
            && (forall i | 0 <= i < |rows| && HasKey(cols, call.on, rows[i], key) ::
                 LeftForKey(call, store.rows, after.value.rows, key, Some(rows[i])))
            && ((forall i | 0 <= i < |rows| :: !HasKey(cols, call.on, rows[i], key)) ==>
                 LeftForKey(call, store.rows, after.value.rows, key, None))
  {
    RunIsOneMerge(call, source, config, sdk, store, r, after);
    SuccessIsAccepted(call, source, config, sdk, store, r, after);
    var cols, rows := Columns(source, config).value, SourceRows(source, config);
    var keyed := KeyedSource(call, source, config);
    forall i | 0 <= i < |rows| ensures HasKey(cols, call.on, rows[i], key) <==> keyed[i].key == key {
      KeysAreFirst(cols, call.on, rows[i], key);
    }
    forall i | 0 <= i < |rows| && HasKey(cols, call.on, rows[i], key)
      ensures LeftForKey(call, store.rows, after.value.rows, key, Some(rows[i]))
    {
      assert keyed[i].key == key && keyed[i].row == rows[i];
      RowForIs(keyed, i);
      MergedAt(call, store.rows, keyed, key);
    }
    if forall i | 0 <= i < |rows| :: !HasKey(cols, call.on, rows[i], key) {
      assert key !in KeysOf(keyed);
      MergedAt(call, store.rows, keyed, key);
    }
  }

  lemma {:induction false} RowForIs(keyed: seq<Entry<Key, ArrowRow>>, i: nat)
    requires NoRepeats(keyed) && i < |keyed|
    ensures keyed[i].key in KeysOf(keyed) && RowFor(keyed, keyed[i].key) == keyed[i].row
  {
  }

  lemma {:induction false} MergedAt(call: Call, before: Rows, keyed: seq<Entry<Key, ArrowRow>>, key: Key)
    requires NoRepeats(keyed)
    requires call.whenNotMatched == "insert" || call.whenNotMatched == "nothing"
    ensures LeftForKey(call, before, Merged(CallModes(call), before, keyed), key,
                       if key in KeysOf(keyed) then Some(RowFor(keyed, key)) else None)
  {
  }

  lemma {:induction false} SuccessIsAccepted(call: Call, source: Source, config: Config, sdk: Sdk, store: Target,
                                             r: Result<Stats, string>, after: Option<Target>)
    requires WellFormed(source) && source.rows != []
    requires Ended(call, source, config, sdk, Some(store), r, after) && r.Ok?
    ensures Accepts(call, source, config, Some(store))
  {
    MergesPerChunk(call, source, config);
    assert FeedFrom(source, config, 0).complete ==> FeedFrom(source, config, 0).chunks != [];
  }

  /** Healing: after a run that stopped anywhere, a successful second run leaves exactly what a
      successful first run would have left, in all four modes and for all chunk sizes. */
  lemma {:induction false} RerunHealsRun(call: Call, source: Source, a: Config, b: Config, c: Config,
                                         sdkA: Sdk, sdkB: Sdk, sdkC: Sdk, store: Target,
                                         ra: Result<Stats, string>, rb: Result<Stats, string>,
                                         rc: Result<Stats, string>,
                                         broken: Target, healed: Option<Target>, whole: Option<Target>)
    requires WellFormed(source) && a.overrides == b.overrides == c.overrides
    requires Faithful(sdkA) && Faithful(sdkB) && Faithful(sdkC)
    requires NoChunkRepeats(Merges(call, source, a))
    requires NoChunkRepeats(Merges(call, source, b))
    requires NoChunkRepeats(Merges(call, source, c))
    requires Ended(call, source, a, sdkA, Some(store), ra, Some(broken))
    requires Ended(call, source, b, sdkB, Some(broken), rb, healed) && rb.Ok?
    requires Ended(call, source, c, sdkC, Some(store), rc, whole) && rc.Ok?
    ensures healed == whole
  {
    var all := KeyedSource(call, source, a);
    var done := RunReaches(call, source, a, sdkA, store, ra, Some(broken));
    var again := RunReaches(call, source, b, sdkB, broken, rb, healed);
    var once := RunReaches(call, source, c, sdkC, store, rc, whole);
    assert again == all && once == all;
    assert done + all[|done|..] == all;
    RerunHeals(CallModes(call), store.rows, done, all[|done|..]);
  }

  /** Without source rows a run succeeds and changes nothing, even with invalid modes or without a
      dataset: no chunk ever reaches the checks. */
  lemma {:induction false} EmptySourceIsNeverChecked(call: Call, source: Source, config: Config, sdk: Sdk,
                                                     store: Option<Target>,
                                                     r: Result<Stats, string>, after: Option<Target>)
    requires WellFormed(source) && source.rows == [] && !source.fails
    requires Ended(call, source, config, sdk, store, r, after)
    ensures r == Ok(Stats(0, 0, 0, 0, config.chunkRows)) && after == store
  {
    MergesPerChunk(call, source, config);
  }

  /** What a successful run reports: all source rows; that it inserted and updated none if there are none, and
      otherwise that it does not know; and one transaction for each chunk, that is, the number of rows divided
      by the chunk size, rounded up. */
  lemma {:induction false} StatsAre(call: Call, source: Source, config: Config, sdk: Sdk, store: Option<Target>,
                                    r: Result<Stats, string>, after: Option<Target>)
    requires WellFormed(source) && Ended(call, source, config, sdk, store, r, after) && r.Ok?
    ensures r.value.rowsMerged == |source.rows| && r.value.chunkRows == config.chunkRows
    ensures r.value.rowsInserted == r.value.rowsUpdated == if source.rows == [] then 0 else -1
    ensures 0 < config.chunkRows <= 0x7FFF_FFFF_FFFF_FFFF ==>
              Pieces.IsCeil(r.value.chunkTxns, |source.rows|, config.chunkRows)
    ensures config.chunkRows == 0 && |source.rows| <= 0x7FFF_FFFF_FFFF_FFFF ==>
              r.value.chunkTxns == if source.rows == [] then 0 else 1
  {
    MergesPerChunk(call, source, config);
    CallsOfCompletedStream(source, config);
  }

  /** A run whose modes are invalid, whose dataset is missing, or whose key columns are not in both
      the source and the dataset, succeeds exactly when the source has no rows; it never
      changes anything. */
  lemma {:induction false} UncheckedIffEmpty(call: Call, source: Source, config: Config, sdk: Sdk,
                                             store: Option<Target>,
                                             r: Result<Stats, string>, after: Option<Target>)
    requires WellFormed(source)
    requires || !(call.whenMatched == "update" || call.whenMatched == "nothing")
             || !(call.whenNotMatched == "insert" || call.whenNotMatched == "nothing")
             || store.None? || Columns(source, config).None?
             || (exists i :: 0 <= i < |call.on| &&
                  !(HasColumn(Columns(source, config).value, call.on[i]) && call.on[i] in store.value.names))
    requires Ended(call, source, config, sdk, store, r, after)
    ensures after == store
    ensures r.Ok? <==> source.rows == [] && !source.fails
  {
    MergesPerChunk(call, source, config);
    if source.rows != [] {
      assert FeedFrom(source, config, 0).complete ==> FeedFrom(source, config, 0).chunks != [];
    }
  }
}
