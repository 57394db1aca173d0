/** Appending a query result to a dataset, chunk by chunk (src/write/append.rs:28-101). */
module Append {
  import opened Wrappers
  import opened Streaming
  import opened ChunkStream

  datatype WriteMode = Create | AppendRows | Overwrite

  /** What a write leaves, as the SDK commits it: nothing when the mode does not fit. */
  function Written(mode: WriteMode, dataset: Option<seq<ArrowRow>>, rows: seq<ArrowRow>): Option<seq<ArrowRow>> {
    match mode
    case Create => if dataset.None? then Some(rows) else None
    case Overwrite => Some(rows)
    case AppendRows => if dataset.Some? then Some(dataset.value + rows) else None
  }

  predicate ValidMode(mode: string) {
    mode == "create" || mode == "append" || mode == "overwrite"
  }

  /** The rows that a run in `mode` keeps, or nothing when the mode does not fit the dataset. */
  function KeptRows(mode: string, dataset: Option<seq<ArrowRow>>): Option<seq<ArrowRow>> {
    if mode == "create" then (if dataset.None? then Some([]) else None)
    else if mode == "overwrite" then Some([])
    else dataset
  }

  /** The handler with its captured variables, and the dataset at the uri. */
  class Handler {
    const mode: string
    const commitFails: nat -> bool // whether the n-th commit fails in the storage layer
    var first: bool
    var commits: nat
    var dataset: Option<seq<ArrowRow>>

    constructor (mode: string, commitFails: nat -> bool, dataset: Option<seq<ArrowRow>>)
      ensures this.mode == mode && this.commitFails == commitFails && this.dataset == dataset
      ensures first && commits == 0
    {
      this.mode := mode;
      this.commitFails := commitFails;
      this.dataset := dataset;
      first := true;
      commits := 0;
    }

    /** Commits one chunk, or fails without any effect. */
    method Handle(batches: seq<Batch>) returns (r: Result<(), string>)
      requires AllInLockstep(batches)
      modifies this
      ensures batches == [] ==> r.Ok? && dataset == old(dataset) && first == old(first) && commits == old(commits)
      ensures batches != [] ==>
                var base := if old(first) then KeptRows(mode, old(dataset)) else old(dataset);
                && (r.Ok? <==> base.Some? && !commitFails(old(commits)))
                && (r.Ok? ==> dataset == Some(base.value + Flatten(batches)) && !first && commits == old(commits) + 1)
                && (r.Err? ==> dataset == old(dataset) && first == old(first) && commits == old(commits))
    {
      if |batches| == 0 {
        return Ok(());
      }
      var writeMode := AppendRows;
      if first {
        if mode == "create" {
          writeMode := Create;
        } else if mode == "overwrite" {
          writeMode := Overwrite;
        }
      }
      if first && mode == "append" && dataset.None? {
        return Err("dataset not found");
      }
      var written := Written(writeMode, dataset, Flatten(batches));
      if written.None? || commitFails(commits) {
        return Err("lance write failed");
      }
      assert [] + Flatten(batches) == Flatten(batches);
      dataset := written;
      commits := commits + 1;
      first := false;
      return Ok(());
    }
  }

  // ----- a whole run -----

  /** The number of commits that succeed, of at most `n`. */
  function Commits(commitFails: nat -> bool, n: nat): (k: nat)
    ensures k <= n && (forall j | 0 <= j < k :: !commitFails(j)) && (k < n ==> commitFails(k))
  {
    if n == 0 then 0
    else
      var k := Commits(commitFails, n - 1);
      if k < n - 1 || commitFails(n - 1) then k else n
  }

  /** The dataset after the first `k` chunks. */
  function AfterChunks(mode: string, dataset: Option<seq<ArrowRow>>, chunks: seq<seq<Batch>>,
                       k: nat): Option<seq<ArrowRow>>
    requires ChunksInLockstep(chunks) && k <= |chunks| && KeptRows(mode, dataset).Some?
  {
    if k == 0 then dataset else Some(KeptRows(mode, dataset).value + Delivered(chunks[..k]))
  }

  /** The number of chunks that a run commits. */
  function CommittedChunks(mode: string, commitFails: nat -> bool, dataset: Option<seq<ArrowRow>>, n: nat): (k: nat)
    ensures k <= n
  {
    if KeptRows(mode, dataset).None? then 0 else Commits(commitFails, n)
  }

  lemma {:induction false} FeedIsInLockstep(source: Source, config: Config)
    requires WellFormed(source)
    ensures ChunksInLockstep(FeedFrom(source, config, 0).chunks)
    ensures forall i | 0 <= i < |FeedFrom(source, config, 0).chunks| :: FeedFrom(source, config, 0).chunks[i] != []
  {
    StreamedRows(source, config);
    FeedIsNonEmpty(source, config, 0);
  }

  lemma {:induction false} FeedIsNonEmpty(source: Source, config: Config, pos: nat)
    requires WellFormed(source) && pos <= |source.rows|
    ensures forall i | 0 <= i < |FeedFrom(source, config, pos).chunks| :: FeedFrom(source, config, pos).chunks[i] != []
    decreases |source.rows| - pos
  {
    if pos < |source.rows| {
      FeedIsNonEmpty(source, config, FetchEnd(source, config, pos));
    }
  }

  lemma {:induction false} DeliveredSnoc(chunks: seq<seq<Batch>>, k: nat)
    requires ChunksInLockstep(chunks) && k < |chunks|
    ensures Delivered(chunks[..k + 1]) == Delivered(chunks[..k]) + Flatten(chunks[k])
    decreases k
  {
    if k == 0 {
      assert chunks[..1][1..] == [];
      assert chunks[..0] == [];
    } else {
      DeliveredSnoc(chunks[1..], k - 1);
      assert chunks[..k + 1][1..] == chunks[1..][..k] && chunks[..k][1..] == chunks[1..][..k - 1];
    }
  }

  ghost predicate Running(h: Handler, mode: string, commitFails: nat -> bool, dataset: Option<seq<ArrowRow>>,
                          feed: Feed, rest: Feed, k: nat)
    reads h
    requires ChunksInLockstep(feed.chunks)
  {
    && h.mode == mode && h.commitFails == commitFails
    && k <= |feed.chunks| && rest == Feed(feed.chunks[k..], feed.complete)
    && h.commits == k && h.first == (k == 0)
    && (if k == 0 then h.dataset == dataset
        else KeptRows(mode, dataset).Some? && h.dataset == AfterChunks(mode, dataset, feed.chunks, k))
    && (forall j | 0 <= j < k :: !commitFails(j))
  }

  /** How a run ends: `k` chunks are committed. */
  ghost predicate Ended(mode: string, source: Source, commitFails: nat -> bool, dataset: Option<seq<ArrowRow>>,
                        feed: Feed,
                        r: Result<nat, string>, after: Option<seq<ArrowRow>>)
    requires ChunksInLockstep(feed.chunks)
  {
    var k := CommittedChunks(mode, commitFails, dataset, |feed.chunks|);
    && after == (if k == 0 then dataset else AfterChunks(mode, dataset, feed.chunks, k))
    && (r.Ok? <==> feed.complete && k == |feed.chunks|)
    && (r.Ok? ==> r.value == |source.rows|)
  }

  /** A run that gets no further than `k` chunks. */
  lemma {:induction false} EndsHere(mode: string, source: Source, commitFails: nat -> bool,
                                    dataset: Option<seq<ArrowRow>>, feed: Feed, k: nat, r: Result<nat, string>,
                                    after: Option<seq<ArrowRow>>)
    requires ChunksInLockstep(feed.chunks) && k <= |feed.chunks| && forall j | 0 <= j < k :: !commitFails(j)
    requires if k == 0 then after == dataset
             else KeptRows(mode, dataset).Some? && after == AfterChunks(mode, dataset, feed.chunks, k)
    requires k == |feed.chunks| || KeptRows(mode, dataset).None? || commitFails(k)
    requires r.Ok? <==> feed.complete && k == |feed.chunks|
    requires r.Ok? ==> r.value == |source.rows|
    ensures Ended(mode, source, commitFails, dataset, feed, r, after)
  {
    StopsHere(mode, commitFails, dataset, |feed.chunks|, k);
  }

  lemma {:induction false} CommitStep(mode: string, dataset: Option<seq<ArrowRow>>, chunks: seq<seq<Batch>>, k: nat,
                                      before: Option<seq<ArrowRow>>, after: Option<seq<ArrowRow>>)
    requires ChunksInLockstep(chunks) && k < |chunks|
    requires if k == 0 then before == dataset
             else KeptRows(mode, dataset).Some? && before == AfterChunks(mode, dataset, chunks, k)
    requires var base := if k == 0 then KeptRows(mode, before) else before;
             base.Some? && after == Some(base.value + Flatten(chunks[k]))
    ensures KeptRows(mode, dataset).Some? && after == AfterChunks(mode, dataset, chunks, k + 1)
  {
    DeliveredSnoc(chunks, k);
    var kept := KeptRows(mode, dataset).value;
    if k == 0 {
      assert chunks[..0] == [] && [] + Flatten(chunks[0]) == Flatten(chunks[0]);
    } else {
      assert kept + Delivered(chunks[..k]) + Flatten(chunks[k]) == kept + (Delivered(chunks[..k]) + Flatten(chunks[k]));
    }
  }

  /** One round of the loop: fetch, convert, commit. */
  method Round(h: Handler, stream: Stream, ghost dataset: Option<seq<ArrowRow>>, ghost feed: Feed, ghost k: nat)
    returns (r: Option<Result<nat, string>>)
    requires stream.Valid() && ChunksInLockstep(feed.chunks)
    requires forall i | 0 <= i < |feed.chunks| :: feed.chunks[i] != []
    requires Running(h, h.mode, h.commitFails, dataset, feed, stream.Rest(), k)
    modifies h, stream
    ensures r.Some? ==> Ended(h.mode, stream.source, h.commitFails, dataset, feed, r.value, h.dataset)
    ensures r.None? ==> stream.Valid() && k < |feed.chunks| &&
                        Running(h, h.mode, h.commitFails, dataset, feed, stream.Rest(), k + 1)
  {
    var next := stream.Next();
    if next.Err? {
      EndsHere(h.mode, stream.source, h.commitFails, dataset, feed, k, Err(next.error), h.dataset);
      return Some(Err(next.error));
    }
    if next.value.None? {
      EndsHere(h.mode, stream.source, h.commitFails, dataset, feed, k, Ok(stream.totalRows), h.dataset);
      return Some(Ok(stream.totalRows));
    }
    assert next.value.value.batches == feed.chunks[k] && feed.chunks[k..][1..] == feed.chunks[k + 1..];
    ghost var before := h.dataset;
    var handled := h.Handle(next.value.value.batches);
    if handled.Err? {
      EndsHere(h.mode, stream.source, h.commitFails, dataset, feed, k, Err(handled.error), h.dataset);
      return Some(Err(handled.error));
    }
    CommitStep(h.mode, dataset, feed.chunks, k, before, h.dataset);
    return None;
  }

  /** A run: an invalid mode is refused; otherwise the dataset ends as the rows that the mode
      keeps, followed by the chunks committed before the first failure, and if there are
      none, as it was. The run succeeds exactly when the source is read to its end and every
      chunk is committed. */
  method LanceAppend(mode: string, source: Source, config: Config, commitFails: nat -> bool,
                     dataset: Option<seq<ArrowRow>>)
    returns (r: Result<nat, string>, after: Option<seq<ArrowRow>>)
    requires WellFormed(source)
    ensures ChunksInLockstep(FeedFrom(source, config, 0).chunks)
    ensures mode != "create" && mode != "append" && mode != "overwrite" ==> r.Err? && after == dataset
    ensures mode == "create" || mode == "append" || mode == "overwrite" ==>
              Ended(mode, source, commitFails, dataset, FeedFrom(source, config, 0), r, after)
  {
    FeedIsInLockstep(source, config);
    if !ValidMode(mode) {
      return Err("invalid mode"), dataset;
    }
    ghost var feed := FeedFrom(source, config, 0);
    var h := new Handler(mode, commitFails, dataset);
    var stream := new Stream(source, config);
    ghost var k := 0;
    while true
      invariant stream.Valid() && k <= |feed.chunks|
      invariant Running(h, h.mode, h.commitFails, dataset, feed, stream.Rest(), k)
      decreases |feed.chunks| - k
    {
      var ended := Round(h, stream, dataset, feed, k);
      if ended.Some? {
        return ended.value, h.dataset;
      }
      k := k + 1;
    }
  }

  lemma {:induction false} StopsHere(mode: string, commitFails: nat -> bool, dataset: Option<seq<ArrowRow>>, n: nat,
                                     k: nat)
    requires k <= n && (forall j | 0 <= j < k :: !commitFails(j))
    requires k > 0 ==> KeptRows(mode, dataset).Some?
    requires k == n || KeptRows(mode, dataset).None? || commitFails(k)
    ensures CommittedChunks(mode, commitFails, dataset, n) == k
  {
  }

  // ----- what the outcome depends on -----

  /** A successful run leaves the kept rows followed by all source rows; an empty source changes
      nothing, whatever the mode. */
  lemma {:induction false} SuccessHoldsAllRows(mode: string, source: Source, config: Config, commitFails: nat -> bool,
                                               dataset: Option<seq<ArrowRow>>, r: Result<nat, string>,
                                               after: Option<seq<ArrowRow>>)
    requires WellFormed(source) && ChunksInLockstep(FeedFrom(source, config, 0).chunks)
    requires Ended(mode, source, commitFails, dataset, FeedFrom(source, config, 0), r, after) && r.Ok?
    ensures if source.rows == [] then after == dataset
            else
              && KeptRows(mode, dataset).Some?
              && after == Some(KeptRows(mode, dataset).value + SourceRows(source, config))
  {
    var feed := FeedFrom(source, config, 0);
    StreamedRows(source, config);
    if source.rows != [] {
      assert feed.chunks != [];
      assert feed.chunks[..|feed.chunks|] == feed.chunks;
    }
  }

  /** Two successful runs agree, whatever their chunk sizes, batch sizes and buffer limits. */
  lemma {:induction false} OutcomeIsIndependent(mode: string, source: Source, a: Config, b: Config,
                                                commitFails: nat -> bool,
                                                dataset: Option<seq<ArrowRow>>, ra: Result<nat, string>,
                                                rb: Result<nat, string>,
                                                afterA: Option<seq<ArrowRow>>, afterB: Option<seq<ArrowRow>>)
    requires WellFormed(source) && a.overrides == b.overrides
    requires ChunksInLockstep(FeedFrom(source, a, 0).chunks) && ChunksInLockstep(FeedFrom(source, b, 0).chunks)
    requires Ended(mode, source, commitFails, dataset, FeedFrom(source, a, 0), ra, afterA)
    requires Ended(mode, source, commitFails, dataset, FeedFrom(source, b, 0), rb, afterB)
    requires ra.Ok? && rb.Ok?
    ensures ra == rb && afterA == afterB
  {
    SuccessHoldsAllRows(mode, source, a, commitFails, dataset, ra, afterA);
    SuccessHoldsAllRows(mode, source, b, commitFails, dataset, rb, afterB);
  }

  lemma {:induction false} DeliveredPrefix(chunks: seq<seq<Batch>>, k: nat)
    requires ChunksInLockstep(chunks) && k <= |chunks|
    ensures Delivered(chunks[..k]) <= Delivered(chunks)
    decreases |chunks| - k
  {
    if k == |chunks| {
      assert chunks[..k] == chunks;
    } else {
      DeliveredSnoc(chunks, k);
      DeliveredPrefix(chunks, k + 1);
    }
  }

  /** `after` holds the rows `kept`, then the first of the rows `all`. */
  ghost predicate Extends(kept: seq<ArrowRow>, all: seq<ArrowRow>, after: Option<seq<ArrowRow>>)
  {
    after.Some? && kept <= after.value && after.value[|kept|..] <= all
  }

  /** Whatever goes wrong, the dataset is as before, or it is what the mode keeps followed by the
      first source rows. */
  lemma {:induction false} FailureLeavesPrefix(mode: string, source: Source, config: Config, commitFails: nat -> bool,
                                               dataset: Option<seq<ArrowRow>>, r: Result<nat, string>,
                                               after: Option<seq<ArrowRow>>)
    requires WellFormed(source) && ChunksInLockstep(FeedFrom(source, config, 0).chunks)
    requires Ended(mode, source, commitFails, dataset, FeedFrom(source, config, 0), r, after)
    ensures after == dataset ||
            (KeptRows(mode, dataset).Some? && Extends(KeptRows(mode, dataset).value, SourceRows(source, config), after))
  {
    var feed := FeedFrom(source, config, 0);
    var k := CommittedChunks(mode, commitFails, dataset, |feed.chunks|);
    if k > 0 {
      StreamedRows(source, config);
      DeliveredPrefix(feed.chunks, k);
      var kept, rows := KeptRows(mode, dataset).value, Delivered(feed.chunks[..k]);
      assert (kept + rows)[|kept|..] == rows;
    }
  }

  // ----- the outcome mode by mode -----

  /** The dataset after `rows` were written: alone under 'create', for which there was none, and under
      'overwrite'; behind the old rows under 'append', for which there was one. */
  ghost predicate WrittenIn(mode: string, dataset: Option<seq<ArrowRow>>, rows: seq<ArrowRow>,
                            after: Option<seq<ArrowRow>>)
  {
    || (mode == "create" && dataset.None? && after == Some(rows))
    || (mode == "overwrite" && after == Some(rows))
    || (mode == "append" && dataset.Some? && after == Some(dataset.value + rows))
  }

  /** The outcome of a run. It succeeds exactly if the source is read to its end and, unless it has no rows,
      the mode fits the dataset and no commit fails; it then leaves all rows as the mode says. A failed
      run leaves the dataset as it was, or the first rows as the mode says. */
  lemma {:induction false} OutcomeByMode(mode: string, source: Source, config: Config, commitFails: nat -> bool,
                                         dataset: Option<seq<ArrowRow>>, r: Result<nat, string>,
                                         after: Option<seq<ArrowRow>>)
    requires WellFormed(source) && ChunksInLockstep(FeedFrom(source, config, 0).chunks)
    requires mode == "create" || mode == "append" || mode == "overwrite"
    requires Ended(mode, source, commitFails, dataset, FeedFrom(source, config, 0), r, after)
    ensures var chunks := FeedFrom(source, config, 0).chunks;
            r.Ok? <==> FeedFrom(source, config, 0).complete
                       && (chunks == [] || ((mode == "create" ==> dataset.None?) && (mode == "append" ==> dataset.Some?)
                                            && forall j | 0 <= j < |chunks| :: !commitFails(j)))
    ensures r.Ok? ==> if source.rows == [] then after == dataset
                      else WrittenIn(mode, dataset, SourceRows(source, config), after)
    ensures r.Err? ==> after == dataset ||
                       exists n :: 0 <= n <= |SourceRows(source, config)|
                                   && WrittenIn(mode, dataset, SourceRows(source, config)[..n], after)
  {
    if r.Ok? {
      SuccessHoldsAllRows(mode, source, config, commitFails, dataset, r, after);
    } else {
      FailureLeavesPrefix(mode, source, config, commitFails, dataset, r, after);
      if after != dataset {
        var kept, all := KeptRows(mode, dataset).value, SourceRows(source, config);
        var n := |after.value| - |kept|;
        assert after.value == kept + after.value[|kept|..] && after.value[|kept|..] == all[..n];
        assert WrittenIn(mode, dataset, all[..n], after);
      }
    }
  }
}
