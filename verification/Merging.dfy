/** What merging chunks of keyed rows does to a dataset with unique keys. */
module Merging {
  import opened Wrappers
  import opened Pieces

  /** A row with the values of its key columns. */
  datatype Entry<K, R> = Entry(key: K, row: R)

  /** What to do with source rows whose key the dataset has, and with the others. */
  datatype Modes = Modes(update: bool, insert: bool)

  ghost predicate NoRepeats<K, R>(source: seq<Entry<K, R>>)
  {
    forall i, j | 0 <= i < j < |source| :: source[i].key != source[j].key
  }

  ghost function KeysOf<K, R>(source: seq<Entry<K, R>>): set<K> {
    set i | 0 <= i < |source| :: source[i].key
  }

  /** The row of a key that occurs once. */
  ghost function RowFor<K, R>(source: seq<Entry<K, R>>, key: K): R
    requires NoRepeats(source) && key in KeysOf(source)
  {
    var i :| 0 <= i < |source| && source[i].key == key;
    source[i].row
  }

  /** One merge, as the SDK promises it for source keys that do not repeat: matched rows are
      replaced or kept, unmatched ones inserted or ignored, and all other rows stay. */
  ghost function Merged<K, R>(modes: Modes, target: map<K, R>, source: seq<Entry<K, R>>): map<K, R>
    requires NoRepeats(source)
  {
    map key | key in target.Keys + (if modes.insert then KeysOf(source) else {}) ::
      if key in KeysOf(source) && (key !in target || modes.update) then RowFor(source, key) else target[key]
  }

  /** One commit per chunk, each on the dataset that the one before left. */
  ghost function MergedChunks<K, R>(modes: Modes, target: map<K, R>, chunks: seq<seq<Entry<K, R>>>): map<K, R>
    requires forall i | 0 <= i < |chunks| :: NoRepeats(chunks[i])
    decreases |chunks|
  {
    if chunks == [] then target
    else Merged(modes, MergedChunks(modes, target, chunks[..|chunks| - 1]), chunks[|chunks| - 1])
  }

  // ----- row by row -----

  function Step<K(==), R>(modes: Modes, target: map<K, R>, e: Entry<K, R>): map<K, R> {
    if (if e.key in target then modes.update else modes.insert) then target[e.key := e.row] else target
  }

  /** Merging row by row; repeated keys are allowed. */
  function Steps<K(==), R>(modes: Modes, target: map<K, R>, source: seq<Entry<K, R>>): map<K, R>
    decreases |source|
  {
    if source == [] then target
    else Step(modes, Steps(modes, target, source[..|source| - 1]), source[|source| - 1])
  }

  lemma {:induction false} StepsAppend<K, R>(modes: Modes, target: map<K, R>, a: seq<Entry<K, R>>, b: seq<Entry<K, R>>)
    ensures Steps(modes, target, a + b) == Steps(modes, Steps(modes, target, a), b)
    decreases |b|
  {
    if b == [] {
      assert a + b == a;
    } else {
      StepsAppend(modes, target, a, b[..|b| - 1]);
      assert (a + b)[..|a + b| - 1] == a + b[..|b| - 1];
    }
  }

  /** A merge of keys that do not repeat can be done row by row. */
  lemma {:induction false} MergedIsSteps<K, R>(modes: Modes, target: map<K, R>, source: seq<Entry<K, R>>)
    requires NoRepeats(source)
    ensures Merged(modes, target, source) == Steps(modes, target, source)
    decreases |source|
  {
    if source == [] {
      assert Merged(modes, target, source) == target;
    } else {
      var before, e := source[..|source| - 1], source[|source| - 1];
      assert source == before + [e];
      MergedIsSteps(modes, target, before);
      MergedStep(modes, target, before, e);
    }
  }

  lemma {:induction false} RowForSnoc<K, R>(source: seq<Entry<K, R>>, e: Entry<K, R>)
    requires NoRepeats(source + [e])
    ensures NoRepeats(source) && e.key !in KeysOf(source) && KeysOf(source + [e]) == KeysOf(source) + {e.key}
    ensures RowFor(source + [e], e.key) == e.row
    ensures forall key | key in KeysOf(source) :: RowFor(source + [e], key) == RowFor(source, key)
  {
    var all := source + [e];
    assert all[|source|] == e && forall i | 0 <= i < |source| :: all[i] == source[i];
    assert forall i | 0 <= i < |source| :: source[i].key != e.key;
  }

  lemma {:induction false} MergedStep<K, R>(modes: Modes, target: map<K, R>, source: seq<Entry<K, R>>, e: Entry<K, R>)
    requires NoRepeats(source + [e])
    ensures NoRepeats(source)
    ensures Merged(modes, target, source + [e]) == Step(modes, Merged(modes, target, source), e)
  {
    RowForSnoc(source, e);
    var before, after := Merged(modes, target, source), Merged(modes, target, source + [e]);
    assert e.key in before <==> e.key in target;
    forall key | key != e.key
      ensures (key in after <==> key in before) && (key in before ==> after[key] == before[key])
    {
    }
  }

  /** Merging chunk by chunk is merging row by row. */
  lemma {:induction false} ChunksAreSteps<K, R>(modes: Modes, target: map<K, R>, chunks: seq<seq<Entry<K, R>>>)
    requires forall i | 0 <= i < |chunks| :: NoRepeats(chunks[i])
    ensures MergedChunks(modes, target, chunks) == Steps(modes, target, Concat(chunks))
    decreases |chunks|
  {
    if chunks != [] {
      var before, last := chunks[..|chunks| - 1], chunks[|chunks| - 1];
      assert chunks == before + [last];
      ChunksAreSteps(modes, target, before);
      MergedIsSteps(modes, MergedChunks(modes, target, before), last);
      ConcatAppend(before, [last]);
      assert Concat(chunks) == Concat(before) + last by {
        assert [last][1..] == [] && Concat([last]) == last + [];
      }
      StepsAppend(modes, target, Concat(before), last);
    }
  }

  /** If no key repeats in the whole source, merging it in chunks is one merge, in all four modes
      and for every cut. */
  lemma {:induction false} ChunkedIsOneMerge<K, R>(modes: Modes, target: map<K, R>, chunks: seq<seq<Entry<K, R>>>)
    requires NoRepeats(Concat(chunks))
    ensures forall i | 0 <= i < |chunks| :: NoRepeats(chunks[i])
    ensures MergedChunks(modes, target, chunks) == Merged(modes, target, Concat(chunks))
  {
    ChunksDoNotRepeat(chunks);
    ChunksAreSteps(modes, target, chunks);
    MergedIsSteps(modes, target, Concat(chunks));
  }

  lemma {:induction false} ChunksDoNotRepeat<K, R>(chunks: seq<seq<Entry<K, R>>>)
    requires NoRepeats(Concat(chunks))
    ensures forall i | 0 <= i < |chunks| :: NoRepeats(chunks[i])
    decreases |chunks|
  {
    if chunks != [] {
      var head, tail := chunks[0], Concat(chunks[1..]);
      PartsDoNotRepeat(head, tail);
      ChunksDoNotRepeat(chunks[1..]);
      forall i | 0 <= i < |chunks| ensures NoRepeats(chunks[i]) {
        if i == 0 {
          assert NoRepeats(head);
        } else {
          assert NoRepeats(chunks[1..][i - 1]);
        }
      }
    }
  }

  lemma {:induction false} PartsDoNotRepeat<K, R>(a: seq<Entry<K, R>>, b: seq<Entry<K, R>>)
    requires NoRepeats(a + b)
    ensures NoRepeats(a) && NoRepeats(b)
  {
    var all := a + b;
    forall i, j | 0 <= i < j < |a| ensures a[i].key != a[j].key {
      assert all[i] == a[i] && all[j] == a[j];
    }
    forall i, j | 0 <= i < j < |b| ensures b[i].key != b[j].key {
      assert all[|a| + i] == b[i] && all[|a| + j] == b[j];
    }
  }

  // ----- running again -----

  /** What row-by-row merging leaves under one key. */
  ghost function Left<K, R>(modes: Modes, cur: Option<R>, source: seq<Entry<K, R>>, key: K): Option<R>
    decreases |source|
  {
    if source == [] then cur
    else
      var c, e := Left(modes, cur, source[..|source| - 1], key), source[|source| - 1];
      if e.key == key && (if c.Some? then modes.update else modes.insert) then Some(e.row) else c
  }

  ghost function At<K, R>(target: map<K, R>, key: K): Option<R> {
    if key in target then Some(target[key]) else None
  }

  lemma {:induction false} StepsAt<K, R>(modes: Modes, target: map<K, R>, source: seq<Entry<K, R>>, key: K)
    ensures At(Steps(modes, target, source), key) == Left(modes, At(target, key), source, key)
    decreases |source|
  {
    if source != [] {
      StepsAt(modes, target, source[..|source| - 1], key);
    }
  }

  /** The row of the first, or the last, entry with the key. */
  ghost function Pick<K, R>(source: seq<Entry<K, R>>, key: K, last: bool): Option<R>
    decreases |source|
  {
    if source == [] then None
    else
      var p, e := Pick(source[..|source| - 1], key, last), source[|source| - 1];
      if e.key == key && (last || p.None?) then Some(e.row) else p
  }

  /** Updating leaves the last row of a key, inserting alone the first one. */
  lemma {:induction false} LeftIs<K, R>(modes: Modes, cur: Option<R>, source: seq<Entry<K, R>>, key: K)
    ensures Left(modes, cur, source, key) ==
            if Pick(source, key, modes.update).Some? && (if cur.Some? then modes.update else modes.insert)
            then Pick(source, key, modes.update) else cur
    decreases |source|
  {
    if source != [] {
      LeftIs(modes, cur, source[..|source| - 1], key);
    }
  }

  /** Merging the same rows a second time changes nothing. */
  lemma {:induction false} StepsTwice<K(!new), R>(modes: Modes, target: map<K, R>, source: seq<Entry<K, R>>)
    ensures Steps(modes, Steps(modes, target, source), source) == Steps(modes, target, source)
  {
    var once := Steps(modes, target, source);
    var twice := Steps(modes, once, source);
    forall key ensures At(twice, key) == At(once, key) {
      StepsAt(modes, target, source, key);
      StepsAt(modes, once, source, key);
      LeftIs(modes, At(target, key), source, key);
      LeftIs(modes, At(once, key), source, key);
    }
    SameAt(twice, once);
  }

  lemma {:induction false} SameAt<K(!new), R>(a: map<K, R>, b: map<K, R>)
    requires forall key :: At(a, key) == At(b, key)
    ensures a == b
  {
    forall key ensures (key in a <==> key in b) && (key in a ==> a[key] == b[key]) {
      assert At(a, key) == At(b, key);
    }
  }

  /** Healing: after a run that stopped with the rows of `done` merged, merging all rows from the
      start gives what one uninterrupted run would have given, in all four modes. */
  lemma {:induction false} RerunHeals<K(!new), R>(modes: Modes, target: map<K, R>, done: seq<Entry<K, R>>,
                                        rest: seq<Entry<K, R>>)
    ensures Steps(modes, Steps(modes, target, done), done + rest) == Steps(modes, target, done + rest)
  {
    var broken := Steps(modes, target, done);
    StepsAppend(modes, broken, done, rest);
    StepsTwice(modes, target, done);
    StepsAppend(modes, target, done, rest);
  }

  /** The same with commits per chunk: the second run may even cut the source differently, as
      long as no key repeats inside a chunk. */
  lemma {:induction false} RerunHealsChunks<K(!new), R>(modes: Modes, target: map<K, R>, chunks: seq<seq<Entry<K, R>>>,
                                              k: nat,
                                                         again: seq<seq<Entry<K, R>>>)
    requires k <= |chunks| && Concat(again) == Concat(chunks)
    requires forall i | 0 <= i < |chunks| :: NoRepeats(chunks[i])
    requires forall i | 0 <= i < |again| :: NoRepeats(again[i])
    ensures MergedChunks(modes, MergedChunks(modes, target, chunks[..k]), again) == MergedChunks(modes, target, chunks)
  {
    ChunksAreSteps(modes, target, chunks[..k]);
    ChunksAreSteps(modes, target, chunks);
    ChunksAreSteps(modes, MergedChunks(modes, target, chunks[..k]), again);
    ConcatAppend(chunks[..k], chunks[k..]);
    assert chunks[..k] + chunks[k..] == chunks;
    RerunHeals(modes, target, Concat(chunks[..k]), Concat(chunks[k..]));
  }
}
