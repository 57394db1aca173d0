/** What attaching and reconciling do and report, table by table, in terms of the catalogue, the remote
    tables and the statements that fail (src/fdw/attach_namespace.rs:23-326, src/fdw/sync_namespace.rs:28-408). */
module SyncReports {
  import opened Wrappers
  import opened Ordered
  import opened Naming
  import opened Mapping
  import opened Attach
  import opened Sync
  import opened SyncTheorems

  // ----- the local tables of an id -----

  /** A foreign table of the server at `l` has the id `id`, which lies below the root. */
  ghost predicate Owns(w: World, root: TableId, rels: Rels, l: Loc, id: TableId)
  {
    && l in rels && rels[l].ForeignTable? && rels[l].server == w.server && rels[l].tableId == GoodId(id)
    && id != [] && root <= id
  }

  /** The last such table, in the order of locations. */
  ghost predicate Home(w: World, root: TableId, rels: Rels, l: Loc, id: TableId)
  {
    Owns(w, root, rels, l, id) && forall m | m in rels && Owns(w, root, rels, m, id) :: m == l || PairPrecedes(m, l)
  }

  ghost predicate Homeless(w: World, root: TableId, rels: Rels, id: TableId)
  {
    forall l | l in rels :: !Owns(w, root, rels, l, id)
  }

  /** `local` has the last table of every id that has one. */
  ghost predicate Homes(w: World, root: TableId, rels: Rels, local: map<TableId, Local>)
  {
    && (forall id :: id in local <==> !Homeless(w, root, rels, id))
    && (forall id | id in local :: HomeIs(w, root, rels, id, local[id]))
  }

  ghost predicate HomeIs(w: World, root: TableId, rels: Rels, id: TableId, x: Local)
  {
    && Home(w, root, rels, x.loc, id)
    && x.columns == rels[x.loc].columns && x.batchSize == rels[x.loc].batchSize
  }

  /** All locations of the catalogue, in order. */
  ghost predicate Lists(keys: seq<Loc>, rels: Rels)
  {
    && (forall l :: l in keys <==> l in rels)
    && (forall i, j | 0 <= i < j < |keys| :: PairPrecedes(keys[i], keys[j]))
  }

  /** The same for the first `n` locations. */
  ghost predicate HomesAmong(w: World, root: TableId, rels: Rels, keys: seq<Loc>, n: nat, local: map<TableId, Local>)
    requires n <= |keys|
  {
    && (forall i, id | 0 <= i < n && Owns(w, root, rels, keys[i], id) :: id in local)
    && (forall id | id in local :: HomeAmong(w, root, rels, keys, n, id, local[id]))
  }

  ghost predicate HomeAmong(w: World, root: TableId, rels: Rels, keys: seq<Loc>, n: nat, id: TableId, x: Local)
    requires n <= |keys|
  {
    && Owns(w, root, rels, x.loc, id)
    && x.columns == rels[x.loc].columns && x.batchSize == rels[x.loc].batchSize
    && exists i :: 0 <= i < n && LastOwner(w, root, rels, keys, n, id, x.loc, i)
  }

  ghost predicate LastOwner(w: World, root: TableId, rels: Rels, keys: seq<Loc>, n: nat, id: TableId, l: Loc, i: nat)
    requires i < n <= |keys|
  {
    keys[i] == l && forall j | i < j < n :: !Owns(w, root, rels, keys[j], id)
  }

  lemma {:induction false} IntrospectSnoc(w: World, root: TableId, rels: Rels, keys: seq<Loc>, n: nat)
    requires 0 < n <= |keys| && forall l | l in keys :: l in rels
    ensures keys[n - 1] in rels
    ensures Introspect(w, root, rels, keys[..n]) ==
            IntrospectOne(w, root, Introspect(w, root, rels, keys[..n - 1]), keys[n - 1], rels[keys[n - 1]])
  {
    assert keys[..n][..n - 1] == keys[..n - 1];
    assert keys[n - 1] in keys;
  }

  lemma {:induction false} HomesStep(w: World, root: TableId, rels: Rels, keys: seq<Loc>, n: nat, found: Found)
    requires 0 < n <= |keys| && keys[n - 1] in rels && HomesAmong(w, root, rels, keys, n - 1, found.local)
    ensures HomesAmong(w, root, rels, keys, n, IntrospectOne(w, root, found, keys[n - 1], rels[keys[n - 1]]).local)
  {
    var l := keys[n - 1];
    var local := IntrospectOne(w, root, found, l, rels[l]).local;
    forall id | id in local ensures HomeAmong(w, root, rels, keys, n, id, local[id]) {
      if Owns(w, root, rels, l, id) {
        assert LastOwner(w, root, rels, keys, n, id, l, n - 1);
      } else {
        assert HomeAmong(w, root, rels, keys, n - 1, id, found.local[id]);
        var i :| 0 <= i < n - 1 && LastOwner(w, root, rels, keys, n - 1, id, local[id].loc, i);
        assert LastOwner(w, root, rels, keys, n, id, local[id].loc, i);
      }
    }
  }

  // ----- faulty local tables -----

  /** A table of the server whose id cannot be read or is empty, or which shares its id with an earlier one. */
  ghost predicate Faulty(w: World, root: TableId, rels: Rels, l: Loc)
  {
    && l in rels && rels[l].ForeignTable? && rels[l].server == w.server
    && (|| rels[l].tableId == BadId || rels[l].tableId == GoodId([])
        || exists id, m :: Owns(w, root, rels, l, id) && Owns(w, root, rels, m, id) && PairPrecedes(m, l))
  }

  /** The error row of a faulty table, with its id if that can be read. */
  ghost predicate FaultRow(rels: Rels, row: Row)
  {
    && row.loc in rels && rels[row.loc].ForeignTable?
    && row.id == (if rels[row.loc].tableId.GoodId? then rels[row.loc].tableId.id else [])
    && row.action == ErrorAction && row.status == Failed
  }

  ghost predicate Ascends(rows: seq<Row>)
  {
    forall i, j | 0 <= i < j < |rows| :: PairPrecedes(rows[i].loc, rows[j].loc)
  }

  ghost predicate Reports(rows: seq<Row>, l: Loc)
  {
    exists k :: 0 <= k < |rows| && rows[k].loc == l
  }

  ghost predicate AmongFirst(rows: seq<Row>, keys: seq<Loc>, n: nat)
    requires n <= |keys|
  {
    forall k | 0 <= k < |rows| :: KeyBefore(keys, n, rows[k].loc)
  }

  ghost predicate KeyBefore(keys: seq<Loc>, n: nat, l: Loc)
    requires n <= |keys|
  {
    exists i :: 0 <= i < n && keys[i] == l
  }

  /** The faulty ones among the first `n` locations, in their order. */
  ghost predicate FaultsAmong(w: World, root: TableId, rels: Rels, keys: seq<Loc>, n: nat, rows: seq<Row>)
    requires n <= |keys|
  {
    && Ascends(rows)
    && (forall k | 0 <= k < |rows| :: FaultRow(rels, rows[k]) && Faulty(w, root, rels, rows[k].loc))
    && AmongFirst(rows, keys, n)
    && (forall i | 0 <= i < n && Faulty(w, root, rels, keys[i]) :: Reports(rows, keys[i]))
  }

  lemma {:induction false} NoFaults(w: World, root: TableId, rels: Rels, keys: seq<Loc>)
    ensures FaultsAmong(w, root, rels, keys, 0, [])
  {
  }

  /** What holds before the first location and from each to the next holds in the end. */
  lemma {:induction false} IntrospectKeeps(w: World, root: TableId, rels: Rels, keys: seq<Loc>, n: nat,
                                           p: (nat, Found) -> bool)
    requires n <= |keys| && forall l | l in keys :: l in rels
    requires p(0, Found(map[], []))
    requires forall k: nat, f | k < n && keys[k] in rels && p(k, f) ::
               p(k + 1, IntrospectOne(w, root, f, keys[k], rels[keys[k]]))
    ensures p(n, Introspect(w, root, rels, keys[..n]))
    decreases n
  {
    if n > 0 {
      IntrospectKeeps(w, root, rels, keys, n - 1, p);
      IntrospectSnoc(w, root, rels, keys, n);
    }
  }

  /** What introspection has found at the first `n` locations. */
  ghost predicate FoundAmong(w: World, root: TableId, rels: Rels, keys: seq<Loc>, n: nat, found: Found)
  {
    n <= |keys| && FaultsAmong(w, root, rels, keys, n, found.errors) && HomesAmong(w, root, rels, keys, n, found.local)
  }

  lemma {:induction false} IntrospectFinds(w: World, root: TableId, rels: Rels, keys: seq<Loc>)
    requires Lists(keys, rels)
    ensures FoundAmong(w, root, rels, keys, |keys|, Introspect(w, root, rels, keys[..|keys|]))
  {
    NoFaults(w, root, rels, keys);
    forall k: nat, f | k < |keys| && keys[k] in rels && FoundAmong(w, root, rels, keys, k, f)
      ensures FoundAmong(w, root, rels, keys, k + 1, IntrospectOne(w, root, f, keys[k], rels[keys[k]]))
    {
      HomesStep(w, root, rels, keys, k + 1, f);
      FaultsStep(w, root, rels, keys, k + 1, f);
    }
    var p: (nat, Found) -> bool := (k: nat, f) => FoundAmong(w, root, rels, keys, k, f);
    IntrospectKeeps(w, root, rels, keys, |keys|, p);
  }

  /** A location is faulty exactly if introspection adds an error there. */
  lemma {:induction false} FaultyIff(w: World, root: TableId, rels: Rels, keys: seq<Loc>, n: nat, found: Found)
    requires Lists(keys, rels) && 0 < n <= |keys| && keys[n - 1] in rels
    requires HomesAmong(w, root, rels, keys, n - 1, found.local)
    ensures var l := keys[n - 1];
            Faulty(w, root, rels, l) <==>
            && rels[l].ForeignTable? && rels[l].server == w.server && !rels[l].tableId.NoId?
            && (|| rels[l].tableId.BadId? || rels[l].tableId.id == []
                || (root <= rels[l].tableId.id && rels[l].tableId.id in found.local))
  {
    var l := keys[n - 1];
    if rels[l].ForeignTable? && rels[l].server == w.server && rels[l].tableId.GoodId? && rels[l].tableId.id != [] {
      var id := rels[l].tableId.id;
      if root <= id && id in found.local {
        FoundIsShared(w, root, rels, keys, n, id, found.local[id]);
      }
      if x, m :| Owns(w, root, rels, l, x) && Owns(w, root, rels, m, x) && PairPrecedes(m, l) {
        SharedIsFound(w, root, rels, keys, n, id, m, found);
      }
    }
  }

  /** An id found before is shared with an earlier table. */
  lemma {:induction false} FoundIsShared(w: World, root: TableId, rels: Rels, keys: seq<Loc>, n: nat, id: TableId,
                                         x: Local)
    requires 0 < n <= |keys| && HomeAmong(w, root, rels, keys, n - 1, id, x)
    requires forall i, j | 0 <= i < j < |keys| :: PairPrecedes(keys[i], keys[j])
    ensures Owns(w, root, rels, x.loc, id) && PairPrecedes(x.loc, keys[n - 1])
  {
    var i :| 0 <= i < n - 1 && LastOwner(w, root, rels, keys, n - 1, id, x.loc, i);
  }

  lemma {:induction false} SharedIsFound(w: World, root: TableId, rels: Rels, keys: seq<Loc>, n: nat, id: TableId,
                                         m: Loc, found: Found)
    requires Lists(keys, rels) && 0 < n <= |keys| && HomesAmong(w, root, rels, keys, n - 1, found.local)
    requires Owns(w, root, rels, m, id) && PairPrecedes(m, keys[n - 1])
    ensures id in found.local
  {
    EarlierIndex(keys, n - 1, m);
    var i :| 0 <= i < n - 1 && keys[i] == m;
    assert Owns(w, root, rels, keys[i], id);
  }

  lemma {:induction false} EarlierIndex(keys: seq<Loc>, n: nat, m: Loc)
    requires n < |keys| && m in keys && PairPrecedes(m, keys[n])
    requires forall i, j | 0 <= i < j < |keys| :: PairPrecedes(keys[i], keys[j])
    ensures exists i :: 0 <= i < n && keys[i] == m
  {
    PairPrecedesOneWay(m, keys[n]);
    var i :| 0 <= i < |keys| && keys[i] == m;
    assert i < n;
  }

  lemma {:induction false} FaultsStep(w: World, root: TableId, rels: Rels, keys: seq<Loc>, n: nat, found: Found)
    requires Lists(keys, rels) && 0 < n <= |keys| && keys[n - 1] in rels
    requires FaultsAmong(w, root, rels, keys, n - 1, found.errors)
    requires HomesAmong(w, root, rels, keys, n - 1, found.local)
    ensures FaultsAmong(w, root, rels, keys, n, IntrospectOne(w, root, found, keys[n - 1], rels[keys[n - 1]]).errors)
  {
    var l := keys[n - 1];
    FaultyIff(w, root, rels, keys, n, found);
    var errors := IntrospectOne(w, root, found, l, rels[l]).errors;
    if Faulty(w, root, rels, l) {
      var id := if rels[l].tableId.GoodId? then rels[l].tableId.id else [];
      assert errors == found.errors + [Row(id, l, ErrorAction, Failed)];
      OneMoreFault(w, root, rels, keys, n, found.errors, Row(id, l, ErrorAction, Failed));
    } else {
      assert errors == found.errors;
      SameFaults(w, root, rels, keys, n, found.errors);
    }
  }

  lemma {:induction false} SameFaults(w: World, root: TableId, rels: Rels, keys: seq<Loc>, n: nat, rows: seq<Row>)
    requires 0 < n <= |keys| && FaultsAmong(w, root, rels, keys, n - 1, rows) && !Faulty(w, root, rels, keys[n - 1])
    ensures FaultsAmong(w, root, rels, keys, n, rows)
  {
    forall k | 0 <= k < |rows| ensures KeyBefore(keys, n, rows[k].loc) {
      assert KeyBefore(keys, n - 1, rows[k].loc);
    }
  }

  lemma {:induction false} OneMoreFault(w: World, root: TableId, rels: Rels, keys: seq<Loc>, n: nat, rows: seq<Row>,
                                        row: Row)
    requires Lists(keys, rels) && 0 < n <= |keys| && FaultsAmong(w, root, rels, keys, n - 1, rows)
    requires row.loc == keys[n - 1] && FaultRow(rels, row) && Faulty(w, root, rels, keys[n - 1])
    ensures FaultsAmong(w, root, rels, keys, n, rows + [row])
  {
    OneMoreAscends(keys, n, rows, row);
    OneMoreReports(w, root, rels, keys, n, rows, row);
  }

  lemma {:induction false} OneMoreReports(w: World, root: TableId, rels: Rels, keys: seq<Loc>, n: nat, rows: seq<Row>,
                                          row: Row)
    requires 0 < n <= |keys| && row.loc == keys[n - 1]
    requires forall i | 0 <= i < n - 1 && Faulty(w, root, rels, keys[i]) :: Reports(rows, keys[i])
    ensures forall i | 0 <= i < n && Faulty(w, root, rels, keys[i]) :: Reports(rows + [row], keys[i])
  {
    forall i | 0 <= i < n && Faulty(w, root, rels, keys[i]) ensures Reports(rows + [row], keys[i]) {
      if i < n - 1 {
        ReportsMore(rows, row, keys[i]);
      } else {
        assert (rows + [row])[|rows|].loc == keys[i];
      }
    }
  }

  lemma {:induction false} ReportsMore(rows: seq<Row>, row: Row, l: Loc)
    requires Reports(rows, l)
    ensures Reports(rows + [row], l)
  {
    var k :| 0 <= k < |rows| && rows[k].loc == l;
    assert (rows + [row])[k].loc == l;
  }

  lemma {:induction false} OneMoreAscends(keys: seq<Loc>, n: nat, rows: seq<Row>, row: Row)
    requires 0 < n <= |keys| && forall i, j | 0 <= i < j < |keys| :: PairPrecedes(keys[i], keys[j])
    requires Ascends(rows) && AmongFirst(rows, keys, n - 1) && row.loc == keys[n - 1]
    ensures Ascends(rows + [row]) && AmongFirst(rows + [row], keys, n)
  {
    var more := rows + [row];
    forall k | 0 <= k < |more| ensures KeyBefore(keys, n, more[k].loc) {
      if k < |rows| {
        assert KeyBefore(keys, n - 1, rows[k].loc);
      }
    }
    forall k | 0 <= k < |rows| ensures PairPrecedes(more[k].loc, row.loc) {
      assert KeyBefore(keys, n - 1, rows[k].loc);
    }
  }

  /** The error rows of a run: exactly the faulty tables, in the order of their locations. */
  ghost predicate FaultsReported(w: World, root: TableId, rels: Rels, rows: seq<Row>)
  {
    && Ascends(rows)
    && (forall k | 0 <= k < |rows| :: FaultRow(rels, rows[k]) && Faulty(w, root, rels, rows[k].loc))
    && (forall l | Faulty(w, root, rels, l) :: Reports(rows, l))
  }

  lemma {:induction false} FaultsAreReported(w: World, root: TableId, rels: Rels)
    ensures FaultsReported(w, root, rels, Introspection(w, root, rels).errors)
  {
    var keys := SortedPairs(rels.Keys);
    assert Lists(keys, rels);
    IntrospectFinds(w, root, rels, keys);
    assert keys[..|keys|] == keys;
    var rows := Introspection(w, root, rels).errors;
    forall l | Faulty(w, root, rels, l) ensures Reports(rows, l) {
      assert l in keys;
      var i :| 0 <= i < |keys| && keys[i] == l;
    }
  }

  lemma {:induction false} IntrospectionHomes(w: World, root: TableId, rels: Rels)
    ensures Homes(w, root, rels, Introspection(w, root, rels).local)
  {
    var keys := SortedPairs(rels.Keys);
    IntrospectFinds(w, root, rels, keys);
    assert keys[..|keys|] == keys;
    var local := Introspection(w, root, rels).local;
    forall id ensures id in local <==> !Homeless(w, root, rels, id) {
      if !Homeless(w, root, rels, id) {
        var l :| l in rels && Owns(w, root, rels, l, id);
        assert l in keys;
        var i :| 0 <= i < |keys| && keys[i] == l;
      }
      if id in local {
        assert HomeAmong(w, root, rels, keys, |keys|, id, local[id]);
      }
    }
    forall id | id in local ensures HomeIs(w, root, rels, id, local[id]) {
      assert HomeAmong(w, root, rels, keys, |keys|, id, local[id]);
      assert Lists(keys, rels);
      LastIsHome(w, root, rels, keys, id, local[id].loc);
    }
  }

  lemma {:induction false} LastIsHome(w: World, root: TableId, rels: Rels, keys: seq<Loc>, id: TableId, l: Loc)
    requires Lists(keys, rels) && Owns(w, root, rels, l, id)
    requires exists i :: 0 <= i < |keys| && LastOwner(w, root, rels, keys, |keys|, id, l, i)
    ensures Home(w, root, rels, l, id)
  {
    var i :| 0 <= i < |keys| && LastOwner(w, root, rels, keys, |keys|, id, l, i);
    forall m | m in rels && Owns(w, root, rels, m, id) ensures m == l || PairPrecedes(m, l) {
      assert m in keys;
      var j :| 0 <= j < |keys| && keys[j] == m;
      assert j <= i;
    }
  }

  // ----- one table -----

  /** A table that is to be attached at a location that held `cur`: skipped if it is there already, an
      error if anything else is, left alone in a dry run, and otherwise created unless the remote table
      cannot be loaded or the statement fails. */
  ghost predicate Made(w: World, batch: Option<int>, dryRun: bool, cur: Option<Relation>, id: TableId, loc: Loc,
                       failure: Action, row: Row, now: Option<Relation>)
  {
    && row.id == id && row.loc == loc
    && if cur.Some? then
         && now == cur
         && if cur.value.ForeignTable? && cur.value.server == w.server && cur.value.tableId == GoodId(id)
            then row.action == SkipExisting && row.status == Skipped
            else row.action == failure && row.status == Failed
       else if dryRun then now == None && row.action == CreateTable && row.status == Skipped
       else if w.declared(id, loc.1).Err? || w.createFails(loc) then
         now == None && row.action == failure && row.status == Failed
       else
         && now == Some(ForeignTable(w.server, GoodId(id), w.shown(w.declared(id, loc.1).value), batch))
         && row.action == CreateTable && row.status == Succeeded
  }

  lemma {:induction false} AttachMakes(w: World, batch: Option<int>, dryRun: bool, cur: Option<Relation>, id: TableId,
                                       loc: Loc, failure: Action)
    ensures var a := AttachAt(w, batch, dryRun, cur, id, loc);
            var row := if a.1.Ok? then Row(id, loc, a.1.value.0, a.1.value.1) else Row(id, loc, failure, Failed);
            Made(w, batch, dryRun, cur, id, loc, failure, row, a.0)
  {
  }

  /** The drift check of an entry cannot load the remote table. */
  ghost predicate Unloadable(w: World, root: TableId, rels: Rels, entry: (TableId, Loc))
  {
    Home(w, root, rels, entry.1, entry.0) && w.declared(entry.0, entry.1.1).Err?
  }

  /** What a run makes of a mapped table, and reports: created if the id has no local table; drift if its
      table sits elsewhere, or differs and is not to be recreated; in sync if it does not differ; and
      otherwise dropped and created again, with its old batch size. */
  ghost predicate EntryReported(w: World, root: TableId, flags: Flags, rels: Rels, entry: (TableId, Loc), row: Row,
                                now: Option<Relation>)
  {
    var id, loc := entry.0, entry.1;
    && row.id == id && row.loc == loc
    && if Homeless(w, root, rels, id) then
         Made(w, None, flags.dryRun, Lookup(rels, loc), id, loc, CreateTable, row, now)
       else if !Home(w, root, rels, loc, id) then
         now == Lookup(rels, loc) && row.action == Drifted && row.status == Succeeded
       else
         && w.declared(id, loc.1).Ok?
         && if Drift.NoDrift(w.declared(id, loc.1).value, rels[loc].columns) then
              now == Lookup(rels, loc) && row.action == InSync && row.status == Succeeded
            else if !flags.recreateChanged then
              now == Lookup(rels, loc) && row.action == Drifted && row.status == Succeeded
            else
              && row.action == RecreateTable
              && if flags.dryRun then now == Lookup(rels, loc) && row.status == Skipped
                 else if w.dropFails(loc) then now == Lookup(rels, loc) && row.status == Failed
                 else if w.createFails(loc) then now == None && row.status == Failed
                 else
                   && now == Some(ForeignTable(w.server, GoodId(id), w.shown(w.declared(id, loc.1).value),
                                               rels[loc].batchSize))
                   && row.status == Succeeded
  }

  lemma {:induction false} EntryIsReported(w: World, root: TableId, flags: Flags, rels: Rels,
                                           local: map<TableId, Local>, entry: (TableId, Loc))
    requires Homes(w, root, rels, local)
    ensures var e := EntryAt(w, flags, local, Lookup(rels, entry.1), entry.0, entry.1);
            && (e.1.Err? <==> Unloadable(w, root, rels, entry))
            && (e.1.Ok? ==> EntryReported(w, root, flags, rels, entry, e.1.value, e.0))
            && (e.1.Err? ==> e.0 == Lookup(rels, entry.1))
  {
    var id, loc := entry.0, entry.1;
    AttachMakes(w, None, flags.dryRun, Lookup(rels, loc), id, loc, CreateTable);
    if id in local {
      assert HomeIs(w, root, rels, id, local[id]);
      OneHome(w, root, rels, id, local[id].loc, loc);
      AttachMakes(w, local[id].batchSize, false, None, id, loc, CreateTable);
    }
  }

  lemma {:induction false} OneHome(w: World, root: TableId, rels: Rels, id: TableId, a: Loc, b: Loc)
    requires Home(w, root, rels, a, id)
    ensures Home(w, root, rels, b, id) <==> a == b
  {
    if Home(w, root, rels, b, id) && a != b {
      PairPrecedesOneWay(a, b);
    }
  }

  // ----- tables that are not listed -----

  /** A table whose id is not listed, at its home. */
  ghost predicate Unlisted(w: World, root: TableId, plan: Plan, rels: Rels, l: Loc, id: TableId)
  {
    id !in plan.expected && Home(w, root, rels, l, id)
  }

  ghost predicate Leaves(w: World, root: TableId, flags: Flags, plan: Plan, rels: Rels, l: Loc)
  {
    && flags.dropMissing && !flags.dryRun && !w.dropFails(l)
    && exists id :: Unlisted(w, root, plan, rels, l, id)
  }

  /** It is reported as drift, or dropped if asked to, unless the statement fails or the run is dry. */
  ghost predicate UnlistedRow(w: World, root: TableId, flags: Flags, plan: Plan, rels: Rels, row: Row)
  {
    && Unlisted(w, root, plan, rels, row.loc, row.id)
    && if !flags.dropMissing then row.action == Drifted && row.status == Succeeded
       else
         && row.action == DropTable
         && row.status == (if flags.dryRun then Skipped else if w.dropFails(row.loc) then Failed else Succeeded)
  }

  /** The rows of the tables that are not listed: all of them, in the order of their locations. */
  ghost predicate UnlistedReported(w: World, root: TableId, flags: Flags, plan: Plan, rels: Rels, rows: seq<Row>)
  {
    && Ascends(rows)
    && (forall k | 0 <= k < |rows| :: UnlistedRow(w, root, flags, plan, rels, rows[k]))
    && (forall l, id | Unlisted(w, root, plan, rels, l, id) :: Reports(rows, l))
  }

  lemma {:induction false} StaleIff(w: World, root: TableId, plan: Plan, rels: Rels, local: map<TableId, Local>, l: Loc)
    requires Homes(w, root, rels, local)
    ensures l in StaleLocs(local, plan.expected) <==> exists id :: Unlisted(w, root, plan, rels, l, id)
  {
    if l in StaleLocs(local, plan.expected) {
      var id :| id in local && id !in plan.expected && local[id].loc == l;
      assert HomeIs(w, root, rels, id, local[id]);
      assert Unlisted(w, root, plan, rels, l, id);
    }
    if id :| Unlisted(w, root, plan, rels, l, id) {
      assert id in local && HomeIs(w, root, rels, id, local[id]);
      OneHome(w, root, rels, id, l, local[id].loc);
    }
  }

  lemma {:induction false} UnlistedRowIs(w: World, root: TableId, flags: Flags, plan: Plan, rels: Rels,
                                         local: map<TableId, Local>, l: Loc)
    requires Homes(w, root, rels, local) && OneIdPerLoc(local) && l in StaleLocs(local, plan.expected)
    ensures UnlistedRow(w, root, flags, plan, rels, StaleRow(w, flags, IdAt(local, plan.expected, l), l))
  {
    var id := IdAt(local, plan.expected, l);
    assert HomeIs(w, root, rels, id, local[id]);
  }

  lemma {:induction false} UnlistedAreReported(w: World, root: TableId, flags: Flags, plan: Plan, rels: Rels,
                                               local: map<TableId, Local>)
    requires Homes(w, root, rels, local) && OneIdPerLoc(local)
    ensures UnlistedReported(w, root, flags, plan, rels,
                             StaleRows(w, flags, local, plan.expected, SortedPairs(StaleLocs(local, plan.expected))))
  {
    var locs := SortedPairs(StaleLocs(local, plan.expected));
    var rows := StaleRows(w, flags, local, plan.expected, locs);
    assert forall k | 0 <= k < |rows| :: rows[k].loc == locs[k];
    forall k | 0 <= k < |rows| ensures UnlistedRow(w, root, flags, plan, rels, rows[k]) {
      assert locs[k] in locs;
      UnlistedRowIs(w, root, flags, plan, rels, local, locs[k]);
    }
    forall l, id | Unlisted(w, root, plan, rels, l, id) ensures Reports(rows, l) {
      StaleIff(w, root, plan, rels, local, l);
      LocIsReported(rows, locs, l);
    }
  }

  lemma {:induction false} LocIsReported(rows: seq<Row>, locs: seq<Loc>, l: Loc)
    requires |rows| == |locs| && (forall k | 0 <= k < |rows| :: rows[k].loc == locs[k]) && l in locs
    ensures Reports(rows, l)
  {
    var k :| 0 <= k < |locs| && locs[k] == l;
    assert rows[k].loc == l;
  }

  // ----- a whole run -----

  /** The rows of the mapped tables, and what they leave at their locations. */
  ghost predicate EntriesReported(w: World, root: TableId, flags: Flags, plan: Plan, rels: Rels, rows: seq<Row>,
                                  left: seq<Option<Relation>>)
  {
    && |rows| == |left| <= |plan.mapping|
    && forall i | 0 <= i < |rows| :: EntryReported(w, root, flags, rels, plan.mapping[i], rows[i], left[i])
  }

  /** The catalogue at `l` after the mapped tables. */
  ghost predicate LeftAt(plan: Plan, rels: Rels, left: seq<Option<Relation>>, l: Loc, now: Option<Relation>)
    requires |left| <= |plan.mapping|
  {
    && (forall i | 0 <= i < |left| && plan.mapping[i].1 == l :: now == left[i])
    && (!IsMapped(plan.mapping, |left|, l) ==> now == Lookup(rels, l))
  }

  /** The rows of conflicting ids. */
  ghost predicate ConflictsReported(plan: Plan, rows: seq<Row>)
  {
    && |rows| == |plan.conflicts|
    && forall i | 0 <= i < |rows| :: rows[i].id == plan.conflicts[i] && rows[i].loc == plan.at(plan.conflicts[i])
                                     && rows[i].action == ErrorAction && rows[i].status == Failed
  }

  lemma {:induction false} EntriesAreReported(w: World, root: TableId, flags: Flags, plan: Plan, rels: Rels,
                                              local: map<TableId, Local>, n: nat)
    returns (left: seq<Option<Relation>>)
    requires WellPlanned(plan) && Homes(w, root, rels, local) && n <= |plan.mapping|
    requires Entries(w, flags, local, rels, plan.mapping, n).1.Ok?
    ensures var e := Entries(w, flags, local, rels, plan.mapping, n);
            && |left| == n && EntriesReported(w, root, flags, plan, rels, e.1.value, left)
            && forall l :: LeftAt(plan, rels, left, l, Lookup(e.0, l))
  {
    var e := Entries(w, flags, local, rels, plan.mapping, n);
    EntriesAlone(w, flags, local, rels, plan.mapping, n);
    left := seq(n, i requires 0 <= i < n => Lookup(e.0, plan.mapping[i].1));
    forall i | 0 <= i < n
      ensures EntryReported(w, root, flags, rels, plan.mapping[i], e.1.value[i], left[i])
    {
      assert EntryDone(w, flags, local, rels, plan.mapping[i], e.0, e.1.value[i]);
      EntryIsReported(w, root, flags, rels, local, plan.mapping[i]);
    }
    forall l ensures LeftAt(plan, rels, left, l, Lookup(e.0, l)) {
      if !IsMapped(plan.mapping, n, l) {
        EntriesElsewhere(w, flags, local, rels, plan.mapping, n, l);
      }
    }
  }

  /** A run is aborted exactly if the table of some mapped id sits at its location and its remote table
      cannot be loaded; it stops at the first such table, and what came before stays done. */
  lemma {:induction false} RunAbortsIff(w: World, root: TableId, flags: Flags, plan: Plan, rels: Rels)
    returns (n: nat, rows: seq<Row>, left: seq<Option<Relation>>)
    requires WellPlanned(plan)
    ensures var after := Run(w, root, flags, plan, rels);
            && (after.1.Ok? <==> n == |plan.mapping|)
            && n <= |plan.mapping| && (n < |plan.mapping| ==> Unloadable(w, root, rels, plan.mapping[n]))
            && (forall i | 0 <= i < n :: !Unloadable(w, root, rels, plan.mapping[i]))
            && |left| == n && EntriesReported(w, root, flags, plan, rels, rows, left)
            && (after.1.Err? ==> forall l :: LeftAt(plan, rels, left, l, Lookup(after.0, l)))
  {
    IntrospectionHomes(w, root, rels);
    var local := Introspection(w, root, rels).local;
    n := FirstUnloadable(w, root, flags, plan, rels, local, |plan.mapping|);
    left := EntriesAreReported(w, root, flags, plan, rels, local, n);
    rows := Entries(w, flags, local, rels, plan.mapping, n).1.value;
  }

  lemma {:induction false} FirstUnloadable(w: World, root: TableId, flags: Flags, plan: Plan, rels: Rels,
                                           local: map<TableId, Local>, k: nat)
    returns (n: nat)
    requires WellPlanned(plan) && Homes(w, root, rels, local) && k <= |plan.mapping|
    ensures n <= k && (forall i | 0 <= i < n :: !Unloadable(w, root, rels, plan.mapping[i]))
    ensures n < k ==> Unloadable(w, root, rels, plan.mapping[n])
    ensures Entries(w, flags, local, rels, plan.mapping, n).1.Ok?
    ensures SameUpTo(Entries(w, flags, local, rels, plan.mapping, n), Entries(w, flags, local, rels, plan.mapping, k))
    ensures Entries(w, flags, local, rels, plan.mapping, k).1.Ok? <==> n == k
    decreases k
  {
    if k == 0 {
      n := 0;
    } else {
      n := FirstUnloadable(w, root, flags, plan, rels, local, k - 1);
      if n == k - 1 {
        EntryStep(w, root, flags, plan, rels, local, k);
        if !Unloadable(w, root, rels, plan.mapping[k - 1]) {
          n := k;
        }
      }
    }
  }

  lemma {:induction false} EntryStep(w: World, root: TableId, flags: Flags, plan: Plan, rels: Rels,
                                     local: map<TableId, Local>, k: nat)
    requires WellPlanned(plan) && Homes(w, root, rels, local) && 0 < k <= |plan.mapping|
    requires Entries(w, flags, local, rels, plan.mapping, k - 1).1.Ok?
    ensures Entries(w, flags, local, rels, plan.mapping, k).1.Err? <==> Unloadable(w, root, rels, plan.mapping[k - 1])
    ensures Unloadable(w, root, rels, plan.mapping[k - 1]) ==>
              SameUpTo(Entries(w, flags, local, rels, plan.mapping, k - 1),
                       Entries(w, flags, local, rels, plan.mapping, k))
  {
    EntriesElsewhere(w, flags, local, rels, plan.mapping, k - 1, plan.mapping[k - 1].1);
    EntryIsReported(w, root, flags, rels, local, plan.mapping[k - 1]);
    if Unloadable(w, root, rels, plan.mapping[k - 1]) {
      StoppedHere(w, flags, local, rels, plan.mapping, k);
    }
  }

  /** The catalogues agree. */
  ghost predicate SameUpTo(a: (Rels, Result<seq<Row>, string>), b: (Rels, Result<seq<Row>, string>))
  {
    forall l :: Lookup(b.0, l) == Lookup(a.0, l)
  }

  lemma {:induction false} StoppedHere(w: World, flags: Flags, local: map<TableId, Local>, rels: Rels,
                                       mapping: seq<(TableId, Loc)>, k: nat)
    requires 0 < k <= |mapping| && Entries(w, flags, local, rels, mapping, k - 1).1.Ok?
    requires var cur := Lookup(Entries(w, flags, local, rels, mapping, k - 1).0, mapping[k - 1].1);
             var e := EntryAt(w, flags, local, cur, mapping[k - 1].0, mapping[k - 1].1);
             e.1.Err? && e.0 == cur
    ensures SameUpTo(Entries(w, flags, local, rels, mapping, k - 1), Entries(w, flags, local, rels, mapping, k))
    ensures Entries(w, flags, local, rels, mapping, k).1.Err?
  {
  }

  /** The report of a finished run, for all flags: the conflicts, the faulty tables, the mapped tables and
      the tables that are not listed, each as stated above; and the catalogue after it. */
  lemma {:induction false} RunReports(w: World, root: TableId, flags: Flags, plan: Plan, rels: Rels)
    returns (conflicts: seq<Row>, faults: seq<Row>, entries: seq<Row>, unlisted: seq<Row>, left: seq<Option<Relation>>)
    requires WellPlanned(plan) && Run(w, root, flags, plan, rels).1.Ok?
    ensures Run(w, root, flags, plan, rels).1.value == conflicts + faults + entries + unlisted
    ensures ConflictsReported(plan, conflicts) && FaultsReported(w, root, rels, faults)
    ensures |left| == |plan.mapping| && EntriesReported(w, root, flags, plan, rels, entries, left)
    ensures UnlistedReported(w, root, flags, plan, rels, unlisted)
    ensures forall l ::
              if Leaves(w, root, flags, plan, rels, l) then l !in Run(w, root, flags, plan, rels).0
              else LeftAt(plan, rels, left, l, Lookup(Run(w, root, flags, plan, rels).0, l))
  {
    IntrospectionHomes(w, root, rels);
    IntrospectionIsInjective(w, root, rels);
    FaultsAreReported(w, root, rels);
    var found := Introspection(w, root, rels);
    var e := Entries(w, flags, found.local, rels, plan.mapping, |plan.mapping|);
    var stale := SortedPairs(StaleLocs(found.local, plan.expected));
    conflicts, faults, entries := ConflictRows(plan.at, plan.conflicts), found.errors, e.1.value;
    unlisted := StaleRows(w, flags, found.local, plan.expected, stale);
    left := EntriesAreReported(w, root, flags, plan, rels, found.local, |plan.mapping|);
    UnlistedAreReported(w, root, flags, plan, rels, found.local);
    forall l ensures if Leaves(w, root, flags, plan, rels, l) then l !in Run(w, root, flags, plan, rels).0
                     else LeftAt(plan, rels, left, l, Lookup(Run(w, root, flags, plan, rels).0, l))
    {
      StaleIff(w, root, plan, rels, found.local, l);
      DroppedAt(w, flags, e.0, stale, l);
    }
  }

  lemma {:induction false} DroppedAt(w: World, flags: Flags, rels: Rels, locs: seq<Loc>, l: Loc)
    ensures Lookup(DropAll(w, flags, rels, locs), l) ==
            if l in locs && Drops(w, flags, l) then None else Lookup(rels, l)
  {
  }
}
