/** Reconciling the local catalogue with a remote listing (src/fdw/sync_namespace.rs:28-421). */
module Sync {
  import opened Wrappers
  import opened Ordered
  import opened Naming
  import opened Mapping
  import opened Attach
  import Drift

  // ----- introspect_local_namespace_tables -----

  /** A managed table as introspection found it. */
  datatype Local = Local(loc: Loc, columns: Columns, batchSize: Option<int>)

  predicate HasPrefix(full: TableId, prefix: TableId) {
    |full| >= |prefix| && full[..|prefix|] == prefix
  }

  /** A foreign table of the server whose decoded id lies under the root. */
  predicate Managed(w: World, root: TableId, r: Relation) {
    r.ForeignTable? && r.server == w.server && r.tableId.GoodId? && r.tableId.id != [] && HasPrefix(r.tableId.id, root)
  }

  datatype Found = Found(local: map<TableId, Local>, errors: seq<Row>)

  function IntrospectOne(w: World, root: TableId, found: Found, loc: Loc, r: Relation): Found {
    if !r.ForeignTable? || r.server != w.server || r.tableId.NoId? then found
    else if r.tableId.BadId? || r.tableId.id == [] then
      found.(errors := found.errors + [Row([], loc, ErrorAction, Failed)])
    else if !HasPrefix(r.tableId.id, root) then found
    else
      var id := r.tableId.id;
      Found(found.local[id := Local(loc, r.columns, r.batchSize)],
            if id in found.local then found.errors + [Row(id, loc, ErrorAction, Failed)] else found.errors)
  }

  /** Introspection of the relations at `locs`, in that order. */
  function Introspect(w: World, root: TableId, rels: Rels, locs: seq<Loc>): Found
    requires forall l | l in locs :: l in rels
    decreases |locs|
  {
    if locs == [] then Found(map[], [])
    else
      var l := locs[|locs| - 1];
      IntrospectOne(w, root, Introspect(w, root, rels, locs[..|locs| - 1]), l, rels[l])
  }

  function Introspection(w: World, root: TableId, rels: Rels): Found {
    Introspect(w, root, rels, SortedPairs(rels.Keys))
  }

  method IntrospectLocalNamespaceTables(w: World, root: TableId, c: Catalog) returns (found: Found)
    ensures found == Introspection(w, root, c.rels)
  {
    var locs := SortedPairs(c.rels.Keys);
    var local: map<TableId, Local> := map[];
    var errors: seq<Row> := [];
    for i := 0 to |locs|
      invariant Found(local, errors) == Introspect(w, root, c.rels, locs[..i])
    {
      assert locs[..i + 1][..i] == locs[..i];
      assert locs[i] in locs;
      var r := c.rels[locs[i]];
      if !r.ForeignTable? || r.server != w.server || r.tableId.NoId? {
        continue;
      }
      if r.tableId.BadId? || r.tableId.id == [] {
        errors := errors + [Row([], locs[i], ErrorAction, Failed)];
        continue;
      }
      var id := r.tableId.id;
      if !HasPrefix(id, root) {
        continue;
      }
      if id in local {
        errors := errors + [Row(id, locs[i], ErrorAction, Failed)];
      }
      local := local[id := Local(locs[i], r.columns, r.batchSize)];
    }
    assert locs[..|locs|] == locs;
    found := Found(local, errors);
  }

  // ----- sync_namespace -----

  datatype Flags = Flags(dropMissing: bool, recreateChanged: bool, dryRun: bool)

  /** What one mapping entry does to its own location, which holds `cur`, and what it reports.
      An error means that the drift check failed, which aborts the run. */
  function EntryAt(w: World, flags: Flags, local: map<TableId, Local>, cur: Option<Relation>, id: TableId, loc: Loc)
    : (Option<Relation>, Result<Row, string>)
  {
    if id !in local then
      var a := AttachAt(w, None, flags.dryRun, cur, id, loc);
      (a.0, Ok(if a.1.Ok? then Row(id, loc, a.1.value.0, a.1.value.1) else Row(id, loc, CreateTable, Failed)))
    else if local[id].loc != loc then (cur, Ok(Row(id, loc, Drifted, Succeeded)))
    else
      match w.declared(id, loc.1)
      case Err(e) => (cur, Err(e))
      case Ok(expected) =>
        if Drift.NoDrift(expected, local[id].columns) then (cur, Ok(Row(id, loc, InSync, Succeeded)))
        else if !flags.recreateChanged then (cur, Ok(Row(id, loc, Drifted, Succeeded)))
        else if flags.dryRun then (cur, Ok(Row(id, loc, RecreateTable, Skipped)))
        else if w.dropFails(loc) then (cur, Ok(Row(id, loc, RecreateTable, Failed)))
        else
          var a := AttachAt(w, local[id].batchSize, false, None, id, loc);
          (a.0, Ok(Row(id, loc, RecreateTable, if a.1.Ok? then a.1.value.1 else Failed)))
  }

  /** The first `n` mapping entries, in order, each at its own location. */
  function Entries(w: World, flags: Flags, local: map<TableId, Local>, rels: Rels, mapping: seq<(TableId, Loc)>, n: nat)
    : (Rels, Result<seq<Row>, string>)
    requires n <= |mapping|
  {
    if n == 0 then (rels, Ok([]))
    else
      var before := Entries(w, flags, local, rels, mapping, n - 1);
      var id, loc := mapping[n - 1].0, mapping[n - 1].1;
      if before.1.Err? then before
      else
        var e := EntryAt(w, flags, local, Lookup(before.0, loc), id, loc);
        (Put(before.0, loc, e.0), if e.1.Ok? then Ok(before.1.value + [e.1.value]) else Err(e.1.error))
  }

  /** The locations of managed tables that the remote listing does not know, with their ids. */
  function StaleIds(local: map<TableId, Local>, expected: set<TableId>): set<TableId> {
    set id | id in local && id !in expected
  }

  function StaleLocs(local: map<TableId, Local>, expected: set<TableId>): set<Loc> {
    set id | id in local && id !in expected :: local[id].loc
  }

  ghost predicate OneIdPerLoc(local: map<TableId, Local>)
  {
    forall a, b | a in local && b in local && local[a].loc == local[b].loc :: a == b
  }

  /** The id introspected at a location. */
  function IdAt(local: map<TableId, Local>, expected: set<TableId>, loc: Loc): TableId
    requires OneIdPerLoc(local) && loc in StaleLocs(local, expected)
  {
    var id :| id in local && id !in expected && local[id].loc == loc;
    id
  }

  function StaleRow(w: World, flags: Flags, id: TableId, loc: Loc): Row {
    if !flags.dropMissing then Row(id, loc, Drifted, Succeeded)
    else if flags.dryRun then Row(id, loc, DropTable, Skipped)
    else if w.dropFails(loc) then Row(id, loc, DropTable, Failed)
    else Row(id, loc, DropTable, Succeeded)
  }

  predicate Drops(w: World, flags: Flags, loc: Loc) {
    flags.dropMissing && !flags.dryRun && !w.dropFails(loc)
  }

  function StaleRows(w: World, flags: Flags, local: map<TableId, Local>, expected: set<TableId>,
                     locs: seq<Loc>): seq<Row>
    requires OneIdPerLoc(local) && forall l | l in locs :: l in StaleLocs(local, expected)
  {
    seq(|locs|, i requires 0 <= i < |locs| => StaleRow(w, flags, IdAt(local, expected, locs[i]), locs[i]))
  }

  function DropAll(w: World, flags: Flags, rels: Rels, locs: seq<Loc>): Rels {
    rels - (set l | l in locs && Drops(w, flags, l))
  }

  function ConflictRows(at: Placement, conflicts: seq<TableId>): seq<Row> {
    seq(|conflicts|, i requires 0 <= i < |conflicts| => Row(conflicts[i], at(conflicts[i]), ErrorAction, Failed))
  }

  /** A remote listing with its conflicts and mapping. */
  datatype Plan = Plan(at: Placement, conflicts: seq<TableId>, mapping: seq<(TableId, Loc)>, expected: set<TableId>)

  function PlanOf(prefix: string, listing: seq<TableId>): Plan {
    var at := LocationMap(prefix);
    var keys := LocationsOf(at, listing);
    Plan(at, ConflictsAt(at, listing, keys), MappingAt(at, listing, keys), set id | id in listing)
  }

  /** What a run makes of the catalogue, and what it reports. */
  function Run(w: World, root: TableId, flags: Flags, plan: Plan, rels: Rels): (Rels, Result<seq<Row>, string>)
  {
    IntrospectionIsInjective(w, root, rels);
    var found := Introspection(w, root, rels);
    var entries := Entries(w, flags, found.local, rels, plan.mapping, |plan.mapping|);
    if entries.1.Err? then entries
    else
      var stale := SortedPairs(StaleLocs(found.local, plan.expected));
      (DropAll(w, flags, entries.0, stale),
       Ok(ConflictRows(plan.at, plan.conflicts) + found.errors + entries.1.value
          + StaleRows(w, flags, found.local, plan.expected, stale)))
  }

  lemma {:induction false} IntrospectionIsInjective(w: World, root: TableId, rels: Rels)
    ensures OneIdPerLoc(Introspection(w, root, rels).local)
  {
    var locs := SortedPairs(rels.Keys);
    IntrospectSound(w, root, rels, locs);
    var local := Introspection(w, root, rels).local;
    forall a, b | a in local && b in local && local[a].loc == local[b].loc ensures a == b {
      assert FoundAt(w, root, rels, a, local[a]) && FoundAt(w, root, rels, b, local[b]);
    }
  }

  /** `x` describes a managed relation with the id `id`. */
  ghost predicate FoundAt(w: World, root: TableId, rels: Rels, id: TableId, x: Local)
  {
    && x.loc in rels && Managed(w, root, rels[x.loc]) && rels[x.loc].tableId.id == id
    && x.columns == rels[x.loc].columns && x.batchSize == rels[x.loc].batchSize
  }

  /** Introspection finds managed relations only, and every managed id. */
  lemma {:induction false} IntrospectSound(w: World, root: TableId, rels: Rels, locs: seq<Loc>)
    requires forall l | l in locs :: l in rels
    ensures var local := Introspect(w, root, rels, locs).local;
            && (forall id | id in local :: FoundAt(w, root, rels, id, local[id]) && local[id].loc in locs)
            && (forall l | l in locs && Managed(w, root, rels[l]) :: rels[l].tableId.id in local)
    decreases |locs|
  {
    if locs != [] {
      IntrospectSound(w, root, rels, locs[..|locs| - 1]);
      assert locs == locs[..|locs| - 1] + [locs[|locs| - 1]];
    }
  }

  // ----- the imperative run -----

  /** One round of the loop over the mapping. */
  method SyncEntry(c: Catalog, w: World, flags: Flags, local: map<TableId, Local>, id: TableId, loc: Loc)
    returns (row: Result<Row, string>)
    modifies c
    ensures (Lookup(c.rels, loc), row) == EntryAt(w, flags, local, old(Lookup(c.rels, loc)), id, loc)
    ensures c.rels == Put(old(c.rels), loc, Lookup(c.rels, loc))
  {
    if id !in local {
      var a := c.AttachOne(w, None, flags.dryRun, id, loc);
      return Ok(if a.Ok? then Row(id, loc, a.value.0, a.value.1) else Row(id, loc, CreateTable, Failed));
    }
    var x := local[id];
    if x.loc != loc {
      return Ok(Row(id, loc, Drifted, Succeeded));
    }
    var expected :- w.declared(id, loc.1);
    if Drift.NoDrift(expected, x.columns) {
      return Ok(Row(id, loc, InSync, Succeeded));
    }
    if !flags.recreateChanged {
      return Ok(Row(id, loc, Drifted, Succeeded));
    }
    if flags.dryRun {
      return Ok(Row(id, loc, RecreateTable, Skipped));
    }
    var dropped := c.DropForeignTable(w, loc);
    if !dropped {
      return Ok(Row(id, loc, RecreateTable, Failed));
    }
    var a := c.AttachOne(w, x.batchSize, false, id, loc);
    row := Ok(Row(id, loc, RecreateTable, if a.Ok? then a.value.1 else Failed));
  }

  /** The loop over the mapping. */
  method SyncEntries(c: Catalog, w: World, flags: Flags, local: map<TableId, Local>, mapping: seq<(TableId, Loc)>)
    returns (r: Result<seq<Row>, string>)
    modifies c
    ensures (c.rels, r) == Entries(w, flags, local, old(c.rels), mapping, |mapping|)
  {
    var rows: seq<Row> := [];
    for i := 0 to |mapping|
      invariant (c.rels, Ok(rows)) == Entries(w, flags, local, old(c.rels), mapping, i)
    {
      var row := SyncEntry(c, w, flags, local, mapping[i].0, mapping[i].1);
      if row.Err? {
        EntriesErr(w, flags, local, old(c.rels), mapping, i + 1);
        return Err(row.error);
      }
      rows := rows + [row.value];
    }
    r := Ok(rows);
  }

  /** An aborted run stays as it was. */
  lemma {:induction false} EntriesErr(w: World, flags: Flags, local: map<TableId, Local>, rels: Rels,
                                      mapping: seq<(TableId, Loc)>, n: nat)
    requires n <= |mapping| && Entries(w, flags, local, rels, mapping, n).1.Err?
    ensures Entries(w, flags, local, rels, mapping, |mapping|) == Entries(w, flags, local, rels, mapping, n)
    decreases |mapping| - n
  {
    if n < |mapping| {
      EntriesErr(w, flags, local, rels, mapping, n + 1);
    }
  }

  /** The loop over the tables that only exist locally. */
  method SyncStale(c: Catalog, w: World, flags: Flags, local: map<TableId, Local>, expected: set<TableId>)
    returns (rows: seq<Row>)
    requires OneIdPerLoc(local)
    modifies c
    ensures var stale := SortedPairs(StaleLocs(local, expected));
            && c.rels == DropAll(w, flags, old(c.rels), stale)
            && rows == StaleRows(w, flags, local, expected, stale)
  {
    var stale := SortedPairs(StaleLocs(local, expected));
    rows := [];
    for i := 0 to |stale|
      invariant c.rels == DropAll(w, flags, old(c.rels), stale[..i])
      invariant |rows| == i && forall k | 0 <= k < i ::
                rows[k] == StaleRow(w, flags, IdAt(local, expected, stale[k]), stale[k])
    {
      var loc := stale[i];
      assert loc in stale;
      var id := IdAt(local, expected, loc);
      var row := Row(id, loc, Drifted, Succeeded);
      if flags.dropMissing {
        row := Row(id, loc, DropTable, Skipped);
        if !flags.dryRun {
          var dropped := c.DropForeignTable(w, loc);
          row := Row(id, loc, DropTable, if dropped then Succeeded else Failed);
        }
      }
      DropOneMore(w, flags, old(c.rels), stale, i);
      rows := rows + [row];
    }
    assert stale[..|stale|] == stale;
  }

  lemma {:induction false} DropOneMore(w: World, flags: Flags, rels: Rels, locs: seq<Loc>, i: nat)
    requires i < |locs|
    ensures DropAll(w, flags, rels, locs[..i + 1]) ==
            if Drops(w, flags, locs[i]) then DropAll(w, flags, rels, locs[..i]) - {locs[i]}
              else DropAll(w, flags, rels, locs[..i])
  {
    assert locs[..i + 1] == locs[..i] + [locs[i]];
  }

  method LocalTableOf(schemaPrefix: string, id: TableId) returns (loc: Loc)
    ensures loc == LocationMap(schemaPrefix)(id)
  {
    var local := SchemaAndTableForTableId(schemaPrefix, id);
    loc := if local.Ok? then local.value else ("_", "_");
  }

  method ReportConflicts(schemaPrefix: string, conflicts: seq<TableId>) returns (rows: seq<Row>)
    ensures rows == ConflictRows(LocationMap(schemaPrefix), conflicts)
  {
    rows := [];
    ghost var at := LocationMap(schemaPrefix);
    for i := 0 to |conflicts|
      invariant |rows| == i && forall k | 0 <= k < i ::
                rows[k] == Row(conflicts[k], at(conflicts[k]), ErrorAction, Failed)
    {
      var loc := LocalTableOf(schemaPrefix, conflicts[i]);
      rows := rows + [Row(conflicts[i], loc, ErrorAction, Failed)];
    }
  }

  /** The run after the listing has been mapped. */
  method Reconcile(c: Catalog, w: World, root: TableId, flags: Flags, plan: Plan, conflictRows: seq<Row>)
    returns (r: Result<seq<Row>, string>)
    requires conflictRows == ConflictRows(plan.at, plan.conflicts)
    modifies c
    ensures (c.rels, r) == Run(w, root, flags, plan, old(c.rels))
  {
    var rows := conflictRows;
    var found := IntrospectLocalNamespaceTables(w, root, c);
    IntrospectionIsInjective(w, root, c.rels);
    rows := rows + found.errors;
    var entries :- SyncEntries(c, w, flags, found.local, plan.mapping);
    rows := rows + entries;
    var stale := SyncStale(c, w, flags, found.local, plan.expected);
    r := Ok(rows + stale);
  }

  /** A run over the listing `remoteTableIds`: it refuses a listing with an empty id before it
      touches anything. */
  method SyncNamespace(c: Catalog, w: World, root: TableId, schemaPrefix: string, flags: Flags,
                       remoteTableIds: seq<TableId>)
    returns (r: Result<seq<Row>, string>)
    modifies c
    ensures !NonEmptyIds(remoteTableIds) ==> r.Err? && c.rels == old(c.rels)
    ensures NonEmptyIds(remoteTableIds) ==>
            (c.rels, r) == Run(w, root, flags, PlanOf(schemaPrefix, remoteTableIds), old(c.rels))
  {
    var planned :- BuildMapping(schemaPrefix, remoteTableIds);
    var plan := Plan(LocationMap(schemaPrefix), planned.0, planned.1, set id | id in remoteTableIds);
    var rows := ReportConflicts(schemaPrefix, plan.conflicts);
    r := Reconcile(c, w, root, flags, plan, rows);
  }
}
