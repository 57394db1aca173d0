/** Attaching a whole namespace (src/fdw/attach_namespace.rs:23-76), alone and before a
    reconciling run. */
module AttachNamespace {
  import opened Wrappers
  import opened Naming
  import opened Mapping
  import opened Attach
  import opened Sync
  import opened SyncTheorems
  import opened SyncReports
  import opened Convergence

  function AttachRow(r: Result<(Action, Status), string>, id: TableId, loc: Loc): Row {
    if r.Ok? then Row(id, loc, r.value.0, r.value.1) else Row(id, loc, ErrorAction, Failed)
  }

  /** The first `n` mapping entries, in order. */
  function AttachEntries(w: World, batch: Option<int>, dryRun: bool, rels: Rels, mapping: seq<(TableId, Loc)>,
                         n: nat): (Rels, seq<Row>)
    requires n <= |mapping|
  {
    if n == 0 then (rels, [])
    else
      var before, id, loc := AttachEntries(w, batch, dryRun, rels, mapping, n - 1), mapping[n - 1].0, mapping[n - 1].1;
      var a := AttachAt(w, batch, dryRun, Lookup(before.0, loc), id, loc);
      (Put(before.0, loc, a.0), before.1 + [AttachRow(a.1, id, loc)])
  }

  method AttachAll(c: Catalog, w: World, batch: Option<int>, dryRun: bool, mapping: seq<(TableId, Loc)>)
    returns (rows: seq<Row>)
    modifies c
    ensures (c.rels, rows) == AttachEntries(w, batch, dryRun, old(c.rels), mapping, |mapping|)
  {
    rows := [];
    for i := 0 to |mapping|
      invariant (c.rels, rows) == AttachEntries(w, batch, dryRun, old(c.rels), mapping, i)
    {
      var id, loc := mapping[i].0, mapping[i].1;
      var a := c.AttachOne(w, batch, dryRun, id, loc);
      rows := rows + [AttachRow(a, id, loc)];
    }
  }

  /** Conflicts are reported, everything else is attached; a listing with an empty id is refused
      before anything changes. */
  method AttachTables(c: Catalog, w: World, schemaPrefix: string, batch: Option<int>, dryRun: bool,
                      tableIds: seq<TableId>)
    returns (r: Result<seq<Row>, string>)
    modifies c
    ensures r.Ok? <==> NonEmptyIds(tableIds)
    ensures r.Err? ==> c.rels == old(c.rels)
    ensures r.Ok? ==>
              var plan := PlanOf(schemaPrefix, tableIds);
              var entries := AttachEntries(w, batch, dryRun, old(c.rels), plan.mapping, |plan.mapping|);
              c.rels == entries.0 && r.value == ConflictRows(plan.at, plan.conflicts) + entries.1
  {
    var planned :- BuildMapping(schemaPrefix, tableIds);
    var conflictRows := ReportConflicts(schemaPrefix, planned.0);
    var rows := AttachAll(c, w, batch, dryRun, planned.1);
    r := Ok(conflictRows + rows);
  }

  // ----- what attaching does -----

  /** Locations without an entry among the first `n` stay as they are. */
  lemma {:induction false} AttachElsewhere(w: World, batch: Option<int>, dryRun: bool, rels: Rels,
                                           mapping: seq<(TableId, Loc)>, n: nat, l: Loc)
    requires n <= |mapping| && !IsMapped(mapping, n, l)
    ensures Lookup(AttachEntries(w, batch, dryRun, rels, mapping, n).0, l) == Lookup(rels, l)
    decreases n
  {
    if n > 0 {
      assert mapping[n - 1].1 != l;
      assert forall i | 0 <= i < n - 1 :: mapping[i].1 != l;
      AttachElsewhere(w, batch, dryRun, rels, mapping, n - 1, l);
    }
  }

  /** Each entry acts as if alone. */
  lemma {:induction false} AttachAlone(w: World, batch: Option<int>, dryRun: bool, rels: Rels,
                                       mapping: seq<(TableId, Loc)>, n: nat, i: nat)
    requires i < n <= |mapping| && DistinctLocs(mapping)
    ensures var e := AttachEntries(w, batch, dryRun, rels, mapping, n);
            var a := AttachAt(w, batch, dryRun, Lookup(rels, mapping[i].1), mapping[i].0, mapping[i].1);
            |e.1| == n && Lookup(e.0, mapping[i].1) == a.0 && e.1[i] == AttachRow(a.1, mapping[i].0, mapping[i].1)
    decreases n
  {
    if i == n - 1 {
      AttachElsewhere(w, batch, dryRun, rels, mapping, n - 1, mapping[i].1);
      AttachCounts(w, batch, dryRun, rels, mapping, n - 1);
    } else {
      AttachAlone(w, batch, dryRun, rels, mapping, n - 1, i);
      assert mapping[i].1 != mapping[n - 1].1;
    }
  }

  lemma {:induction false} AttachCounts(w: World, batch: Option<int>, dryRun: bool, rels: Rels,
                                        mapping: seq<(TableId, Loc)>, n: nat)
    requires n <= |mapping|
    ensures |AttachEntries(w, batch, dryRun, rels, mapping, n).1| == n
    decreases n
  {
    if n > 0 {
      AttachCounts(w, batch, dryRun, rels, mapping, n - 1);
    }
  }

  /** What attaching does and reports, table by table. */
  lemma {:induction false} AttachReports(w: World, batch: Option<int>, dryRun: bool, plan: Plan, rels: Rels)
    requires WellPlanned(plan)
    ensures var e := AttachEntries(w, batch, dryRun, rels, plan.mapping, |plan.mapping|);
            && |e.1| == |plan.mapping|
            && (forall i | 0 <= i < |plan.mapping| ::
                 Made(w, batch, dryRun, Lookup(rels, plan.mapping[i].1), plan.mapping[i].0, plan.mapping[i].1,
                      ErrorAction, e.1[i], Lookup(e.0, plan.mapping[i].1)))
            && forall l | !IsMapped(plan.mapping, |plan.mapping|, l) :: Lookup(e.0, l) == Lookup(rels, l)
  {
    var e := AttachEntries(w, batch, dryRun, rels, plan.mapping, |plan.mapping|);
    AttachCounts(w, batch, dryRun, rels, plan.mapping, |plan.mapping|);
    forall i | 0 <= i < |plan.mapping|
      ensures Made(w, batch, dryRun, Lookup(rels, plan.mapping[i].1), plan.mapping[i].0, plan.mapping[i].1,
                   ErrorAction, e.1[i], Lookup(e.0, plan.mapping[i].1))
    {
      var id, loc := plan.mapping[i].0, plan.mapping[i].1;
      AttachAlone(w, batch, dryRun, rels, plan.mapping, |plan.mapping|, i);
      AttachMakes(w, batch, dryRun, Lookup(rels, loc), id, loc, ErrorAction);
    }
    forall l | !IsMapped(plan.mapping, |plan.mapping|, l) ensures Lookup(e.0, l) == Lookup(rels, l) {
      AttachElsewhere(w, batch, dryRun, rels, plan.mapping, |plan.mapping|, l);
    }
  }

  /** The catalogue after attaching. */
  function AfterAttach(w: World, batch: Option<int>, plan: Plan, rels: Rels): Rels {
    AttachEntries(w, batch, false, rels, plan.mapping, |plan.mapping|).0
  }

  /** Attaching never touches an existing relation. */
  lemma {:induction false} AttachKeepsRelations(w: World, batch: Option<int>, plan: Plan, rels: Rels, l: Loc)
    requires WellPlanned(plan) && l in rels
    ensures Lookup(AfterAttach(w, batch, plan, rels), l) == Some(rels[l])
  {
    if IsMapped(plan.mapping, |plan.mapping|, l) {
      var i :| 0 <= i < |plan.mapping| && plan.mapping[i].1 == l;
      AttachAlone(w, batch, false, rels, plan.mapping, |plan.mapping|, i);
    } else {
      AttachElsewhere(w, batch, false, rels, plan.mapping, |plan.mapping|, l);
    }
  }

  /** Attaching a second time changes nothing, whatever failed the first time. */
  lemma {:induction false} AttachTwiceIsOnce(w: World, batch: Option<int>, plan: Plan, rels: Rels)
    requires WellPlanned(plan)
    ensures AfterAttach(w, batch, plan, AfterAttach(w, batch, plan, rels)) == AfterAttach(w, batch, plan, rels)
  {
    var once := AfterAttach(w, batch, plan, rels);
    var twice := AfterAttach(w, batch, plan, once);
    forall l ensures Lookup(twice, l) == Lookup(once, l) {
      if IsMapped(plan.mapping, |plan.mapping|, l) {
        var i :| 0 <= i < |plan.mapping| && plan.mapping[i].1 == l;
        AttachAlone(w, batch, false, rels, plan.mapping, |plan.mapping|, i);
        AttachAlone(w, batch, false, once, plan.mapping, |plan.mapping|, i);
        AttachAgain(w, batch, Lookup(rels, l), plan.mapping[i].0, l);
      } else {
        AttachElsewhere(w, batch, false, once, plan.mapping, |plan.mapping|, l);
      }
    }
    SameLookups(twice, once);
  }

  lemma {:induction false} AttachAgain(w: World, batch: Option<int>, cur: Option<Relation>, id: TableId, loc: Loc)
    ensures var once := AttachAt(w, batch, false, cur, id, loc).0; AttachAt(w, batch, false, once, id, loc).0 == once
  {
  }

  // ----- attaching, then reconciling -----

  /** The server has no table below the root yet, and the mapped locations are free. */
  ghost predicate Untouched(w: World, root: TableId, plan: Plan, rels: Rels)
  {
    && (forall l | l in rels :: !Managed(w, root, rels[l]))
    && (forall i | 0 <= i < |plan.mapping| :: plan.mapping[i].1 !in rels)
  }

  lemma {:induction false} AttachSettles(w: World, root: TableId, batch: Option<int>, plan: Plan, rels: Rels, l: Loc)
    requires Ready(w, root, plan) && Untouched(w, root, plan, rels)
    ensures var after := AfterAttach(w, batch, plan, rels);
            if IsMapped(plan.mapping, |plan.mapping|, l)
            then exists i :: (0 <= i < |plan.mapping| && plan.mapping[i].1 == l
                              && Attached(w, plan.mapping[i], Lookup(after, l)))
            else Lookup(after, l) == Lookup(rels, l)
  {
    if IsMapped(plan.mapping, |plan.mapping|, l) {
      var i :| 0 <= i < |plan.mapping| && plan.mapping[i].1 == l;
      AttachAlone(w, batch, false, rels, plan.mapping, |plan.mapping|, i);
      assert Loads(w, plan.mapping[i]) && !w.createFails(l);
      assert Attached(w, plan.mapping[i], Lookup(AfterAttach(w, batch, plan, rels), l));
    } else {
      AttachElsewhere(w, batch, false, rels, plan.mapping, |plan.mapping|, l);
    }
  }

  /** A managed table at `l` was attached there for its own entry. */
  lemma {:induction false} AttachedInPlace(w: World, root: TableId, batch: Option<int>, plan: Plan, rels: Rels, l: Loc)
    requires Ready(w, root, plan) && Untouched(w, root, plan, rels)
    ensures var after := AfterAttach(w, batch, plan, rels);
            l in after && Managed(w, root, after[l]) ==>
              after[l].tableId.id in plan.expected && l == plan.at(after[l].tableId.id)
  {
    AttachSettles(w, root, batch, plan, rels, l);
    var after := AfterAttach(w, batch, plan, rels);
    if IsMapped(plan.mapping, |plan.mapping|, l) {
      var i :| 0 <= i < |plan.mapping| && plan.mapping[i].1 == l && Attached(w, plan.mapping[i], Lookup(after, l));
      assert plan.mapping[i].0 in plan.expected;
    }
  }

  /** Attach, then reconcile: the run finds every mapped table in sync and changes nothing. */
  lemma {:induction false} AttachThenSyncIsQuiet(w: World, root: TableId, batch: Option<int>, plan: Plan, rels: Rels)
    requires Ready(w, root, plan) && Untouched(w, root, plan, rels)
    ensures var after := AfterAttach(w, batch, plan, rels);
            Run(w, root, FULL, plan, after) == (after, Ok(QuietReport(w, root, plan, after)))
  {
    var after := AfterAttach(w, batch, plan, rels);
    forall l | l in after && Managed(w, root, after[l])
      ensures after[l].tableId.id in plan.expected && l == plan.at(after[l].tableId.id)
    {
      AttachedInPlace(w, root, batch, plan, rels, l);
    }
    forall i | 0 <= i < |plan.mapping| ensures Attached(w, plan.mapping[i], Lookup(after, plan.mapping[i].1)) {
      AttachAlone(w, batch, false, rels, plan.mapping, |plan.mapping|, i);
      assert Loads(w, plan.mapping[i]) && !w.createFails(plan.mapping[i].1);
    }
    assert Tidy(w, root, plan, after);
    SettledIsQuiet(w, root, plan, after);
  }

}
