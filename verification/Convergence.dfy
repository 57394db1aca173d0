/** Where repeated runs lead, and what each run reports. */
module Convergence {
  import opened Wrappers
  import opened Ordered
  import opened Arrow
  import opened Naming
  import opened Mapping
  import opened Attach
  import opened Sync
  import opened SyncTheorems
  import Listing
  import SchemaOrder
  import TypeMapping

  const FULL := Flags(true, true, false)

  // ----- accounting -----

  function Ids(rows: seq<Row>): seq<TableId> {
    seq(|rows|, i requires 0 <= i < |rows| => rows[i].id)
  }

  datatype Report = Report(conflicts: seq<Row>, errors: seq<Row>, entries: seq<Row>, stale: seq<Row>) {
    function Rows(): seq<Row> { conflicts + errors + entries + stale }
  }

  /** The four parts of the report of a finished run. */
  function ReportOf(w: World, root: TableId, flags: Flags, plan: Plan, rels: Rels): Report
    requires Run(w, root, flags, plan, rels).1.Ok?
  {
    IntrospectionIsInjective(w, root, rels);
    var found := Introspection(w, root, rels);
    Report(ConflictRows(plan.at, plan.conflicts), found.errors,
           Entries(w, flags, found.local, rels, plan.mapping, |plan.mapping|).1.value,
           StaleRows(w, flags, found.local, plan.expected, SortedPairs(StaleLocs(found.local, plan.expected))))
  }

  ghost predicate ManagedId(w: World, root: TableId, rels: Rels, id: TableId)
  {
    exists l :: l in rels && Managed(w, root, rels[l]) && rels[l].tableId.id == id
  }

  lemma {:induction false} LocalIds(w: World, root: TableId, rels: Rels, id: TableId)
    ensures id in Introspection(w, root, rels).local <==> ManagedId(w, root, rels, id)
  {
    var locs := SortedPairs(rels.Keys);
    IntrospectSound(w, root, rels, locs);
    assert Introspection(w, root, rels).local == Introspect(w, root, rels, locs).local;
  }

  /** Every id of the listing is reported exactly once, as a conflict or as a mapped table; of the
      other ids exactly those of managed local tables are reported as stale, once each. */
  lemma {:induction false} EveryTableIsReported(w: World, root: TableId, flags: Flags, prefix: string,
                                                listing: seq<TableId>, rels: Rels)
    requires Run(w, root, flags, PlanOf(prefix, listing), rels).1.Ok?
    ensures var report := ReportOf(w, root, flags, PlanOf(prefix, listing), rels);
            && Run(w, root, flags, PlanOf(prefix, listing), rels).1.value == report.Rows()
            && multiset(Ids(report.conflicts)) + multiset(Ids(report.entries)) == multiset(listing)
            && Distinct(Ids(report.stale))
            && forall id :: id in Ids(report.stale) <==> id !in listing && ManagedId(w, root, rels, id)
  {
    var plan := PlanOf(prefix, listing);
    PlansAreWellPlanned(prefix, listing);
    EveryIdIsAssigned(plan.at, listing);
    IntrospectionIsInjective(w, root, rels);
    var found := Introspection(w, root, rels);
    EntryIds(w, flags, found.local, rels, plan.mapping);
    assert Ids(ConflictRows(plan.at, plan.conflicts)) == plan.conflicts;
    StaleReport(w, flags, found.local, plan.expected);
    AllLocalIds(w, root, rels);
  }

  lemma {:induction false} AllLocalIds(w: World, root: TableId, rels: Rels)
    ensures forall id :: id in Introspection(w, root, rels).local <==> ManagedId(w, root, rels, id)
  {
    forall id ensures id in Introspection(w, root, rels).local <==> ManagedId(w, root, rels, id) {
      LocalIds(w, root, rels, id);
    }
  }

  lemma {:induction false} EntryIds(w: World, flags: Flags, local: map<TableId, Local>, rels: Rels,
                                    mapping: seq<(TableId, Loc)>)
    requires DistinctLocs(mapping) && Entries(w, flags, local, rels, mapping, |mapping|).1.Ok?
    ensures Ids(Entries(w, flags, local, rels, mapping, |mapping|).1.value) == MappedIds(mapping)
  {
    EntriesAlone(w, flags, local, rels, mapping, |mapping|);
    var e := Entries(w, flags, local, rels, mapping, |mapping|);
    forall i | 0 <= i < |mapping| ensures e.1.value[i].id == mapping[i].0 {
      assert EntryDone(w, flags, local, rels, mapping[i], e.0, e.1.value[i]);
    }
  }

  lemma {:induction false} StaleReport(w: World, flags: Flags, local: map<TableId, Local>, expected: set<TableId>)
    requires OneIdPerLoc(local)
    ensures var ids := Ids(StaleRows(w, flags, local, expected, SortedPairs(StaleLocs(local, expected))));
            Distinct(ids) && forall id :: id in ids <==> id in StaleIds(local, expected)
  {
    var locs := SortedPairs(StaleLocs(local, expected));
    var ids := Ids(StaleRows(w, flags, local, expected, locs));
    forall i | 0 <= i < |locs| ensures ids[i] in StaleIds(local, expected) && local[ids[i]].loc == locs[i] {
      assert ids[i] == IdAt(local, expected, locs[i]);
    }
    forall id | id in StaleIds(local, expected) ensures id in ids {
      assert local[id].loc in locs;
      var i :| 0 <= i < |locs| && locs[i] == local[id].loc;
      assert ids[i] == id;
    }
  }

  // ----- convergence: the setting -----

  /** No managed id occurs twice, expected ids sit at their own locations, and only managed
      tables sit at mapped locations. */
  ghost predicate Tidy(w: World, root: TableId, plan: Plan, rels: Rels)
  {
    && (forall l, m | l in rels && m in rels && Managed(w, root, rels[l]) && Managed(w, root, rels[m]) ::
          rels[l].tableId == rels[m].tableId ==> l == m)
    && (forall l | l in rels && Managed(w, root, rels[l]) :: rels[l].tableId.id in plan.expected ==>
      l == plan.at(rels[l].tableId.id))
    && (forall i | 0 <= i < |plan.mapping| :: plan.mapping[i].1 in rels ==> Managed(w, root, rels[plan.mapping[i].1]))
  }

  predicate Stale(w: World, root: TableId, plan: Plan, r: Relation) {
    Managed(w, root, r) && r.tableId.id !in plan.expected
  }

  ghost predicate NoStale(w: World, root: TableId, plan: Plan, rels: Rels)
  {
    forall l | l in rels :: !Stale(w, root, plan, rels[l])
  }

  /** The table of a mapping entry is attached and shows no drift. */
  predicate Attached(w: World, entry: (TableId, Loc), r: Option<Relation>) {
    && r.Some? && r.value.ForeignTable? && r.value.server == w.server && r.value.tableId == GoodId(entry.0)
    && w.declared(entry.0, entry.1.1).Ok?
    && Drift.NoDrift(w.declared(entry.0, entry.1.1).value, r.value.columns)
  }

  ghost predicate Settled(w: World, plan: Plan, rels: Rels)
  {
    forall i | 0 <= i < |plan.mapping| :: Attached(w, plan.mapping[i], Lookup(rels, plan.mapping[i].1))
  }

  /** The mapped table can be loaded and passes the drift check when freshly attached. */
  ghost predicate Loads(w: World, entry: (TableId, Loc))
  {
    var d := w.declared(entry.0, entry.1.1);
    d.Ok? && Drift.NoDrift(d.value, w.shown(d.value))
  }

  ghost predicate BelowRoot(expected: set<TableId>, root: TableId)
  {
    forall id | id in expected :: id != [] && HasPrefix(id, root)
  }

  /** No DDL fails and every mapped table can be loaded. */
  ghost predicate Usable(w: World, root: TableId, plan: Plan)
  {
    && WellPlanned(plan)
    && BelowRoot(plan.expected, root)
    && (forall l :: !w.createFails(l) && !w.dropFails(l))
    && (forall i | 0 <= i < |plan.mapping| :: w.declared(plan.mapping[i].0, plan.mapping[i].1.1).Ok?)
  }

  ghost predicate Ready(w: World, root: TableId, plan: Plan)
  {
    Usable(w, root, plan) && forall i | 0 <= i < |plan.mapping| :: Loads(w, plan.mapping[i])
  }

  /** A table with another id sits at the location of the entry. */
  predicate Blocked(entry: (TableId, Loc), rels: Rels) {
    entry.1 in rels && rels[entry.1].ForeignTable? && rels[entry.1].tableId != GoodId(entry.0)
  }

  /** Without duplicates, introspection describes every managed table. */
  lemma {:induction false} LocalExact(w: World, root: TableId, plan: Plan, rels: Rels, l: Loc)
    requires Tidy(w, root, plan, rels) && l in rels && Managed(w, root, rels[l])
    ensures var local, r := Introspection(w, root, rels).local, rels[l];
            r.tableId.id in local && local[r.tableId.id] == Local(l, r.columns, r.batchSize)
  {
    var id := rels[l].tableId.id;
    LocalIds(w, root, rels, id);
    IntrospectionDescribes(w, root, rels);
    var local := Introspection(w, root, rels).local;
    assert FoundAt(w, root, rels, id, local[id]);
  }

  lemma {:induction false} StaleExact(w: World, root: TableId, plan: Plan, rels: Rels, l: Loc)
    requires Tidy(w, root, plan, rels)
    ensures l in StaleLocs(Introspection(w, root, rels).local, plan.expected) <==>
            l in rels && Stale(w, root, plan, rels[l])
  {
    IntrospectionDescribes(w, root, rels);
    var local := Introspection(w, root, rels).local;
    if l in rels && Stale(w, root, plan, rels[l]) {
      LocalExact(w, root, plan, rels, l);
      assert local[rels[l].tableId.id].loc == l;
    }
  }

  // ----- one run -----

  lemma {:induction false} EntriesFinish(w: World, flags: Flags, local: map<TableId, Local>, rels: Rels,
                                         mapping: seq<(TableId, Loc)>, n: nat)
    requires n <= |mapping| && forall i | 0 <= i < |mapping| :: w.declared(mapping[i].0, mapping[i].1.1).Ok?
    ensures Entries(w, flags, local, rels, mapping, n).1.Ok?
    decreases n
  {
    if n > 0 {
      EntriesFinish(w, flags, local, rels, mapping, n - 1);
      assert w.declared(mapping[n - 1].0, mapping[n - 1].1.1).Ok?;
    }
  }

  lemma {:induction false} RunFinishes(w: World, root: TableId, plan: Plan, rels: Rels)
    requires Usable(w, root, plan)
    ensures Run(w, root, FULL, plan, rels).1.Ok?
  {
    EntriesFinish(w, FULL, Introspection(w, root, rels).local, rels, plan.mapping, |plan.mapping|);
  }

  /** What the last phase makes of a location. */
  lemma {:induction false} DropPhase(w: World, root: TableId, plan: Plan, rels: Rels, l: Loc)
    requires Usable(w, root, plan) && Tidy(w, root, plan, rels)
    ensures var entries := Entries(w, FULL, Introspection(w, root, rels).local, rels, plan.mapping, |plan.mapping|).0;
            Lookup(Run(w, root, FULL, plan, rels).0, l) ==
            if l in rels && Stale(w, root, plan, rels[l]) then None else Lookup(entries, l)
  {
    RunFinishes(w, root, plan, rels);
    StaleExact(w, root, plan, rels, l);
    assert !w.dropFails(l);
  }

  /** Locations that no entry is mapped to: stale tables go, all else stays. */
  lemma {:induction false} UnmappedAfter(w: World, root: TableId, plan: Plan, rels: Rels, l: Loc)
    requires Usable(w, root, plan) && Tidy(w, root, plan, rels) && !IsMapped(plan.mapping, |plan.mapping|, l)
    ensures Lookup(Run(w, root, FULL, plan, rels).0, l) ==
            if l in rels && Stale(w, root, plan, rels[l]) then None else Lookup(rels, l)
  {
    DropPhase(w, root, plan, rels, l);
    EntriesElsewhere(w, FULL, Introspection(w, root, rels).local, rels, plan.mapping, |plan.mapping|, l);
  }

  /** The table of the entry as a run attaches it. */
  ghost predicate FreshlyAttached(w: World, entry: (TableId, Loc), r: Option<Relation>)
  {
    && r.Some? && r.value.ForeignTable? && r.value.server == w.server && r.value.tableId == GoodId(entry.0)
    && w.declared(entry.0, entry.1.1).Ok?
    && r.value.columns == w.shown(w.declared(entry.0, entry.1.1).value)
  }

  /** A run leaves the entry's table without drift, if no other table is in the way. */
  ghost predicate Steady(w: World, entry: (TableId, Loc), rels: Rels)
  {
    Loads(w, entry) || Attached(w, entry, Lookup(rels, entry.1))
  }

  /** What the entry loop makes of a mapped location that holds `cur`. */
  ghost predicate EntryMade(w: World, entry: (TableId, Loc), cur: Option<Relation>,
                            e: (Option<Relation>, Result<Row, string>))
  {
    if Attached(w, entry, cur) then e == (cur, Ok(Row(entry.0, entry.1, InSync, Succeeded)))
    else
      && FreshlyAttached(w, entry, e.0)
      && (FreshlyAttached(w, entry, cur) ==> e.0 == cur)
      && e.1 == Ok(Row(entry.0, entry.1, if cur.Some? then RecreateTable else CreateTable, Succeeded))
  }

  lemma {:induction false} EntryAfter(w: World, root: TableId, plan: Plan, rels: Rels, i: nat)
    requires Usable(w, root, plan) && Tidy(w, root, plan, rels) && i < |plan.mapping|
    ensures var entry, cur := plan.mapping[i], Lookup(rels, plan.mapping[i].1);
            var e := EntryAt(w, FULL, Introspection(w, root, rels).local, cur, entry.0, entry.1);
            if Blocked(entry, rels) then e.0 == cur else EntryMade(w, entry, cur, e)
  {
    var id, loc := plan.mapping[i].0, plan.mapping[i].1;
    assert w.declared(id, loc.1).Ok? && id in plan.expected && !w.createFails(loc) && !w.dropFails(loc);
    if loc in rels && rels[loc].tableId == GoodId(id) {
      LocalExact(w, root, plan, rels, loc);
    } else {
      LocalSits(w, root, plan, rels, id);
    }
  }

  /** An expected id is attached at its own location or nowhere. */
  lemma {:induction false} LocalSits(w: World, root: TableId, plan: Plan, rels: Rels, id: TableId)
    requires Tidy(w, root, plan, rels) && id in plan.expected
    ensures id in Introspection(w, root, rels).local ==>
              var loc := plan.at(id); loc in rels && rels[loc].ForeignTable? && rels[loc].tableId == GoodId(id)
  {
    IntrospectionDescribes(w, root, rels);
    var local := Introspection(w, root, rels).local;
    if id in local {
      assert FoundAt(w, root, rels, id, local[id]);
    }
  }

  /** What a run makes of a mapped location: a foreign id goes, a table without drift stays, and in
      all other cases the entry's table is freshly attached. */
  lemma {:induction false} MappedAfter(w: World, root: TableId, plan: Plan, rels: Rels, i: nat)
    requires Usable(w, root, plan) && Tidy(w, root, plan, rels) && i < |plan.mapping|
    ensures var entry, cur := plan.mapping[i], Lookup(rels, plan.mapping[i].1);
            var after := Lookup(Run(w, root, FULL, plan, rels).0, entry.1);
            if Blocked(entry, rels) then after == None
            else if Attached(w, entry, cur) then after == cur
            else FreshlyAttached(w, entry, after) && (FreshlyAttached(w, entry, cur) ==> after == cur)
  {
    var loc := plan.mapping[i].1;
    var local := Introspection(w, root, rels).local;
    DropPhase(w, root, plan, rels, loc);
    EntryAfter(w, root, plan, rels, i);
    EntriesFinish(w, FULL, local, rels, plan.mapping, |plan.mapping|);
    EntriesAlone(w, FULL, local, rels, plan.mapping, |plan.mapping|);
    var e := Entries(w, FULL, local, rels, plan.mapping, |plan.mapping|);
    assert EntryDone(w, FULL, local, rels, plan.mapping[i], e.0, e.1.value[i]);
    BlockerIsStale(w, root, plan, rels, i);
  }

  lemma {:induction false} BlockerIsStale(w: World, root: TableId, plan: Plan, rels: Rels, i: nat)
    requires Usable(w, root, plan) && Tidy(w, root, plan, rels) && i < |plan.mapping|
    ensures var loc := plan.mapping[i].1;
            Blocked(plan.mapping[i], rels) <==> loc in rels && Stale(w, root, plan, rels[loc])
  {
    var id, loc := plan.mapping[i].0, plan.mapping[i].1;
    if loc in rels {
      assert Managed(w, root, rels[loc]);
      assert id in plan.expected;
    }
  }

  /** After a run, a managed table at `l` has an expected id and is where it should be. */
  lemma {:induction false} ManagedAfter(w: World, root: TableId, plan: Plan, rels: Rels, l: Loc)
    requires Usable(w, root, plan) && Tidy(w, root, plan, rels)
    ensures var after := Run(w, root, FULL, plan, rels).0;
            l in after && Managed(w, root, after[l]) ==>
              after[l].tableId.id in plan.expected && l == plan.at(after[l].tableId.id)
  {
    if IsMapped(plan.mapping, |plan.mapping|, l) {
      var i :| 0 <= i < |plan.mapping| && plan.mapping[i].1 == l;
      MappedAfter(w, root, plan, rels, i);
      assert plan.mapping[i].0 in plan.expected;
    } else {
      UnmappedAfter(w, root, plan, rels, l);
    }
  }

  lemma {:induction false} MappedIsManaged(w: World, root: TableId, plan: Plan, rels: Rels, i: nat)
    requires Usable(w, root, plan) && Tidy(w, root, plan, rels) && i < |plan.mapping|
    ensures var after := Run(w, root, FULL, plan, rels).0;
            plan.mapping[i].1 in after ==> Managed(w, root, after[plan.mapping[i].1])
  {
    MappedAfter(w, root, plan, rels, i);
    assert plan.mapping[i].0 in plan.expected;
  }

  /** Every run keeps the catalogue tidy and leaves no stale table. */
  lemma {:induction false} RunTidies(w: World, root: TableId, plan: Plan, rels: Rels)
    requires Usable(w, root, plan) && Tidy(w, root, plan, rels)
    ensures var after := Run(w, root, FULL, plan, rels).0;
            Tidy(w, root, plan, after) && NoStale(w, root, plan, after)
  {
    var after := Run(w, root, FULL, plan, rels).0;
    forall l | l in after && Managed(w, root, after[l])
      ensures after[l].tableId.id in plan.expected && l == plan.at(after[l].tableId.id)
    {
      ManagedAfter(w, root, plan, rels, l);
    }
    forall i | 0 <= i < |plan.mapping| && plan.mapping[i].1 in after
      ensures Managed(w, root, after[plan.mapping[i].1])
    {
      MappedIsManaged(w, root, plan, rels, i);
    }
  }

  ghost predicate Unblocked(plan: Plan, rels: Rels)
  {
    forall i | 0 <= i < |plan.mapping| :: !Blocked(plan.mapping[i], rels)
  }

  ghost predicate AllSteady(w: World, plan: Plan, rels: Rels)
  {
    forall i | 0 <= i < |plan.mapping| :: Steady(w, plan.mapping[i], rels)
  }

  /** A run attaches every mapped table without drift exactly when no other table was in the way and
      every entry is steady. */
  lemma {:induction false} RunSettlesIff(w: World, root: TableId, plan: Plan, rels: Rels)
    requires Usable(w, root, plan) && Tidy(w, root, plan, rels)
    ensures Settled(w, plan, Run(w, root, FULL, plan, rels).0) <==> Unblocked(plan, rels) && AllSteady(w, plan, rels)
  {
    var after := Run(w, root, FULL, plan, rels).0;
    forall i | 0 <= i < |plan.mapping|
      ensures Attached(w, plan.mapping[i], Lookup(after, plan.mapping[i].1)) <==>
              !Blocked(plan.mapping[i], rels) && Steady(w, plan.mapping[i], rels)
    {
      MappedAfter(w, root, plan, rels, i);
    }
  }

  lemma {:induction false} TidyIsUnblocked(w: World, root: TableId, plan: Plan, rels: Rels)
    requires Usable(w, root, plan) && Tidy(w, root, plan, rels) && NoStale(w, root, plan, rels)
    ensures Unblocked(plan, rels)
  {
    forall i | 0 <= i < |plan.mapping| ensures !Blocked(plan.mapping[i], rels) {
      BlockerIsStale(w, root, plan, rels, i);
    }
  }

  /** A run changes neither what makes an entry steady nor what makes it unsteady. */
  lemma {:induction false} SteadyStays(w: World, root: TableId, plan: Plan, rels: Rels)
    requires Usable(w, root, plan) && Tidy(w, root, plan, rels)
    ensures AllSteady(w, plan, Run(w, root, FULL, plan, rels).0) <==> AllSteady(w, plan, rels)
  {
    var after := Run(w, root, FULL, plan, rels).0;
    forall i | 0 <= i < |plan.mapping| ensures Steady(w, plan.mapping[i], after) <==> Steady(w, plan.mapping[i], rels) {
      MappedAfter(w, root, plan, rels, i);
    }
  }

  lemma {:induction false} SameLookups(a: Rels, b: Rels)
    requires forall l :: Lookup(a, l) == Lookup(b, l)
    ensures a == b
  {
    forall l ensures l in a <==> l in b ensures l in a ==> a[l] == b[l] {
      assert Lookup(a, l) == Lookup(b, l);
    }
  }

  /** Every mapped table is there, either without drift or as a run attaches it. */
  ghost predicate Reached(w: World, plan: Plan, rels: Rels)
  {
    forall i | 0 <= i < |plan.mapping| ::
      var cur := Lookup(rels, plan.mapping[i].1);
      Attached(w, plan.mapping[i], cur) || FreshlyAttached(w, plan.mapping[i], cur)
  }

  lemma {:induction false} RunReachesIff(w: World, root: TableId, plan: Plan, rels: Rels)
    requires Usable(w, root, plan) && Tidy(w, root, plan, rels)
    ensures Reached(w, plan, Run(w, root, FULL, plan, rels).0) <==> Unblocked(plan, rels)
  {
    var after := Run(w, root, FULL, plan, rels).0;
    forall i | 0 <= i < |plan.mapping|
      ensures var now := Lookup(after, plan.mapping[i].1);
              Attached(w, plan.mapping[i], now) || FreshlyAttached(w, plan.mapping[i], now) <==>
                !Blocked(plan.mapping[i], rels)
    {
      MappedAfter(w, root, plan, rels, i);
    }
  }

  /** Such a catalogue without stale tables is left unchanged. */
  lemma {:induction false} ReachedIsFixed(w: World, root: TableId, plan: Plan, rels: Rels)
    requires Usable(w, root, plan) && Tidy(w, root, plan, rels) && NoStale(w, root, plan, rels) &&
             Reached(w, plan, rels)
    ensures Run(w, root, FULL, plan, rels).0 == rels
  {
    var after := Run(w, root, FULL, plan, rels).0;
    forall l ensures Lookup(after, l) == Lookup(rels, l) {
      if IsMapped(plan.mapping, |plan.mapping|, l) {
        var i :| 0 <= i < |plan.mapping| && plan.mapping[i].1 == l;
        MappedAfter(w, root, plan, rels, i);
      } else {
        UnmappedAfter(w, root, plan, rels, l);
      }
    }
    SameLookups(after, rels);
  }

  /** What a run reports for the mapped tables of such a catalogue. */
  function EntryRow(w: World, entry: (TableId, Loc), rels: Rels): Row {
    Row(entry.0, entry.1, if Attached(w, entry, Lookup(rels, entry.1)) then InSync else RecreateTable, Succeeded)
  }

  function EntryRows(w: World, mapping: seq<(TableId, Loc)>, rels: Rels): seq<Row> {
    seq(|mapping|, i requires 0 <= i < |mapping| => EntryRow(w, mapping[i], rels))
  }

  /** All a run reports on such a catalogue without stale tables. */
  function LastReport(w: World, root: TableId, plan: Plan, rels: Rels): seq<Row> {
    ConflictRows(plan.at, plan.conflicts) + Introspection(w, root, rels).errors + EntryRows(w, plan.mapping, rels)
  }

  lemma {:induction false} ReachedEntries(w: World, root: TableId, plan: Plan, rels: Rels)
    requires Usable(w, root, plan) && Tidy(w, root, plan, rels) && Reached(w, plan, rels)
    ensures Entries(w, FULL, Introspection(w, root, rels).local, rels, plan.mapping, |plan.mapping|).1 ==
            Ok(EntryRows(w, plan.mapping, rels))
  {
    var local := Introspection(w, root, rels).local;
    EntriesFinish(w, FULL, local, rels, plan.mapping, |plan.mapping|);
    EntriesAlone(w, FULL, local, rels, plan.mapping, |plan.mapping|);
    var e := Entries(w, FULL, local, rels, plan.mapping, |plan.mapping|);
    forall i | 0 <= i < |plan.mapping| ensures e.1.value[i] == EntryRow(w, plan.mapping[i], rels) {
      assert EntryDone(w, FULL, local, rels, plan.mapping[i], e.0, e.1.value[i]);
      ReachedEntry(w, root, plan, rels, i);
    }
    assert e.1.value == EntryRows(w, plan.mapping, rels);
  }

  lemma {:induction false} ReachedEntry(w: World, root: TableId, plan: Plan, rels: Rels, i: nat)
    requires Usable(w, root, plan) && Tidy(w, root, plan, rels) && Reached(w, plan, rels) && i < |plan.mapping|
    ensures var entry := plan.mapping[i];
            EntryAt(w, FULL, Introspection(w, root, rels).local, Lookup(rels, entry.1), entry.0, entry.1).1 ==
            Ok(EntryRow(w, entry, rels))
  {
    var cur := Lookup(rels, plan.mapping[i].1);
    EntryAfter(w, root, plan, rels, i);
    assert Attached(w, plan.mapping[i], cur) || FreshlyAttached(w, plan.mapping[i], cur);
  }

  lemma {:induction false} ReachedReport(w: World, root: TableId, plan: Plan, rels: Rels)
    requires Usable(w, root, plan) && Tidy(w, root, plan, rels) && NoStale(w, root, plan, rels) &&
             Reached(w, plan, rels)
    ensures Run(w, root, FULL, plan, rels) == (rels, Ok(LastReport(w, root, plan, rels)))
  {
    ReachedIsFixed(w, root, plan, rels);
    ReachedEntries(w, root, plan, rels);
    NothingStale(w, root, plan, rels);
    IntrospectionIsInjective(w, root, rels);
    var local := Introspection(w, root, rels).local;
    var none := StaleRows(w, FULL, local, plan.expected, SortedPairs(StaleLocs(local, plan.expected)));
    assert none == [];
    assert LastReport(w, root, plan, rels) + none == LastReport(w, root, plan, rels);
  }

  lemma {:induction false} NothingStale(w: World, root: TableId, plan: Plan, rels: Rels)
    requires Tidy(w, root, plan, rels) && NoStale(w, root, plan, rels)
    ensures SortedPairs(StaleLocs(Introspection(w, root, rels).local, plan.expected)) == []
  {
    var locs := SortedPairs(StaleLocs(Introspection(w, root, rels).local, plan.expected));
    if locs != [] {
      assert locs[0] in locs;
      StaleExact(w, root, plan, rels, locs[0]);
    }
  }

  function InSyncRows(mapping: seq<(TableId, Loc)>): seq<Row> {
    seq(|mapping|, i requires 0 <= i < |mapping| => Row(mapping[i].0, mapping[i].1, InSync, Succeeded))
  }

  /** All a run reports on a settled catalogue: conflicts, unusable local tables, tables in sync. */
  function QuietReport(w: World, root: TableId, plan: Plan, rels: Rels): seq<Row> {
    ConflictRows(plan.at, plan.conflicts) + Introspection(w, root, rels).errors + InSyncRows(plan.mapping)
  }

  lemma {:induction false} QuietIffSettled(w: World, root: TableId, plan: Plan, rels: Rels)
    ensures LastReport(w, root, plan, rels) == QuietReport(w, root, plan, rels) <==> Settled(w, plan, rels)
  {
    var head := ConflictRows(plan.at, plan.conflicts) + Introspection(w, root, rels).errors;
    var rows, quiet := EntryRows(w, plan.mapping, rels), InSyncRows(plan.mapping);
    assert (head + rows)[|head|..] == rows && (head + quiet)[|head|..] == quiet;
    if rows == quiet {
      forall i | 0 <= i < |plan.mapping| ensures Attached(w, plan.mapping[i], Lookup(rels, plan.mapping[i].1)) {
        assert rows[i] == quiet[i];
      }
    }
    if Settled(w, plan, rels) {
      assert rows == quiet;
    }
  }

  /** On a settled catalogue a run changes nothing and says so. */
  lemma {:induction false} SettledIsQuiet(w: World, root: TableId, plan: Plan, rels: Rels)
    requires Usable(w, root, plan) && Tidy(w, root, plan, rels) && NoStale(w, root, plan, rels) &&
             Settled(w, plan, rels)
    ensures Run(w, root, FULL, plan, rels) == (rels, Ok(QuietReport(w, root, plan, rels)))
  {
    ReachedReport(w, root, plan, rels);
    QuietIffSettled(w, root, plan, rels);
  }

  /** Two runs always reach a catalogue that every further run leaves alone; the second one is needed
      exactly when another table is at a mapped location. From then on every run reports the
      same: conflicts, unusable local tables, tables in sync, and a recreated table for every entry that
      was not steady at the start. */
  lemma {:induction false} TwoRunsReach(w: World, root: TableId, plan: Plan, rels: Rels)
    requires Usable(w, root, plan) && Tidy(w, root, plan, rels)
    ensures var once := Run(w, root, FULL, plan, rels).0;
            var twice := Run(w, root, FULL, plan, once).0;
            && Run(w, root, FULL, plan, twice) == (twice, Ok(LastReport(w, root, plan, twice)))
            && (twice == once <==> Unblocked(plan, rels))
            && Tidy(w, root, plan, twice) && NoStale(w, root, plan, twice) && Reached(w, plan, twice)
  {
    var once := Run(w, root, FULL, plan, rels).0;
    RunTidies(w, root, plan, rels);
    RunReachesIff(w, root, plan, rels);
    TidyIsUnblocked(w, root, plan, once);
    var twice := Run(w, root, FULL, plan, once).0;
    RunTidies(w, root, plan, once);
    RunReachesIff(w, root, plan, once);
    ReachedReport(w, root, plan, twice);
    if Reached(w, plan, once) {
      ReachedIsFixed(w, root, plan, once);
    }
  }

  /** Convergence, exactly: the catalogue that two runs reach has every mapped table without drift,
      and all further runs are quiet, if and only if each mapped table either passes the drift check
      when freshly attached or was already attached without drift. */
  lemma {:induction false} TwoRunsConvergeIff(w: World, root: TableId, plan: Plan, rels: Rels)
    requires Usable(w, root, plan) && Tidy(w, root, plan, rels)
    ensures var twice := Run(w, root, FULL, plan, Run(w, root, FULL, plan, rels).0).0;
            && (Settled(w, plan, twice) <==> AllSteady(w, plan, rels))
            && (Run(w, root, FULL, plan, twice) == (twice, Ok(QuietReport(w, root, plan, twice))) <==>
              AllSteady(w, plan, rels))
  {
    var once := Run(w, root, FULL, plan, rels).0;
    var twice := Run(w, root, FULL, plan, once).0;
    TwoRunsReach(w, root, plan, rels);
    RunTidies(w, root, plan, rels);
    TidyIsUnblocked(w, root, plan, once);
    RunSettlesIff(w, root, plan, once);
    SteadyStays(w, root, plan, rels);
    QuietIffSettled(w, root, plan, twice);
  }

  /** An entry that neither loads without drift nor was attached without drift is recreated by
      every run after the second, from any tidy start, and its table stays as it was. */
  lemma {:induction false} UnsteadyNeverSettles(w: World, root: TableId, plan: Plan, rels: Rels, i: nat)
    requires Usable(w, root, plan) && Tidy(w, root, plan, rels) && i < |plan.mapping|
    requires !Steady(w, plan.mapping[i], rels)
    ensures var twice := Run(w, root, FULL, plan, Run(w, root, FULL, plan, rels).0).0;
            && Run(w, root, FULL, plan, twice) == (twice, Ok(LastReport(w, root, plan, twice)))
            && FreshlyAttached(w, plan.mapping[i], Lookup(twice, plan.mapping[i].1))
            && EntryRow(w, plan.mapping[i], twice) ==
               Row(plan.mapping[i].0, plan.mapping[i].1, RecreateTable, Succeeded)
  {
    var once := Run(w, root, FULL, plan, rels).0;
    var twice := Run(w, root, FULL, plan, once).0;
    TwoRunsReach(w, root, plan, rels);
    RunTidies(w, root, plan, rels);
    MappedAfter(w, root, plan, rels, i);
    MappedAfter(w, root, plan, once, i);
  }

  /** Where every mapped table passes the drift check when freshly attached, two runs converge from
      every tidy catalogue. */
  lemma {:induction false} TwoRunsConverge(w: World, root: TableId, plan: Plan, rels: Rels)
    requires Ready(w, root, plan) && Tidy(w, root, plan, rels)
    ensures var once := Run(w, root, FULL, plan, rels).0;
            var twice := Run(w, root, FULL, plan, once).0;
            && Run(w, root, FULL, plan, twice) == (twice, Ok(QuietReport(w, root, plan, twice)))
            && (twice == once <==> Unblocked(plan, rels))
  {
    TwoRunsReach(w, root, plan, rels);
    TwoRunsConvergeIff(w, root, plan, rels);
  }

  // ----- schemas and listings -----

  /** The world shows the table of `entry` as PostgreSQL shows one attached from `fields`. */
  ghost predicate FromSchema(w: World, entry: (TableId, Loc), fields: seq<Field>, style: Drift.Style)
  {
    var table := entry.1.1;
    && w.declared(entry.0, table) == Ok(TypeMapping.ColumnTypes(table, fields))
    && w.shown(TypeMapping.ColumnTypes(table, fields)) == Drift.AttachedColumns(table, fields, style)
  }

  ghost predicate Flat(fields: seq<Field>)
  {
    forall i | 0 <= i < |fields| :: SchemaOrder.ListDepth(fields[i].dataType) <= 1
  }

  /** A table passes the drift check when freshly attached exactly if no column nests lists. */
  lemma {:induction false} LoadsIffFlat(w: World, entry: (TableId, Loc), fields: seq<Field>, style: Drift.Style)
    requires FromSchema(w, entry, fields, style) && Drift.UsableStyle(style)
    ensures Loads(w, entry) <==> Flat(fields)
  {
    Drift.FreshTableHasNoDriftIff(entry.1.1, fields, style);
  }

  /** Listed ids lie below the root. */
  lemma {:induction false} ListingIsBelow(remote: Listing.Remote, root: TableId, order: seq<TableId>, id: TableId)
    requires forall ns | ns in order :: Listing.Reachable(remote, root, ns)
    requires id in Listing.TablesOf(remote, order)
    ensures id != [] && HasPrefix(id, root)
  {
    Listing.TablesOfContains(remote, order, id);
    var ns := Namespace(id);
    assert Listing.Reachable(remote, root, ns) && ns == id[..|id| - 1];
    assert id[..|root|] == ns[..|root|];
  }

  ghost predicate FromSchemas(w: World, plan: Plan, schemas: TableId -> seq<Field>, style: Drift.Style)
  {
    forall i | 0 <= i < |plan.mapping| :: FromSchema(w, plan.mapping[i], schemas(plan.mapping[i].0), style)
  }

  ghost predicate AllFlat(plan: Plan, schemas: TableId -> seq<Field>)
  {
    forall i | 0 <= i < |plan.mapping| :: Flat(schemas(plan.mapping[i].0))
  }

  lemma {:induction false} ReadyIffFlat(w: World, root: TableId, plan: Plan, schemas: TableId -> seq<Field>,
                                        style: Drift.Style)
    requires WellPlanned(plan) && BelowRoot(plan.expected, root)
    requires Drift.UsableStyle(style) && forall l :: !w.createFails(l) && !w.dropFails(l)
    requires FromSchemas(w, plan, schemas, style)
    ensures Ready(w, root, plan) <==> AllFlat(plan, schemas)
  {
    forall i | 0 <= i < |plan.mapping|
      ensures Loads(w, plan.mapping[i]) <==> Flat(schemas(plan.mapping[i].0))
      ensures w.declared(plan.mapping[i].0, plan.mapping[i].1.1).Ok?
    {
      assert FromSchema(w, plan.mapping[i], schemas(plan.mapping[i].0), style);
      LoadsIffFlat(w, plan.mapping[i], schemas(plan.mapping[i].0), style);
    }
  }

  /** A newly listed table with a column that nests lists, say a list of lists of integers, is
      recreated by every run after the second. */
  lemma {:induction false} NestedListsNeverSettle(w: World, root: TableId, plan: Plan, rels: Rels,
                                                  schemas: TableId -> seq<Field>, style: Drift.Style, i: nat)
    requires WellPlanned(plan) && BelowRoot(plan.expected, root) && Tidy(w, root, plan, rels)
    requires Drift.UsableStyle(style) && forall l :: !w.createFails(l) && !w.dropFails(l)
    requires FromSchemas(w, plan, schemas, style)
    requires i < |plan.mapping| && plan.mapping[i].1 !in rels && !Flat(schemas(plan.mapping[i].0))
    ensures var twice := Run(w, root, FULL, plan, Run(w, root, FULL, plan, rels).0).0;
            && Run(w, root, FULL, plan, twice) == (twice, Ok(LastReport(w, root, plan, twice)))
            && EntryRow(w, plan.mapping[i], twice) ==
               Row(plan.mapping[i].0, plan.mapping[i].1, RecreateTable, Succeeded)
  {
    forall k | 0 <= k < |plan.mapping| ensures w.declared(plan.mapping[k].0, plan.mapping[k].1.1).Ok? {
      assert FromSchema(w, plan.mapping[k], schemas(plan.mapping[k].0), style);
    }
    assert FromSchema(w, plan.mapping[i], schemas(plan.mapping[i].0), style);
    LoadsIffFlat(w, plan.mapping[i], schemas(plan.mapping[i].0), style);
    UnsteadyNeverSettles(w, root, plan, rels, i);
  }

  /** The setting of the convergence theorem, in terms of the remote tree and its schemas: it
      holds exactly when no column of a mapped table nests lists. */
  lemma {:induction false} RemoteIsReadyIff(w: World, remote: Listing.Remote, root: TableId, order: seq<TableId>,
                                            prefix: string, schemas: TableId -> seq<Field>, style: Drift.Style)
    requires forall ns | ns in order :: Listing.Reachable(remote, root, ns)
    requires Drift.UsableStyle(style) && forall l :: !w.createFails(l) && !w.dropFails(l)
    requires FromSchemas(w, PlanOf(prefix, Listing.TablesOf(remote, order)), schemas, style)
    ensures var plan := PlanOf(prefix, Listing.TablesOf(remote, order));
            Ready(w, root, plan) <==> AllFlat(plan, schemas)
  {
    var listing := Listing.TablesOf(remote, order);
    var plan := PlanOf(prefix, listing);
    assert WellPlanned(plan) by {
      PlansAreWellPlanned(prefix, listing);
    }
    assert BelowRoot(plan.expected, root) by {
      forall id | id in plan.expected ensures id != [] && HasPrefix(id, root) {
        ListingIsBelow(remote, root, order, id);
      }
    }
    ReadyIffFlat(w, root, plan, schemas, style);
  }
}
