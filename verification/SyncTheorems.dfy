/** What every reconciling run keeps, and where repeated runs lead. */
module SyncTheorems {
  import opened Wrappers
  import opened Ordered
  import opened Naming
  import opened Mapping
  import opened Attach
  import opened Sync

  // ----- the plan -----

  ghost predicate DistinctLocs(mapping: seq<(TableId, Loc)>)
  {
    forall i, j | 0 <= i < j < |mapping| :: mapping[i].1 != mapping[j].1
  }

  /** Mapped ids are expected at their locations, and no other expected id has such a location. */
  ghost predicate WellPlanned(plan: Plan)
  {
    && DistinctLocs(plan.mapping)
    && (forall i | 0 <= i < |plan.mapping| :: plan.mapping[i].0 in plan.expected)
    && (forall i, id | 0 <= i < |plan.mapping| && id in plan.expected ::
          plan.at(id) == plan.mapping[i].1 <==> id == plan.mapping[i].0)
  }

  lemma {:induction false} PlansAreWellPlanned(prefix: string, listing: seq<TableId>)
    ensures WellPlanned(PlanOf(prefix, listing))
  {
    EveryIdIsAssigned(LocationMap(prefix), listing);
    AssignedPlans(PlanOf(prefix, listing), listing);
  }

  lemma {:induction false} AssignedPlans(plan: Plan, ids: seq<TableId>)
    requires Assigned(plan.at, ids, Locs(plan.at, ids), plan.conflicts, plan.mapping)
    requires plan.expected == set id | id in ids
    ensures WellPlanned(plan)
  {
    forall i | 0 <= i < |plan.mapping| ensures plan.mapping[i].0 in ids {
      SharersShare(plan.at, ids, plan.mapping[i].1, plan.mapping[i].0);
    }
    forall i, id | 0 <= i < |plan.mapping| && id in plan.expected
      ensures plan.at(id) == plan.mapping[i].1 <==> id == plan.mapping[i].0
    {
      SharersShare(plan.at, ids, plan.mapping[i].1, id);
    }
  }

  // ----- conflicts -----

  lemma {:induction false} SharersAreDistinct(at: Placement, ids: seq<TableId>, loc: Loc)
    requires Distinct(ids)
    ensures Distinct(Sharers(at, ids, loc))
    decreases |ids|
  {
    if ids != [] {
      var before, last := ids[..|ids| - 1], ids[|ids| - 1];
      SharersAreDistinct(at, before, loc);
      SharersShare(at, before, loc, last);
      assert last !in before;
    }
  }

  /** An id of a listing without repetitions is a conflict exactly when another one shares its
      location. */
  lemma {:induction false} ConflictIffShared(plan: Plan, ids: seq<TableId>, id: TableId)
    requires Assigned(plan.at, ids, Locs(plan.at, ids), plan.conflicts, plan.mapping)
    requires multiset(plan.conflicts) + multiset(MappedIds(plan.mapping)) == multiset(ids)
    requires Distinct(ids) && id in ids
    ensures id in plan.conflicts <==> exists other :: other in ids && other != id && plan.at(other) == plan.at(id)
  {
    var group := Sharers(plan.at, ids, plan.at(id));
    SharersAreDistinct(plan.at, ids, plan.at(id));
    forall x ensures x in group <==> x in ids && plan.at(x) == plan.at(id) {
      SharersShare(plan.at, ids, plan.at(id), x);
    }
    if id in plan.conflicts {
      var other := if group[0] == id then group[1] else group[0];
      assert other in group && other != id;
    } else {
      assert id in multiset(ids) && id in multiset(MappedIds(plan.mapping));
      var i :| 0 <= i < |plan.mapping| && MappedIds(plan.mapping)[i] == id;
      SharersShare(plan.at, ids, plan.mapping[i].1, id);
      assert group == [id];
    }
  }

  /** While no schema name is cut, an id is a conflict exactly when another one agrees with it part
      by part after sanitising. */
  lemma {:induction false} ConflictIffSanitizedAlike(prefix: string, listing: seq<TableId>, id: TableId)
    requires Distinct(listing) && id in listing
    requires forall x | x in listing :: x != [] && |FullSchema(prefix, Namespace(x))| <= MAX_IDENT
    ensures id in PlanOf(prefix, listing).conflicts <==>
            exists other :: other in listing && other != id && SanitizedAll(other) == SanitizedAll(id)
  {
    var at := LocationMap(prefix);
    EveryIdIsAssigned(at, listing);
    ConflictIffShared(PlanOf(prefix, listing), listing, id);
    forall other | other in listing ensures at(other) == at(id) <==> SanitizedAll(other) == SanitizedAll(id) {
      LocationUniquelyDecodable(prefix, other, id);
    }
  }

  ghost predicate IsMapped(mapping: seq<(TableId, Loc)>, n: nat, l: Loc)
    requires n <= |mapping|
  {
    exists i :: 0 <= i < n && mapping[i].1 == l
  }

  // ----- entries do not influence each other -----

  /** Before entry `n`, its location is as it was at the start. */
  lemma {:induction false} EntriesElsewhere(w: World, flags: Flags, local: map<TableId, Local>, rels: Rels,
                                            mapping: seq<(TableId, Loc)>, n: nat, l: Loc)
    requires n <= |mapping| && !IsMapped(mapping, n, l)
    ensures Lookup(Entries(w, flags, local, rels, mapping, n).0, l) == Lookup(rels, l)
    decreases n
  {
    if n > 0 {
      assert mapping[n - 1].1 != l;
      assert forall i | 0 <= i < n - 1 :: mapping[i].1 != l;
      EntriesElsewhere(w, flags, local, rels, mapping, n - 1, l);
    }
  }

  ghost predicate EntryDone(w: World, flags: Flags, local: map<TableId, Local>, rels: Rels, entry: (TableId, Loc),
                            after: Rels, row: Row)
  {
    (Lookup(after, entry.1), Ok(row)) == EntryAt(w, flags, local, Lookup(rels, entry.1), entry.0, entry.1)
  }

  /** Each entry of a finished loop acts as if it ran alone, on the catalogue of the start. */
  lemma {:induction false} EntriesAlone(w: World, flags: Flags, local: map<TableId, Local>, rels: Rels,
                                        mapping: seq<(TableId, Loc)>, n: nat)
    requires n <= |mapping| && DistinctLocs(mapping)
    requires Entries(w, flags, local, rels, mapping, n).1.Ok?
    ensures var e := Entries(w, flags, local, rels, mapping, n);
            |e.1.value| == n && forall i | 0 <= i < n :: EntryDone(w, flags, local, rels, mapping[i], e.0, e.1.value[i])
    decreases n
  {
    if n > 0 {
      EntriesAlone(w, flags, local, rels, mapping, n - 1);
      EntriesElsewhere(w, flags, local, rels, mapping, n - 1, mapping[n - 1].1);
      var before, e := Entries(w, flags, local, rels, mapping, n - 1), Entries(w, flags, local, rels, mapping, n);
      forall i | 0 <= i < n ensures EntryDone(w, flags, local, rels, mapping[i], e.0, e.1.value[i]) {
        if i < n - 1 {
          assert EntryDone(w, flags, local, rels, mapping[i], before.0, before.1.value[i]);
          assert mapping[i].1 != mapping[n - 1].1;
        }
      }
    }
  }

  // ----- a dry run is honest -----

  ghost predicate SameReport(a: Result<seq<Row>, string>, b: Result<seq<Row>, string>)
  {
    match (a, b)
    case (Err(e), Err(f)) => e == f
    case (Ok(r), Ok(s)) => |r| == |s| && forall i | 0 <= i < |r| :: SameAction(r[i], s[i])
    case _ => false
  }

  predicate SameAction(a: Row, b: Row) {
    a.id == b.id && a.loc == b.loc && a.action == b.action
  }

  function Dry(flags: Flags): Flags {
    flags.(dryRun := true)
  }

  lemma {:induction false} DryEntry(w: World, flags: Flags, local: map<TableId, Local>, cur: Option<Relation>,
                                    id: TableId, loc: Loc)
    ensures var live, dry := EntryAt(w, flags, local, cur, id, loc), EntryAt(w, Dry(flags), local, cur, id, loc);
            && dry.0 == cur
            && (if live.1.Err? then dry.1 == live.1 else dry.1.Ok? && SameAction(live.1.value, dry.1.value))
  {
  }

  lemma {:induction false} DryEntries(w: World, flags: Flags, local: map<TableId, Local>, rels: Rels,
                                      mapping: seq<(TableId, Loc)>, n: nat)
    requires n <= |mapping| && DistinctLocs(mapping)
    ensures var live, dry := Entries(w, flags, local, rels, mapping, n),
            Entries(w, Dry(flags), local, rels, mapping, n);
            dry.0 == rels && SameReport(live.1, dry.1)
    decreases n
  {
    if n > 0 {
      DryEntries(w, flags, local, rels, mapping, n - 1);
      EntriesElsewhere(w, flags, local, rels, mapping, n - 1, mapping[n - 1].1);
      DryStep(w, flags, local, rels, mapping, n);
    }
  }

  lemma {:induction false} DryStep(w: World, flags: Flags, local: map<TableId, Local>, rels: Rels,
                                   mapping: seq<(TableId, Loc)>, n: nat)
    requires 0 < n <= |mapping|
    requires var live, dry := Entries(w, flags, local, rels, mapping, n - 1),
             Entries(w, Dry(flags), local, rels, mapping, n - 1);
             && dry.0 == rels && SameReport(live.1, dry.1)
             && Lookup(live.0, mapping[n - 1].1) == Lookup(rels, mapping[n - 1].1)
    ensures var live, dry := Entries(w, flags, local, rels, mapping, n),
            Entries(w, Dry(flags), local, rels, mapping, n);
            dry.0 == rels && SameReport(live.1, dry.1)
  {
    var loc := mapping[n - 1].1;
    DryEntry(w, flags, local, Lookup(rels, loc), mapping[n - 1].0, loc);
  }

  lemma {:induction false} DryStale(w: World, flags: Flags, local: map<TableId, Local>, expected: set<TableId>,
                                    locs: seq<Loc>)
    requires OneIdPerLoc(local) && forall l | l in locs :: l in StaleLocs(local, expected)
    ensures SameReport(Ok(StaleRows(w, flags, local, expected, locs)),
            Ok(StaleRows(w, Dry(flags), local, expected, locs)))
  {
  }

  lemma {:induction false} AppendReports(head: seq<Row>, a: seq<Row>, b: seq<Row>, c: seq<Row>, d: seq<Row>)
    requires SameReport(Ok(a), Ok(b)) && SameReport(Ok(c), Ok(d))
    ensures SameReport(Ok(head + a + c), Ok(head + b + d))
  {
    forall i | 0 <= i < |head + a + c| ensures SameAction((head + a + c)[i], (head + b + d)[i]) {
      if |head| <= i < |head| + |a| {
        assert SameAction(a[i - |head|], b[i - |head|]);
      } else if |head| + |a| <= i {
        assert SameAction(c[i - |head| - |a|], d[i - |head| - |a|]);
      }
    }
  }

  /** A dry run leaves the catalogue alone and reports, entry by entry, the actions the real run
      takes from the same state, whatever DDL fails; if the real run aborts, the dry run aborts
      with the same error. */
  lemma {:induction false} DryRunIsHonest(w: World, root: TableId, flags: Flags, prefix: string, listing: seq<TableId>,
                                          rels: Rels)
    ensures var plan := PlanOf(prefix, listing);
            var live, dry := Run(w, root, flags, plan, rels), Run(w, root, Dry(flags), plan, rels);
            dry.0 == rels && SameReport(live.1, dry.1)
  {
    PlansAreWellPlanned(prefix, listing);
    DryPlan(w, root, flags, PlanOf(prefix, listing), rels);
  }

  lemma {:induction false} DryPlan(w: World, root: TableId, flags: Flags, plan: Plan, rels: Rels)
    requires WellPlanned(plan)
    ensures var live, dry := Run(w, root, flags, plan, rels), Run(w, root, Dry(flags), plan, rels);
            dry.0 == rels && SameReport(live.1, dry.1)
  {
    IntrospectionIsInjective(w, root, rels);
    var found := Introspection(w, root, rels);
    DryEntries(w, flags, found.local, rels, plan.mapping, |plan.mapping|);
    var live := Entries(w, flags, found.local, rels, plan.mapping, |plan.mapping|);
    var dry := Entries(w, Dry(flags), found.local, rels, plan.mapping, |plan.mapping|);
    if live.1.Ok? {
      var stale := SortedPairs(StaleLocs(found.local, plan.expected));
      DryStale(w, flags, found.local, plan.expected, stale);
      AppendReports(ConflictRows(plan.at, plan.conflicts) + found.errors, live.1.value, dry.1.value,
                    StaleRows(w, flags, found.local, plan.expected, stale),
                    StaleRows(w, Dry(flags), found.local, plan.expected, stale));
    }
  }

  // ----- what a run may change -----

  /** A change at `l` either fills an empty location, drops a managed relation, or replaces a
      managed relation by one with the same id; what it leaves is a table of this server whose id is
      mapped to `l`. Expected ids need `recreate_changed` for that, others `drop_missing`. */
  ghost predicate Allowed(w: World, root: TableId, flags: Flags, plan: Plan, l: Loc, before: Option<Relation>,
                          now: Option<Relation>)
  {
    || before == now
    || (&& !flags.dryRun
        && (before.Some? ==> Replaceable(w, root, flags, plan, before.value))
        && (now.Some? ==> Fresh(w, plan.mapping, l, before, now.value)))
  }

  ghost predicate Replaceable(w: World, root: TableId, flags: Flags, plan: Plan, r: Relation)
  {
    Managed(w, root, r) && if r.tableId.id in plan.expected then flags.recreateChanged else flags.dropMissing
  }

  ghost predicate Fresh(w: World, mapping: seq<(TableId, Loc)>, l: Loc, before: Option<Relation>, now: Relation)
  {
    && now.ForeignTable? && now.server == w.server && now.tableId.GoodId?
    && (now.tableId.id, l) in mapping
    && (before.Some? ==> before.value.ForeignTable? && before.value.tableId == now.tableId)
  }

  /** Introspection describes the catalogue. */
  ghost predicate Describes(w: World, root: TableId, rels: Rels, local: map<TableId, Local>)
  {
    forall id | id in local :: FoundAt(w, root, rels, id, local[id])
  }

  lemma {:induction false} IntrospectionDescribes(w: World, root: TableId, rels: Rels)
    ensures Describes(w, root, rels, Introspection(w, root, rels).local)
  {
    var locs := SortedPairs(rels.Keys);
    IntrospectSound(w, root, rels, locs);
    var local := Introspection(w, root, rels).local;
    forall id | id in local ensures FoundAt(w, root, rels, id, local[id]) {
      assert local == Introspect(w, root, rels, locs).local;
    }
  }

  lemma {:induction false} EntryIsAllowed(w: World, root: TableId, flags: Flags, rels: Rels, local: map<TableId, Local>,
                                          plan: Plan, id: TableId, loc: Loc)
    requires Describes(w, root, rels, local) && (id, loc) in plan.mapping && id in plan.expected
    ensures Allowed(w, root, flags, plan, loc, Lookup(rels, loc),
            EntryAt(w, flags, local, Lookup(rels, loc), id, loc).0)
  {
    if id in local && local[id].loc == loc {
      assert FoundAt(w, root, rels, id, local[id]);
    }
  }

  lemma {:induction false} EntriesAreAllowed(w: World, root: TableId, flags: Flags, rels: Rels,
                                             local: map<TableId, Local>,
                                             plan: Plan, n: nat, l: Loc)
    requires n <= |plan.mapping| && WellPlanned(plan) && Describes(w, root, rels, local)
    ensures Allowed(w, root, flags, plan, l, Lookup(rels, l),
            Lookup(Entries(w, flags, local, rels, plan.mapping, n).0, l))
    decreases n
  {
    if n > 0 {
      var mapping := plan.mapping;
      EntriesAreAllowed(w, root, flags, rels, local, plan, n - 1, l);
      var id, loc := mapping[n - 1].0, mapping[n - 1].1;
      if loc == l {
        EntriesElsewhere(w, flags, local, rels, mapping, n - 1, loc);
        assert (id, loc) in mapping by {
          assert mapping[n - 1] == (id, loc);
        }
        EntryIsAllowed(w, root, flags, rels, local, plan, id, loc);
      }
    }
  }

  /** Frame: whatever happens, even in an aborted run, only empty locations and managed tables
      change: no relation of another server, of another kind or with an id outside the root. */
  lemma {:induction false} OnlyManagedChange(w: World, root: TableId, flags: Flags, prefix: string,
                                             listing: seq<TableId>,
                                             rels: Rels, l: Loc)
    ensures var plan := PlanOf(prefix, listing);
            Allowed(w, root, flags, plan, l, Lookup(rels, l), Lookup(Run(w, root, flags, plan, rels).0, l))
  {
    PlansAreWellPlanned(prefix, listing);
    PlanChangesManaged(w, root, flags, PlanOf(prefix, listing), rels, l);
  }

  lemma {:induction false} PlanChangesManaged(w: World, root: TableId, flags: Flags, plan: Plan, rels: Rels, l: Loc)
    requires WellPlanned(plan)
    ensures Allowed(w, root, flags, plan, l, Lookup(rels, l), Lookup(Run(w, root, flags, plan, rels).0, l))
  {
    IntrospectionDescribes(w, root, rels);
    var local := Introspection(w, root, rels).local;
    EntriesAreAllowed(w, root, flags, rels, local, plan, |plan.mapping|, l);
  }

}
