/** Assigning local tables to remote table ids (src/fdw/attach_namespace.rs:160-184). */
module Mapping {
  import opened Wrappers
  import opened Ordered
  import opened Naming

  type Loc = (string, string)

  /** The local table of an id; the empty id, which has none, is reported as `_`. */
  function RowLocation(prefix: string, id: TableId): Loc {
    var l := Location(prefix, id);
    if l.Some? then l.value else ("_", "_")
  }

  type Placement = TableId -> Loc

  function LocationMap(prefix: string): Placement {
    id => RowLocation(prefix, id)
  }

  ghost predicate NonEmptyIds(ids: seq<TableId>)
  {
    forall i | 0 <= i < |ids| :: ids[i] != []
  }

  /** The ids mapped to one of the locations `locs`, in order. */
  function Within(at: Placement, ids: seq<TableId>, locs: set<Loc>): seq<TableId>
    decreases |ids|
  {
    if ids == [] then []
    else
      var id := ids[|ids| - 1];
      Within(at, ids[..|ids| - 1], locs) + (if at(id) in locs then [id] else [])
  }

  /** The ids that share one location. */
  function Sharers(at: Placement, ids: seq<TableId>, loc: Loc): seq<TableId>
  {
    Within(at, ids, {loc})
  }

  /** The locations of all ids. */
  ghost function Locs(at: Placement, ids: seq<TableId>): set<Loc>
  {
    set i | 0 <= i < |ids| :: at(ids[i])
  }

  ghost predicate Groups(at: Placement, ids: seq<TableId>, byLocal: map<Loc, seq<TableId>>)
  {
    byLocal.Keys == Locs(at, ids) && forall l | l in byLocal :: byLocal[l] == Sharers(at, ids, l)
  }

  lemma {:induction false} NoSharers(at: Placement, ids: seq<TableId>, loc: Loc)
    ensures Sharers(at, ids, loc) == [] <==> loc !in Locs(at, ids)
    decreases |ids|
  {
    if ids != [] {
      var p := ids[..|ids| - 1];
      NoSharers(at, p, loc);
      assert ids == p + [ids[|ids| - 1]];
    }
  }

  lemma {:induction false} GroupsSnoc(at: Placement, ids: seq<TableId>, id: TableId, byLocal: map<Loc, seq<TableId>>)
    requires Groups(at, ids, byLocal)
    ensures var l := at(id);
            Groups(at, ids + [id], byLocal[l := (if l in byLocal then byLocal[l] else []) + [id]])
  {
    var l := at(id);
    var after := byLocal[l := (if l in byLocal then byLocal[l] else []) + [id]];
    NoSharers(at, ids, l);
    forall k | k in after ensures after[k] == Sharers(at, ids + [id], k) {
    }
  }

  lemma {:induction false} WithinAdd(at: Placement, ids: seq<TableId>, locs: set<Loc>, l: Loc)
    requires l !in locs
    ensures multiset(Within(at, ids, locs + {l})) ==
            multiset(Within(at, ids, locs)) + multiset(Sharers(at, ids, l))
    decreases |ids|
  {
    if ids != [] {
      WithinAdd(at, ids[..|ids| - 1], locs, l);
    }
  }

  lemma {:induction false} WithinAll(at: Placement, ids: seq<TableId>, locs: set<Loc>)
    requires Locs(at, ids) <= locs
    ensures Within(at, ids, locs) == ids
    decreases |ids|
  {
    if ids != [] {
      var p := ids[..|ids| - 1];
      assert ids == p + [ids[|ids| - 1]];
      WithinAll(at, p, locs);
    }
  }

  lemma {:induction false} SharersShare(at: Placement, ids: seq<TableId>, loc: Loc, id: TableId)
    ensures id in Sharers(at, ids, loc) <==> id in ids && at(id) == loc
    decreases |ids|
  {
    if ids != [] {
      var p := ids[..|ids| - 1];
      assert ids == p + [ids[|ids| - 1]];
      SharersShare(at, p, loc, id);
    }
  }

  function MappedIds(mapping: seq<(TableId, Loc)>): seq<TableId> {
    seq(|mapping|, i requires 0 <= i < |mapping| => mapping[i].0)
  }

  /** The ids that have their location to themselves are mapped; all others are conflicts. */
  ghost predicate Assigned(at: Placement, ids: seq<TableId>, locs: set<Loc>, conflicts: seq<TableId>,
                           mapping: seq<(TableId, Loc)>)
  {
    && multiset(conflicts) + multiset(MappedIds(mapping)) == multiset(Within(at, ids, locs))
    && (forall i | 0 <= i < |mapping| :: mapping[i].1 in locs && Sharers(at, ids, mapping[i].1) == [mapping[i].0])
    && (forall id | id in conflicts :: at(id) in locs && |Sharers(at, ids, at(id))| > 1)
    && (forall i, j | 0 <= i < j < |mapping| :: mapping[i].1 != mapping[j].1)
  }

  lemma {:induction false} AssignMapped(at: Placement, ids: seq<TableId>, locs: set<Loc>, conflicts: seq<TableId>,
                                        mapping: seq<(TableId, Loc)>, l: Loc, id: TableId)
    requires Assigned(at, ids, locs, conflicts, mapping)
    requires l !in locs && Sharers(at, ids, l) == [id]
    ensures Assigned(at, ids, locs + {l}, conflicts, mapping + [(id, l)])
  {
    var after := mapping + [(id, l)];
    OneMoreMapped(at, ids, locs, conflicts, mapping, l, id);
    forall i, j | 0 <= i < j < |after| ensures after[i].1 != after[j].1 {
      assert mapping[i].1 in locs;
    }
  }

  lemma {:induction false} OneMoreMapped(at: Placement, ids: seq<TableId>, locs: set<Loc>, conflicts: seq<TableId>,
                                         mapping: seq<(TableId, Loc)>, l: Loc, id: TableId)
    requires multiset(conflicts) + multiset(MappedIds(mapping)) == multiset(Within(at, ids, locs))
    requires l !in locs && Sharers(at, ids, l) == [id]
    ensures multiset(conflicts) + multiset(MappedIds(mapping + [(id, l)])) == multiset(Within(at, ids, locs + {l}))
  {
    WithinAdd(at, ids, locs, l);
    assert MappedIds(mapping + [(id, l)]) == MappedIds(mapping) + [id];
  }

  lemma {:induction false} AssignConflict(at: Placement, ids: seq<TableId>, locs: set<Loc>, conflicts: seq<TableId>,
                                          mapping: seq<(TableId, Loc)>, l: Loc)
    requires Assigned(at, ids, locs, conflicts, mapping)
    requires l !in locs && |Sharers(at, ids, l)| > 1
    ensures Assigned(at, ids, locs + {l}, conflicts + Sharers(at, ids, l), mapping)
  {
    WithinAdd(at, ids, locs, l);
    forall id | id in Sharers(at, ids, l) ensures at(id) == l {
      SharersShare(at, ids, l, id);
    }
  }

  /** The conflicts and the mapping that the second loop produces from the locations `keys`. */
  function ConflictsAt(at: Placement, ids: seq<TableId>, keys: seq<Loc>): seq<TableId>
    decreases |keys|
  {
    if keys == [] then []
    else
      var group := Sharers(at, ids, keys[|keys| - 1]);
      ConflictsAt(at, ids, keys[..|keys| - 1]) + (if |group| > 1 then group else [])
  }

  function MappingAt(at: Placement, ids: seq<TableId>, keys: seq<Loc>): seq<(TableId, Loc)>
    decreases |keys|
  {
    if keys == [] then []
    else
      var l := keys[|keys| - 1];
      var group := Sharers(at, ids, l);
      MappingAt(at, ids, keys[..|keys| - 1]) + (if |group| == 1 then [(group[0], l)] else [])
  }

  function LocationsOf(at: Placement, ids: seq<TableId>): seq<Loc> {
    SortedPairs(set i | 0 <= i < |ids| :: at(ids[i]))
  }

  /** The mapping and the conflicts follow the order of the locations; ids that share one follow the
      listing. */
  ghost predicate InOrder(at: Placement, ids: seq<TableId>, conflicts: seq<TableId>, mapping: seq<(TableId, Loc)>)
  {
    && (forall i, j | 0 <= i < j < |mapping| :: PairPrecedes(mapping[i].1, mapping[j].1))
    && (forall i, j | 0 <= i < j < |conflicts| ::
         || PairPrecedes(at(conflicts[i]), at(conflicts[j]))
         || (at(conflicts[i]) == at(conflicts[j]) && ListedBefore(ids, conflicts[i], conflicts[j])))
  }

  ghost predicate ListedBefore(ids: seq<TableId>, a: TableId, b: TableId)
  {
    exists i, j :: 0 <= i < j < |ids| && ids[i] == a && ids[j] == b
  }

  lemma {:induction false} WithinListed(at: Placement, ids: seq<TableId>, loc: Loc)
    ensures var g := Sharers(at, ids, loc);
            forall i, j | 0 <= i < j < |g| :: ListedBefore(ids, g[i], g[j])
    decreases |ids|
  {
    if ids != [] {
      var p, last, n := ids[..|ids| - 1], ids[|ids| - 1], |ids| - 1;
      WithinListed(at, p, loc);
      var before, g := Sharers(at, p, loc), Sharers(at, ids, loc);
      forall i, j | 0 <= i < j < |g| ensures ListedBefore(ids, g[i], g[j]) {
        if j < |before| {
          assert ListedBefore(p, before[i], before[j]);
          var a, b :| 0 <= a < b < |p| && p[a] == before[i] && p[b] == before[j];
          assert ids[a] == g[i] && ids[b] == g[j];
        } else {
          SharersShare(at, p, loc, before[i]);
          var a :| 0 <= a < |p| && p[a] == before[i];
          assert ids[a] == g[i] && ids[n] == g[j];
        }
      }
    }
  }

  lemma {:induction false} AssignedInOrder(at: Placement, ids: seq<TableId>, keys: seq<Loc>)
    requires forall i, j | 0 <= i < j < |keys| :: PairPrecedes(keys[i], keys[j])
    ensures InOrder(at, ids, ConflictsAt(at, ids, keys), MappingAt(at, ids, keys))
    ensures forall id | id in ConflictsAt(at, ids, keys) :: at(id) in keys
    ensures forall i | 0 <= i < |MappingAt(at, ids, keys)| :: MappingAt(at, ids, keys)[i].1 in keys
    decreases |keys|
  {
    if keys != [] {
      var before, l := keys[..|keys| - 1], keys[|keys| - 1];
      AssignedInOrder(at, ids, before);
      WithinListed(at, ids, l);
      var group := Sharers(at, ids, l);
      forall id | id in group ensures at(id) == l {
        SharersShare(at, ids, l, id);
      }
      GroupInOrder(at, ids, before, l);
    }
  }

  lemma {:induction false} GroupInOrder(at: Placement, ids: seq<TableId>, before: seq<Loc>, l: Loc)
    requires forall i | 0 <= i < |before| :: PairPrecedes(before[i], l)
    requires InOrder(at, ids, ConflictsAt(at, ids, before), MappingAt(at, ids, before))
    requires forall id | id in ConflictsAt(at, ids, before) :: at(id) in before
    requires forall i | 0 <= i < |MappingAt(at, ids, before)| :: MappingAt(at, ids, before)[i].1 in before
    requires var g := Sharers(at, ids, l);
             (forall id | id in g :: at(id) == l) && forall i, j | 0 <= i < j < |g| :: ListedBefore(ids, g[i], g[j])
    ensures var g := Sharers(at, ids, l);
            InOrder(at, ids, ConflictsAt(at, ids, before) + (if |g| > 1 then g else []),
                    MappingAt(at, ids, before) + (if |g| == 1 then [(g[0], l)] else []))
  {
    var g, c := Sharers(at, ids, l), ConflictsAt(at, ids, before);
    var all := c + (if |g| > 1 then g else []);
    forall i, j | 0 <= i < j < |all|
      ensures || PairPrecedes(at(all[i]), at(all[j]))
              || (at(all[i]) == at(all[j]) && ListedBefore(ids, all[i], all[j]))
    {
      if j >= |c| {
        assert all[j] in g;
        if i < |c| {
          assert c[i] in c && at(c[i]) in before;
        } else {
          assert all[i] in g && ListedBefore(ids, g[i - |c|], g[j - |c|]);
        }
      }
    }
  }

  /** Every listed id ends up exactly once in `conflicts` or in `mapping`; the mapped
      locations are pairwise distinct and belong to one id each, and a conflicting id shares its
      location with another entry of the listing. */
  method BuildMapping(schemaPrefix: string, tableIds: seq<TableId>)
    returns (r: Result<(seq<TableId>, seq<(TableId, Loc)>), string>)
    ensures r.Ok? <==> NonEmptyIds(tableIds)
    ensures r.Ok? ==> Assigned(LocationMap(schemaPrefix), tableIds, Locs(LocationMap(schemaPrefix), tableIds),
            r.value.0, r.value.1)
    ensures r.Ok? ==> multiset(r.value.0) + multiset(MappedIds(r.value.1)) == multiset(tableIds)
    ensures r.Ok? ==> InOrder(LocationMap(schemaPrefix), tableIds, r.value.0, r.value.1)
    ensures r.Ok? ==> var at := LocationMap(schemaPrefix); var keys := LocationsOf(at, tableIds);
              r.value == (ConflictsAt(at, tableIds, keys), MappingAt(at, tableIds, keys))
  {
    var byLocal :- GroupByLocation(schemaPrefix, tableIds);
    var conflicts, mapping := SplitGroups(LocationMap(schemaPrefix), tableIds, byLocal);
    EveryIdIsAssigned(LocationMap(schemaPrefix), tableIds);
    AssignedInOrder(LocationMap(schemaPrefix), tableIds, LocationsOf(LocationMap(schemaPrefix), tableIds));
    r := Ok((conflicts, mapping));
  }

  /** The first loop: collect the ids of every location. */
  method GroupByLocation(schemaPrefix: string, tableIds: seq<TableId>)
    returns (r: Result<map<Loc, seq<TableId>>, string>)
    ensures r.Ok? <==> NonEmptyIds(tableIds)
    ensures r.Ok? ==> Groups(LocationMap(schemaPrefix), tableIds, r.value)
  {
    var byLocal: map<Loc, seq<TableId>> := map[];
    for i := 0 to |tableIds|
      invariant NonEmptyIds(tableIds[..i])
      invariant Groups(LocationMap(schemaPrefix), tableIds[..i], byLocal)
    {
      assert tableIds[..i + 1] == tableIds[..i] + [tableIds[i]];
      var local :- SchemaAndTableForTableId(schemaPrefix, tableIds[i]);
      byLocal := AddToGroup(LocationMap(schemaPrefix), tableIds[..i], byLocal, tableIds[i], local);
    }
    assert tableIds[..|tableIds|] == tableIds;
    r := Ok(byLocal);
  }

  method AddToGroup(ghost at: Placement, ghost ids: seq<TableId>, byLocal: map<Loc, seq<TableId>>, id: TableId, l: Loc)
    returns (grown: map<Loc, seq<TableId>>)
    requires Groups(at, ids, byLocal) && l == at(id)
    ensures Groups(at, ids + [id], grown)
  {
    GroupsSnoc(at, ids, id, byLocal);
    grown := byLocal[l := (if l in byLocal then byLocal[l] else []) + [id]];
  }

  /** The second loop: one pass over the locations in ascending order. */
  method SplitGroups(ghost at: Placement, ghost ids: seq<TableId>, byLocal: map<Loc, seq<TableId>>)
    returns (conflicts: seq<TableId>, mapping: seq<(TableId, Loc)>)
    requires Groups(at, ids, byLocal)
    ensures conflicts == ConflictsAt(at, ids, LocationsOf(at, ids))
    ensures mapping == MappingAt(at, ids, LocationsOf(at, ids))
  {
    var keys := SortedPairs(byLocal.Keys);
    conflicts, mapping := [], [];
    for i := 0 to |keys|
      invariant conflicts == ConflictsAt(at, ids, keys[..i]) && mapping == MappingAt(at, ids, keys[..i])
    {
      assert keys[i] in keys;
      var group := byLocal[keys[i]];
      KeysSnoc(at, ids, keys, i);
      NoSharers(at, ids, keys[i]);
      if |group| > 1 {
        conflicts := conflicts + group;
      } else {
        mapping := mapping + [(group[0], keys[i])];
      }
    }
    assert keys[..|keys|] == keys;
  }

  lemma {:induction false} KeysSnoc(at: Placement, ids: seq<TableId>, keys: seq<Loc>, i: nat)
    requires i < |keys|
    ensures var group := Sharers(at, ids, keys[i]);
            && ConflictsAt(at, ids, keys[..i + 1]) ==
              ConflictsAt(at, ids, keys[..i]) + (if |group| > 1 then group else [])
            && MappingAt(at, ids, keys[..i + 1]) ==
              MappingAt(at, ids, keys[..i]) + (if |group| == 1 then [(group[0], keys[i])] else [])
  {
    assert keys[..i + 1][..i] == keys[..i];
  }

  lemma {:induction false} AssignStep(at: Placement, ids: seq<TableId>, locs: set<Loc>, conflicts: seq<TableId>,
                                      mapping: seq<(TableId, Loc)>, l: Loc)
    requires Assigned(at, ids, locs, conflicts, mapping) && l !in locs && l in Locs(at, ids)
    ensures var group := Sharers(at, ids, l);
            Assigned(at, ids, locs + {l}, conflicts + (if |group| > 1 then group else []),
                     mapping + (if |group| == 1 then [(group[0], l)] else []))
  {
    var group := Sharers(at, ids, l);
    NoSharers(at, ids, l);
    if |group| > 1 {
      AssignConflict(at, ids, locs, conflicts, mapping, l);
      assert mapping + [] == mapping;
    } else {
      assert group == [group[0]] && conflicts + [] == conflicts;
      AssignMapped(at, ids, locs, conflicts, mapping, l, group[0]);
    }
  }

  ghost function KeySet(keys: seq<Loc>): set<Loc> {
    set l | l in keys
  }

  /** One pass over distinct locations assigns every id found at one of them. */
  lemma {:induction false} AssignedAt(at: Placement, ids: seq<TableId>, keys: seq<Loc>)
    requires Distinct(keys) && forall l | l in keys :: l in Locs(at, ids)
    ensures Assigned(at, ids, KeySet(keys), ConflictsAt(at, ids, keys), MappingAt(at, ids, keys))
    decreases |keys|
  {
    if keys == [] {
      NoneWithin(at, ids);
      assert KeySet(keys) == {};
    } else {
      var before, l := keys[..|keys| - 1], keys[|keys| - 1];
      assert keys == before + [l];
      AssignedAt(at, ids, before);
      assert KeySet(keys) == KeySet(before) + {l};
      AssignStep(at, ids, KeySet(before), ConflictsAt(at, ids, before), MappingAt(at, ids, before), l);
    }
  }

  /** Every id is accounted for: as a conflict or in the mapping, and exactly once. */
  lemma {:induction false} EveryIdIsAssigned(at: Placement, ids: seq<TableId>)
    ensures var keys := LocationsOf(at, ids);
            var conflicts, mapping := ConflictsAt(at, ids, keys), MappingAt(at, ids, keys);
            && Assigned(at, ids, Locs(at, ids), conflicts, mapping)
            && multiset(conflicts) + multiset(MappedIds(mapping)) == multiset(ids)
  {
    var keys := LocationsOf(at, ids);
    AssignedAt(at, ids, keys);
    assert KeySet(keys) == Locs(at, ids);
    WithinAll(at, ids, Locs(at, ids));
  }

  lemma {:induction false} NoneWithin(at: Placement, ids: seq<TableId>)
    ensures Within(at, ids, {}) == []
    decreases |ids|
  {
    if ids != [] {
      NoneWithin(at, ids[..|ids| - 1]);
    }
  }
}
