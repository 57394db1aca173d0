/** The local catalogue and attaching one table (src/fdw/attach_namespace.rs:225-339). */
module Attach {
  import opened Wrappers
  import opened Naming
  import opened Mapping

  type Columns = seq<(string, string)>

  /** The `ns.table_id` option of a foreign table, decoded. */
  datatype IdOption = NoId | BadId | GoodId(id: TableId)

  /** A relation; the columns of a foreign table are held as PostgreSQL displays them. */
  datatype Relation =
    | ForeignTable(server: string, tableId: IdOption, columns: Columns, batchSize: Option<int>)
    | OtherRelation(relkind: char)

  type Rels = map<Loc, Relation>

  /** Everything a run meets outside the local catalogue: the declared columns of a remote table
      under a local name (or why it cannot be loaded), PostgreSQL's display of declared
      columns, and which DDL statements fail. */
  datatype World = World(
    server: string,
    declared: (TableId, string) -> Result<Columns, string>,
    shown: Columns -> Columns,
    createFails: Loc -> bool,
    dropFails: Loc -> bool)

  datatype Action = CreateTable | SkipExisting | InSync | Drifted | RecreateTable | DropTable | ErrorAction
  datatype Status = Succeeded | Skipped | Failed
  datatype Row = Row(id: TableId, loc: Loc, action: Action, status: Status)

  function Lookup(rels: Rels, loc: Loc): Option<Relation> {
    if loc in rels then Some(rels[loc]) else None
  }

  function Put(rels: Rels, loc: Loc, r: Option<Relation>): Rels {
    if r.Some? then rels[loc := r.value] else rels - {loc}
  }

  predicate TableIdMatches(expected: TableId, actual: IdOption) {
    actual == GoodId(expected)
  }

  /** What attaching `id` at a location holding `cur` leaves there, and what it reports. */
  function AttachAt(w: World, batch: Option<int>, dryRun: bool, cur: Option<Relation>, id: TableId, loc: Loc)
    : (Option<Relation>, Result<(Action, Status), string>)
  {
    match cur
    case Some(ForeignTable(server, tableId, _, _)) =>
      if server != w.server then (cur, Err("different server"))
      else if !TableIdMatches(id, tableId) then (cur, Err("different ns.table_id"))
      else (cur, Ok((SkipExisting, Skipped)))
    case Some(OtherRelation(_)) => (cur, Err("not a foreign table"))
    case None =>
      if dryRun then (cur, Ok((CreateTable, Skipped)))
      else
        match w.declared(id, loc.1)
        case Err(e) => (cur, Err(e))
        case Ok(columns) =>
          if w.createFails(loc) then (cur, Err("DDL failed"))
          else (Some(ForeignTable(w.server, GoodId(id), w.shown(columns), batch)), Ok((CreateTable, Succeeded)))
  }

  class Catalog {
    var rels: Rels

    constructor (rels: Rels)
      ensures this.rels == rels
    {
      this.rels := rels;
    }

    method AttachOne(w: World, batch: Option<int>, dryRun: bool, id: TableId, loc: Loc)
      returns (r: Result<(Action, Status), string>)
      modifies this
      ensures (Lookup(rels, loc), r) == AttachAt(w, batch, dryRun, old(Lookup(rels, loc)), id, loc)
      ensures rels == Put(old(rels), loc, Lookup(rels, loc))
    {
      if loc in rels {
        var exists_ := rels[loc];
        match exists_
        case ForeignTable(server, tableId, _, _) =>
          if server != w.server {
            return Err("different server");
          } else if !TableIdMatches(id, tableId) {
            return Err("different ns.table_id");
          }
          return Ok((SkipExisting, Skipped));
        case OtherRelation(_) =>
          return Err("not a foreign table");
      }
      if dryRun {
        return Ok((CreateTable, Skipped));
      }
      var columns :- w.declared(id, loc.1);
      if w.createFails(loc) {
        return Err("DDL failed");
      }
      rels := rels[loc := ForeignTable(w.server, GoodId(id), w.shown(columns), batch)];
      return Ok((CreateTable, Succeeded));
    }

    method DropForeignTable(w: World, loc: Loc) returns (ok: bool)
      modifies this
      ensures ok <==> !w.dropFails(loc)
      ensures rels == if ok then old(rels) - {loc} else old(rels)
    {
      ok := !w.dropFails(loc);
      if ok {
        rels := rels - {loc};
      }
    }
  }
}
