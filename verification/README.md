# Verified model of pglance

pglance shows Lance datasets as PostgreSQL foreign tables and writes query results back to them. This
project models four pieces of its own logic in Dafny and proves what they keep. `dafny verify dfyconfig.toml`
checks everything.

**The type compiler and its runtime.** `Arrow`, `TypeMapping`, `DdlOrder`, `SchemaOrder`, `Declared`, `Imports`, `DdlText`,
`DdlParser`, `Convert`, `JsonMeaning`, `TypeSafety` and `Readability` take an Arrow schema from its compilation to
column and composite types, over the order and the text of the DDL, to the validation at the start of a scan and
the conversion of every value. The main results: what import declares, validation accepts (with the exact
exceptions); what validation accepts, conversion never rejects on type grounds; a conversion succeeds exactly on
readable values and shows what they denote; the DDL can be executed; and what is printed reads back.

**The namespace reconciler.** `Naming`, `Listing`, `Mapping`, `Attach`, `Canonical`, `Drift`, `DriftTheorems`, `Sync`,
`SyncTheorems`, `SyncReports`, `Convergence` and `AttachNamespace` model the local catalogue as mutable state and a
run as a transition on it. The main results: names are uniquely decodable, every row of a report is justified by
the catalogue and the remote tables, dry runs are honest, only managed tables change, every table is accounted for,
runs converge, and attaching leaves nothing for them to do.

**The write and scan pipeline.** `WriteTypes`, `Pieces`, `Streaming`, `ChunkStream`, `Append`, `Merging`,
`MergeInsert`, `MergeTheorems`, `Scan` and `ScanTheorems` cut a cursor into chunks and batches, commit each
chunk, and flatten batches back into rows. The main results: outcomes do not depend on any size, a failure leaves
a well-defined prefix, a rerun heals it, and scans show what was written.

**The direct aggregates.** `Aggregate` and `Decimal`: the streaming minimum and maximum agrees with aggregating
converted rows, and decimals print exactly.

`Wrappers`, `Words`, `Ordered`, `Text` and `Machine` are shared vocabulary. Code that works by changing things
step by step is a method or class with loops, proved against a specification function; the theorems are about
that function. The Lance SDK is foreign: a write is create, append or overwrite of a row sequence, a merge is a
map from keys to rows, and both either happen completely or not at all. A server's answers, PostgreSQL's display of
types, memory sizes and failing statements are parameters, so results hold for all of them.

## Where the code and its promises differ

- Unsigned integers follow the code (src/fdw/type_mapping.rs:44-46: UInt16 to int4, UInt32 to int8), not the table
  in README.md:573-574.
- Validation and drift detection both stumble over lists of lists, because PostgreSQL reads `T[][]` as `T[]`: such
  a column does not validate unless it bottoms out in jsonb (`Declared.DeclaredValidatesIff`; an input:
  `Declared.NestedListIsRejected`), and its table is recreated by every run (`Drift.StableIff`,
  `Convergence.TwoRunsConvergeIff`; a family of inputs: `Convergence.NestedListsNeverSettle`).
- Drift detection compares the names of composite types only: a struct whose fields changed stays in sync and may
  no longer validate (`DriftTheorems.InSyncValidatesIff`; an input: `DriftTheorems.StructChangeIsMissed`).
- Validation looks at the elements of lists fixed at length zero, although there are none
  (`TypeSafety.ValidationIsExactIff`; an input: `TypeSafety.EmptyListsAreRejected`).
- The 60-byte cut can give a struct the name of one that encloses it; then no order of creation exists
  (`SchemaOrder.BackEdgeColumnsIff`; inputs: `SchemaOrder.LongNameIsUnorderable`).
- Unrelated structs can share a generated name; the second then reuses the definition of the first and may not
  validate (`Imports.NamedValidatesIff`; an input: `Imports.CollisionBreaksColumn`). So can structs of two tables in
  one schema (`Imports.SecondTableTakesForeign`).
- Sanitising is not idempotent when the 63-byte cut falls behind an underscore (`Naming.SanitizeIdempotentIff`; an
  input: `Naming.CutBehindUnderscore`).
- The shift of read timestamps to 2000-01-01 is unchecked: some instants of the distant past come out in the distant
  future (`TypeSafety.TimestampShownWrongIff` and, with PostgreSQL's range, `TypeSafety.AncientTimestampsIff`; an
  input: `TypeSafety.EarliestSecondIsShownWrong`), and a scanned extremum can then differ from the direct one
  (`Aggregate.AgreesWithScanIff`; an input: `Aggregate.EarliestSecondDisagrees`). Integer overflow is modelled as
  the wrap-around of a release build.
- A scan fails on unsigned integers beyond 63 bits, which the direct extremum prints
  (`Aggregate.ScansIff`; inputs: `Aggregate.LargeUnsignedIsNotScanned`).
- Under an overridden column type, the values of a column that the new type's reader does not accept become nulls
  without an error (`WriteTypes.SilentNullIff`; inputs: `WriteTypes.NarrowedIntegersBecomeNull`, and for values that
  are kept `WriteTypes.WidenedIntegersAreKept`).
- An empty source changes nothing, even in overwrite mode (`Append.SuccessHoldsAllRows`), and a merge accepts invalid
  modes, a missing dataset or missing key columns exactly if the source has no rows
  (`MergeTheorems.UncheckedIffEmpty`).
- README.md:341-346 calls only `when_matched := 'update'` safe to rerun; all four modes heal
  (`MergeTheorems.RerunHealsRun`).
- Text with `$$` or the zero character in any name or option, and empty names, break the generated DO blocks, and
  names of more than 63 bytes are cut (`DdlParser.StatementReadsBackIff`; inputs:
  `DdlParser.DollarTableIsUnreadable`, `DdlParser.NamelessColumnIsUnreadable`, `DdlParser.LongTableNameIsCut`).

## Model

| member | source | states |
|---|---|---|
| `TypeMapping.CompositeTypeName` | src/fdw/type_mapping.rs:102-119 | The in-place edits of a generated composite name yield the lower-cased, cleaned `lance_<table>_<path>`, cut at 60 bytes. |
| `TypeMapping.TypeNameIs` | src/fdw/type_mapping.rs:102-119 | Character by character: a generated name is `lance_`, the table name and the path in small letters, with underscores for all but letters and digits, of which the first 60 characters count. |
| `TypeMapping.SchemaCompiler.PgTypeForArrow` | src/fdw/type_mapping.rs:33-100 | Compiling a field returns its declared type and leaves exactly the composite definitions and started names of the recursive specification, for every Arrow type. |
| `TypeMapping.BuildSchemaMapping` | src/fdw/type_mapping.rs:16-31 | A schema compiles to one declared type per column and to the composite definitions in name order. |
| `TypeMapping.DefinitionsAscend` | src/fdw/type_mapping.rs:16-31 | The definitions come in the order of their names. |
| `TypeMapping.DeeperNameDiffers` | src/fdw/type_mapping.rs:69-74 | A struct nested deeper has a longer uncut name, so only the 60-byte cut can give it the name of an enclosing one. |
| `TypeMapping.CutNamesCollide` | src/fdw/type_mapping.rs:102-119 | Once a name fills the 60 bytes, every path that extends it gets the same name: where the scheme breaks. |
| `SchemaOrder.TypeStringShape` | src/fdw/type_mapping.rs:63-68 | A declared type is a word followed by one `[]` per list level, and the word is a generated name exactly when a struct is at the core. |
| `SchemaOrder.BaseOfTypeString` | src/fdw/ddl.rs:62-68 | `base_type_name` recovers the core of every declared type. |
| `DdlOrder.BaseTypeNameOf` | src/fdw/ddl.rs:62-68 | The stripping loop computes the base name, blanks between suffixes included. |
| `DdlOrder.OrderCompositeTypes` | src/fdw/ddl.rs:11-60 | The result lists every definition once; the part before the fallback can be executed front to back; nothing left over could have come earlier, and it follows in name order; and the fallback stays unused exactly if some order of creation exists. |
| `DdlOrder.ByNameIsLast` | src/fdw/ddl.rs:11-16 | Of several definitions of one name the last one counts. |
| `DdlOrder.EmitResolvable` | src/fdw/ddl.rs:11-47 | The emitting loop ends, and ends stuck: every definition not emitted depends on one not emitted. |
| `SchemaOrder.CollectGrows` | src/fdw/type_mapping.rs:69-91 | Compiling keeps every definition already made and finishes each struct it starts. |
| `SchemaOrder.CollectOrdered` | src/fdw/type_mapping.rs:69-91 | Unless a struct gets the name of one that encloses it, the order in which structs are finished can be executed. |
| `SchemaOrder.SchemaOrderableIff` | src/fdw/type_mapping.rs:16-100 | The composite types of a schema can be created in some order exactly when no struct has the name of a struct that encloses it; collisions of unrelated structs are harmless. |
| `SchemaOrder.BackEdgeColumnsIff` | src/fdw/type_mapping.rs:102-119 | That happens exactly when a compiled struct whose uncut name has 60 bytes or more has a struct at the core of one of its fields. |
| `SchemaOrder.LongNameIsUnorderable` | src/fdw/type_mapping.rs:102-119 | A struct inside the column `a` of a table whose name has 52 characters or more gives definitions that no order creates. |
| `SchemaOrder.OrderSchemaTypes` | src/fdw/ddl.rs:11-60 | Compile, then order: the result can be executed exactly under that condition on the schema. |
| `Declared.NestedListDeclaration` | src/fdw/type_mapping.rs:63-68 | What a nested list is declared as after PostgreSQL collapses array dimensions. |
| `Declared.DeclaredValidatesIff` | src/fdw/convert.rs:83-206 | A declared type passes validation exactly when every list of lists in it bottoms out in a type mapped to jsonb. |
| `Declared.CompatibleIff` | src/fdw/convert.rs:83-206 | A type validates against the declaration of another exactly when the two are compatible, a recursive relation on the two Arrow types alone; field names may repeat. |
| `Declared.NestedListIsRejected` | src/fdw/convert.rs:83-206 | A list of lists of integers is declared `int4[][]`, read as `int4[]`, and rejected by the validation of its own column. |
| `Imports.ImportSucceedsIff` | src/fdw/ddl.rs:11-83 | Next to any existing types, the ordered definitions of any schema can all be created exactly when each exists already or refers to types that exist by then without repeating a field name; starting from none, or if no struct has the cut name of one that encloses it, that is a condition on the schema. Existing types are left alone, and each new type has the attributes of the first struct compiled under its name. |
| `Imports.Import` | src/fdw/type_mapping.rs:16-31 | Compile, order, create, for any schema and any existing types: it succeeds exactly under that condition, and then every column names the type with the name of its core; where no names collide, the type meant for its Arrow type. |
| `Imports.NamedValidatesIff` | src/fdw/convert.rs:83-206 | Validation against an imported column is a recursive compatibility of the two Arrow types in which a struct stands for the one first compiled under its name, and a name that was taken for the existing type. |
| `Imports.ImportAndValidate` | src/fdw/scan.rs:223-291 | From import to scan: validation accepts a column exactly when its type is compatible with itself in that sense; where no names collide, exactly when its lists are flat. |
| `Imports.CollisionBreaksColumn` | src/fdw/type_mapping.rs:69-91 | A schema of two columns that is imported and whose second column cannot be scanned, because its type name was taken by a struct in the first. |
| `Imports.SecondTableTakesForeign` | src/fdw/type_mapping.rs:102-119 | Two tables whose structs get the same type name: the second takes the definition of the first, and its column cannot be scanned. |
| `Convert.ArrowValueToDatum` | src/fdw/convert.rs:208-741 | The conversion of a value agrees with its recursive specification, error by error. |
| `Readability.ReadsIff` | src/fdw/convert.rs:208-879 | When a conversion succeeds, for every convertible pair and well-formed value: exactly if the value is readable, a recursive predicate of its own (a null, a number in range, a dictionary key that selects a readable entry, a list of readable items, a struct whose fields named by live attributes are readable); otherwise it fails with the error of the first unreadable part. |
| `Readability.UnixMicrosIs` | src/fdw/convert.rs:566-598 | Timestamps as microseconds since 1970: exact for seconds and milliseconds unless held at a bound of 64 bits, cut towards zero for nanoseconds. |
| `Convert.ArrayValuesToPgArray` | src/fdw/convert.rs:784-826 | The list loop converts all items or stops at the first error. |
| `Convert.StructToCompositeDatum` | src/fdw/convert.rs:828-879 | The attribute loop matches fields by name, fills dropped attributes with nulls and stops at the first error. |
| `Convert.ArrowValueToJson` | src/fdw/convert.rs:881-1099 | The JSON form of a value agrees with its specification; a repeated member name keeps its last value. |
| `TypeSafety.ConversionIsSound` | src/fdw/convert.rs:83-741 | Type soundness: for every type, target and well-formed value that validation accepts, conversion yields a value of the target type that denotes the Arrow value, or fails with a range or internal error, never with a type error. |
| `JsonMeaning.JsonIsMeant` | src/fdw/convert.rs:881-1163 | Conversion of a well-formed value to JSON succeeds exactly if every dictionary key selects an entry, never fails on type grounds, and yields JSON that denotes the value: a recursive relation of its own in which integers agree modulo 2^64, lists match item by item and an object member is the last field of its name. |
| `JsonMeaning.JsonIsUnique` | src/fdw/convert.rs:881-1163 | A value denotes at most one JSON value, so the conversion computes it. |
| `TypeSafety.ConvertibleIff` | src/fdw/convert.rs:208-741 | For every type and target: no well-formed value is rejected on type grounds exactly if the pair passes the checks of validation that concern values which can exist. |
| `TypeSafety.ValidationIsExactIff` | src/fdw/convert.rs:83-206 | Validation accepts only pairs for which no well-formed value is rejected on type grounds; it accepts all of them, for every target, exactly if no list in the type is fixed at length zero and no dictionary has keys other than integers. |
| `TypeSafety.EmptyListsAreRejected` | src/fdw/convert.rs:159-169 | Lists of exactly zero integers: rejected for a text array, although every value converts. |
| `TypeSafety.SampleDecides` | src/fdw/convert.rs:208-741 | One sample value decides the type question for every type and target. |
| `TypeSafety.TimestampExactIff` | src/fdw/convert.rs:566-598 | A timestamp of any unit, nanoseconds included, is shown as the exact instant if and only if it is a whole number of microseconds, neither scaling nor shifting leaves 64 bits, and PostgreSQL has the instant. |
| `TypeSafety.TimestampShownWrongIff` | src/fdw/convert.rs:566-598 | A scan shows another instant than the stored one, up to microseconds, if and only if the unchecked shift wraps and PostgreSQL has the wrapped value; it fails if and only if PostgreSQL lacks the shifted value. |
| `TypeSafety.AncientTimestampsIff` | src/fdw/convert.rs:566-598 | With PostgreSQL's range, these are exactly the instants before a fixed date close to the earliest that 64 bits of microseconds express, and they come out in the distant future. |
| `TypeSafety.EarliestSecondIsShownWrong` | src/fdw/convert.rs:566-598 | A concrete one: the earliest timestamp in seconds and what is shown for it. |
| `DdlText.QualifyTypeStringOf` | src/fdw/ddl.rs:128-147 | Both loops together qualify the base of a type text and keep its array suffixes. |
| `DdlParser.QuoteReadsBack` | src/fdw/ddl.rs:114-122 | Quoted text reads back under PostgreSQL's quoting rules, whatever follows it, exactly if it has no zero character. |
| `DdlParser.TypeReadsBack` | src/fdw/ddl.rs:128-147 | A qualified type reads back with its schema, name and dimensions, its names cut at 63 bytes, unless the schema is empty or has a zero character. |
| `DdlParser.ListReadsBack` | src/fdw/ddl.rs:92-103 | A printed list reads back item by item if all its items can be read, and fails if one cannot. |
| `DdlParser.CompiledColumnsAreWellShaped` | src/fdw/type_mapping.rs:33-100 | The columns of every compiled schema have the shape that the readers need. |
| `DdlParser.StatementReadsBackIff` | src/fdw/ddl.rs:85-112 | A generated CREATE FOREIGN TABLE reads back, whatever quotes, commas and parentheses it contains, exactly if no name or option contains two adjacent dollar signs or the zero character and no name is empty; it reads back as the server, schema, table, options and columns it was printed from exactly if, moreover, no name has more than 63 bytes; otherwise such names are cut. |
| `DdlParser.DollarTableIsUnreadable` | src/fdw/ddl.rs:85-112 | A table named `$$` gives such a statement. |
| `DdlParser.NamelessColumnIsUnreadable` | src/fdw/ddl.rs:85-112 | A column without a name gives a statement that does not read back. |
| `DdlParser.LongTableNameIsCut` | src/fdw/ddl.rs:85-112 | A table name of 64 letters reads back without the last one. |
| `DdlParser.CompositeReadsBackIff` | src/fdw/ddl.rs:70-83 | The same for a generated CREATE TYPE: the conditions concern its schema and its attribute names, since the generated name always fits. |
| `Naming.SanitizeIdent` | src/fdw/naming.rs:1-42 | The buffer edits compute the sanitised name. |
| `Naming.SanitizedComesFrom` | src/fdw/naming.rs:1-42 | Where each character of a sanitised name comes from: the letters and digits of the input in small letters and in order, with a single underscore for each run of other characters between two of them, and one in front of a digit. |
| `Naming.SanitizedIsIdentifier` | src/fdw/naming.rs:1-42 | A sanitised name is a non-empty identifier of at most 63 letters, digits and underscores that does not start with a digit. |
| `Naming.CleanIsFixed` | src/fdw/naming.rs:1-42 | The names that sanitising leaves alone, short of the cut, are exactly the clean ones. |
| `Naming.SanitizeIdempotentIff` | src/fdw/naming.rs:1-42 | Sanitising twice equals sanitising once exactly when the 63-byte cut does not fall right behind an underscore. |
| `Naming.CutBehindUnderscore` | src/fdw/naming.rs:1-42 | A name of 64 characters that changes when sanitised twice. |
| `Naming.SchemaAndTableForTableId` | src/fdw/naming.rs:44-72 | An id has a local table exactly when it is not empty, and the loop over its segments computes it. |
| `Naming.LocationIs` | src/fdw/naming.rs:44-72 | The table is the sanitised last part of the id; the schema is the sanitised prefix and other parts, joined by double underscores, of which the first 63 characters count. |
| `Naming.SchemaUniquelyDecodable` | src/fdw/naming.rs:44-72 | While the joined schema name is not cut, two namespaces share a schema exactly when they agree segment by segment after sanitising, although segments may be `_` or begin with `_` next to the separator. |
| `Naming.LocationUniquelyDecodable` | src/fdw/naming.rs:44-72 | The same for whole table ids and their local tables. |
| `Naming.FullSchemasCollide` | src/fdw/naming.rs:66-70 | Once a schema name is full, every deeper namespace lands in the same schema: where decodability ends. |
| `Listing.ListPages` | src/fdw/attach_namespace.rs:100-125 | Following page tokens yields the server's complete answer, or its first error. |
| `Listing.ListedIsAnswered` | src/fdw/attach_namespace.rs:100-125 | That answer is a chain of pages, each asked for with the token of the one before, up to the first without a token or with an empty one; its names are those of the pages in order. |
| `Listing.ListTableIds` | src/fdw/attach_namespace.rs:87-158 | The listing visits each namespace reachable from the root once, level by level and within a level in the order of the parents and their listings, and returns their tables in that order; it fails exactly when a reachable namespace cannot be listed. |
| `Listing.TablesOfContains` | src/fdw/attach_namespace.rs:87-158 | An id is listed exactly when its namespace was visited and names it. |
| `Listing.TablesOfDistinct` | src/fdw/attach_namespace.rs:87-158 | If no namespace names a table twice, every id is listed once. |
| `Listing.TablesInOrder` | src/fdw/attach_namespace.rs:87-158 | The tables of one namespace are listed in the order of its answer, behind those of the namespaces visited before. |
| `Mapping.BuildMapping` | src/fdw/attach_namespace.rs:160-184 | It fails exactly on an empty id; otherwise every listed id ends up once, in the conflicts or in the mapping; mapped locations are distinct and belong to one id each. Both follow the order of the locations, and ids that share one follow the listing. |
| `Mapping.EveryIdIsAssigned` | src/fdw/attach_namespace.rs:160-184 | Conflicts and mapped ids together are the listing, as multisets. |
| `SyncTheorems.ConflictIffShared` | src/fdw/attach_namespace.rs:173-181 | An id is a conflict exactly when another listed id shares its location. |
| `SyncTheorems.ConflictIffSanitizedAlike` | src/fdw/naming.rs:44-72 | While no schema name is cut, that is exactly when another listed id agrees with it part by part after sanitising. |
| `Attach.Catalog.AttachOne` | src/fdw/attach_namespace.rs:225-326 | Attaching one table changes at most its own location, to what the specification says for every kind of relation found there, in dry runs too. |
| `Attach.Catalog.DropForeignTable` | src/fdw/sync_namespace.rs:414-421 | A drop removes exactly its location or fails without effect. |
| `Sync.IntrospectLocalNamespaceTables` | src/fdw/sync_namespace.rs:285-408 | The scan of the catalogue finds the tables of the server below the root, skips tables without an id, and reports unreadable, empty and duplicate ids. |
| `Sync.IntrospectSound` | src/fdw/sync_namespace.rs:295-412 | What it finds are managed relations of the catalogue, and no managed id is missed. |
| `Sync.IntrospectionIsInjective` | src/fdw/sync_namespace.rs:285-408 | No location is found under two ids. |
| `SyncReports.FaultsAreReported` | src/fdw/sync_namespace.rs:285-408 | The error rows of introspection are exactly those of the tables whose id is unreadable or empty or belongs to an earlier table too, in the order of their locations. |
| `Sync.SyncEntry` | src/fdw/sync_namespace.rs:63-166 | One mapping entry changes at most its own location: create, leave, report, or drop and recreate with the old batch size. |
| `Sync.SyncEntries` | src/fdw/sync_namespace.rs:63-166 | The loop over the mapping stops at the first failing drift check and keeps what was done. |
| `Sync.SyncStale` | src/fdw/sync_namespace.rs:168-219 | Tables that are not listed are reported in location order, and dropped if asked to. |
| `Sync.SyncNamespace` | src/fdw/sync_namespace.rs:28-222 | A run is the state transition of its specification; a listing with an empty id is refused before anything changes. |
| `SyncReports.RunReports` | src/fdw/sync_namespace.rs:63-222 | For every finished run and all flags, from the catalogue, the declared columns and the failing statements alone: the report is that of the conflicts, the faulty tables, the mapped tables and the tables not listed, and every location holds what their rows say. |
| `SyncReports.RunAbortsIff` | src/fdw/sync_namespace.rs:63-166 | A run is aborted exactly if a mapped id sits at its location and its remote table cannot be loaded; it stops at the first such table and keeps what was done. |
| `SyncReports.EntryIsReported` | src/fdw/sync_namespace.rs:63-166 | Action and status of one mapped table, and what it leaves: in sync exactly if the table with its id sits at its location without drift; drifted if it sits elsewhere, or differs and recreate_changed is off; recreated if it differs and recreate_changed is on, with the old batch size; otherwise created, skipped or an error. |
| `SyncReports.UnlistedAreReported` | src/fdw/sync_namespace.rs:168-219 | The same for the managed tables that are not listed: drifted without drop_missing, otherwise dropped, unless it is a dry run or the statement fails. |
| `SyncTheorems.PlansAreWellPlanned` | src/fdw/attach_namespace.rs:160-184 | Mapped ids are listed, and no other listed id belongs to their locations. |
| `SyncTheorems.EntriesAlone` | src/fdw/sync_namespace.rs:63-166 | Entries do not influence each other: each acts as if alone on the catalogue of the start. |
| `SyncTheorems.DryRunIsHonest` | src/fdw/sync_namespace.rs:63-222 | A dry run leaves the catalogue alone and reports, in order, the same (id, schema, table, action) as the real run from the same state, whatever DDL fails; if the real run aborts it aborts with the same error. |
| `SyncTheorems.OnlyManagedChange` | src/fdw/sync_namespace.rs:47-222 | Frame: even in a run aborted by a drift check, only empty locations are filled and only relations of this server with an id below the root are dropped or replaced, listed ones only with recreate_changed, others only with drop_missing. Failing statements are row errors, as the text handles them; one that PostgreSQL raises instead undoes the whole call. |
| `Convergence.EveryTableIsReported` | src/fdw/sync_namespace.rs:47-222 | Accounting: in every report each listed id occurs exactly once, as conflict or mapped table; of the others exactly the managed local ids, once each. A call that PostgreSQL aborts has no report. |
| `Convergence.RunTidies` | src/fdw/sync_namespace.rs:63-222 | Every run keeps a tidy catalogue tidy and leaves no stale table behind. |
| `Convergence.RunSettlesIff` | src/fdw/sync_namespace.rs:63-222 | After a run all mapped tables are attached without drift exactly when no other table was in the way. |
| `Convergence.SettledIsQuiet` | src/fdw/sync_namespace.rs:63-222 | On a settled catalogue a run changes nothing and reports only conflicts, unusable local tables and tables in sync. |
| `Convergence.TwoRunsReach` | src/fdw/sync_namespace.rs:63-222 | From every tidy catalogue, whatever the schemas, two runs reach a catalogue that no further run changes, with a known report; the second run changes something exactly when another table held a mapped location. |
| `Convergence.TwoRunsConvergeIff` | src/fdw/sync_namespace.rs:63-222 | Convergence, exactly: what two runs reach is free of drift, and all further runs are quiet, if and only if each mapped table passes the drift check when freshly attached or was attached without drift. |
| `Convergence.TwoRunsConverge` | src/fdw/sync_namespace.rs:63-222 | So two runs always converge where every mapped table passes that check. |
| `Convergence.UnsteadyNeverSettles` | src/fdw/sync_namespace.rs:96-166 | Any other entry is dropped and recreated, as it was, by every run after the second, from every tidy catalogue. |
| `Convergence.NestedListsNeverSettle` | src/fdw/sync_namespace.rs:423-451 | In particular every newly listed table with a column that nests lists. |
| `Convergence.LoadsIffFlat` | src/fdw/sync_namespace.rs:423-451 | A table passes that check when freshly attached exactly if no column nests lists. |
| `Convergence.RemoteIsReadyIff` | src/fdw/sync_namespace.rs:36-45 | In terms of the remote tree: with DDL that does not fail, the assumptions of convergence hold exactly when no column of a mapped table nests lists. |
| `AttachNamespace.AttachTables` | src/fdw/attach_namespace.rs:23-76 | Conflicts are reported and all other listed tables attached, in order; a listing with an empty id is refused before anything changes. |
| `AttachNamespace.AttachAlone` | src/fdw/attach_namespace.rs:61-73 | Entries do not influence each other. |
| `AttachNamespace.AttachReports` | src/fdw/attach_namespace.rs:61-73 | What attaching reports and leaves for each kind of relation found: the table itself is skipped, a table of another server or id or any other relation is an error and stays, a free location gets the table unless it is a dry run, the remote table cannot be loaded or the statement fails. |
| `AttachNamespace.AttachKeepsRelations` | src/fdw/attach_namespace.rs:233-262 | Attaching never touches an existing relation. |
| `AttachNamespace.AttachTwiceIsOnce` | src/fdw/attach_namespace.rs:23-76 | Attaching again changes nothing, whatever failed the first time. |
| `AttachNamespace.AttachThenSyncIsQuiet` | src/fdw/sync_namespace.rs:63-222 | After attaching into free locations a reconciling run finds every mapped table in sync and changes nothing. |
| `Canonical.CanonicalTypeString` | src/fdw/sync_namespace.rs:509-544 | The in-place edits and both loops compute the canonical form, which canonicalising leaves alone. |
| `Canonical.CanonicalIsFixedIff` | src/fdw/sync_namespace.rs:509-544 | The canonical forms are exactly the texts that canonicalising leaves alone: a base name in small letters, without quotes, dots or extra spaces, that is no alias, with array suffixes. |
| `Canonical.CanonicalIsIdempotent` | src/fdw/sync_namespace.rs:509-544 | Canonicalising twice equals canonicalising once, for every text. |
| `Drift.StableIff` | src/fdw/sync_namespace.rs:509-544 | PostgreSQL's rendering of a declared type and the declaration have the same canonical form exactly when the type has at most one list dimension, whatever schema, quotes and aliases are shown. |
| `Drift.AliasesAre` | src/fdw/sync_namespace.rs:522-538 | The aliases are the names under which PostgreSQL shows the builtin types that are declared under other names, and no others. |
| `Drift.FreshTableHasNoDriftIff` | src/fdw/sync_namespace.rs:423-507 | A freshly attached table shows no drift exactly when no column nests lists. |
| `DriftTheorems.NoDriftIff` | src/fdw/sync_namespace.rs:423-451 | A table attached from old columns shows no drift against new ones exactly when the columns agree one by one in name, core type name and shown list depth. |
| `DriftTheorems.InSyncValidatesIff` | src/fdw/sync_namespace.rs:423-451 | Such a column still validates exactly when it has no struct at its core, or each field of the old struct has a compatible one in the new struct, which the check does not look into; for columns imported without shared names. |
| `DriftTheorems.InSyncValidatesUnderSharedNamesIff` | src/fdw/sync_namespace.rs:423-451 | The same for columns imported under shared names or next to other types: without a struct at its core it always validates, and with one exactly when it is compatible with the struct compiled first under the name, or with the existing type. |
| `DriftTheorems.StructChangeIsMissed` | src/fdw/sync_namespace.rs:423-451 | A struct field that turns from integer into text: reported in sync, rejected by the next scan. |
| `WriteTypes.PgOidToArrowType` | src/write/pg_to_arrow.rs:57-94 | Every column type is either rejected or mapped to a type with a builder. |
| `WriteTypes.DefaultIsShownAsOwn` | src/write/pg_to_arrow.rs:57-94 | A column written under its default type is declared as its own type again, and as text for numerics, uuids, JSON and varchar. |
| `WriteTypes.KeptIffAccepted` | src/write/pg_to_arrow.rs:224-397 | For every type test that accepts no more than pgrx's: a value is kept as it is if the builder's reader accepts the column, and becomes a null without an error if not. |
| `WriteTypes.SilentNullIff` | src/write/pg_to_arrow.rs:224-397 | Under an overridden type values become nulls silently exactly when the column type is neither that type's own, nor a narrower integer, nor an integer under a date or timestamp; all others keep their integer, text, bytes, days or shifted microseconds. |
| `WriteTypes.NarrowedIntegersBecomeNull` | src/write/pg_to_arrow.rs:224-397 | An int4 column overridden to `INT2` loses every value. |
| `WriteTypes.WidenedIntegersAreKept` | src/write/pg_to_arrow.rs:224-397 | An int2 or int4 column overridden to a larger integer keeps every value. |
| `WriteTypes.ParseArrowTypeOverrides` | src/write/pg_to_arrow.rs:18-31 | The overrides are read exactly when every value is a string that names a type, and then each column gets the type named. |
| `WriteTypes.NamesAre` | src/write/pg_to_arrow.rs:33-55 | The table of names and aliases of types, whatever the case of the letters. |
| `WriteTypes.NamedIffBuildable` | src/write/pg_to_arrow.rs:33-55 | The types that have a builder are exactly those that an override can name. |
| `WriteTypes.WrittenValuesReadBack` | src/write/pg_to_arrow.rs:224-397 | Every value that is kept is read back by the foreign table: unchanged under its own type or a wider integer, where the two epoch shifts cancel for all 64-bit timestamps, and as that many days or microseconds since 1970 for integers under a date or timestamp. |
| `WriteTypes.ApplyArrowTypeOverrides` | src/write/pg_to_arrow.rs:111-125 | It succeeds exactly when every override names a column, and then changes the first column of each name only. |
| `WriteTypes.ExtractSpiColumns` | src/write/pg_to_arrow.rs:131-158 | It succeeds exactly when there are columns and all their types can be written. |
| `WriteTypes.WriteColumnsAre` | src/write/pg_to_arrow.rs:111-158 | The columns of a source one by one: it has some exactly if all its types can be written and every override names one of them; each has its own name and type and the Arrow type of its override, if it is the first of its name, or else its default. |
| `Streaming.BatchHoldsRows` | src/write/pg_to_arrow.rs:434-451 | Filling builders column by column keeps the columns in lockstep and holds the converted rows. |
| `Streaming.ConvertSpiRows` | src/write/pg_to_arrow.rs:415-499 | A chunk becomes its batches exactly if their summed size is within the limit, and every row is counted. |
| `Streaming.BatchesHoldRows` | src/write/pg_to_arrow.rs:415-499 | The batches of a chunk concatenate to its rows in order; each has 1 to batch_size rows, only the last may be short, and there are ceil(rows / batch_size) of them. |
| `ChunkStream.Stream.Next` | src/write/pg_to_arrow.rs:541-566 | One round of the fetch loop hands over the next chunk of the feed, deriving the columns once, or ends, or fails, as the feed says. |
| `ChunkStream.FeedFollowsFetches` | src/write/pg_to_arrow.rs:532-571 | Chunk by chunk the feed delivers the pieces of the source, each within the buffer limit. |
| `ChunkStream.StreamedRows` | src/write/pg_to_arrow.rs:532-571 | Whatever the chunk size, batch size and limit, the rows handed over are a prefix of the converted source, and all of it on completion. |
| `ChunkStream.CompletesIff` | src/write/pg_to_arrow.rs:532-571 | A stream completes exactly when the query does not fail and every fetched piece fits. |
| `ChunkStream.CallsOfCompletedStream` | src/write/pg_to_arrow.rs:532-571 | A completed stream makes ceil(rows / fetch size) handler calls, at most one with chunking off. |
| `ChunkStream.ChunkSizes` | src/write/pg_to_arrow.rs:532-571 | Each chunk has 1 to the fetch size rows, and all chunks but the last have exactly the fetch size. |
| `ChunkStream.FeedIsShaped` | src/write/pg_to_arrow.rs:415-571 | In terms of the settings: every chunk but the last has chunk_rows rows and every batch but the last of its chunk batch_size rows, where 0 stands for the largest count and for 1, and no chunk takes more bytes than a limit other than 0. |
| `ChunkStream.FeedReaches` | src/write/pg_to_arrow.rs:532-571 | A stream never stops early: it ends behind the last fetched piece, or at the first that has no column types, runs into the failure of the query or takes too many bytes. |
| `Append.Handler.Handle` | src/write/append.rs:44-93 | One chunk is committed in the mode of its position, or fails without effect. |
| `Append.LanceAppend` | src/write/append.rs:19-101 | An invalid mode is refused; otherwise the dataset ends as what the mode keeps followed by exactly the chunks committed before the first failure, and success means that the source was read and committed completely. |
| `Append.OutcomeByMode` | src/write/append.rs:28-101 | What `create`, `append` and `overwrite` leave, in terms of the dataset and the source rows: on success all rows, alone or behind the old ones; on failure the dataset as it was or the first rows; and when a run succeeds. |
| `Append.SuccessHoldsAllRows` | src/write/append.rs:43-97 | A successful run leaves the kept rows followed by all source rows; an empty source changes nothing in any mode, overwrite included. |
| `Append.OutcomeIsIndependent` | src/write/append.rs:43-97 | Two successful runs agree for all chunk sizes, batch sizes and limits. |
| `Append.FailureLeavesPrefix` | src/write/append.rs:43-97 | A failed run leaves the dataset as it was, or the kept rows followed by the first source rows. |
| `Merging.MergedIsSteps` | src/write/merge_insert.rs:129-187 | A merge of keys that do not repeat equals merging row by row. |
| `Merging.ChunkedIsOneMerge` | src/write/merge_insert.rs:85-187 | Merging any cut of a source without repeated keys, each chunk on the dataset the last one left, equals one merge, in all four modes. |
| `Merging.LeftIs` | src/write/merge_insert.rs:145-170 | Updating leaves the last row of a key, inserting alone the first. |
| `Merging.StepsTwice` | src/write/merge_insert.rs:129-187 | Merging the same rows again changes nothing. |
| `Merging.RerunHealsChunks` | src/write/merge_insert.rs:17-20 | After any number of committed chunks, merging everything again, cut in any way, gives the dataset of one uninterrupted run. |
| `MergeInsert.Handler.HandleChunk` | src/write/merge_insert.rs:85-187 | The first chunk opens the dataset and checks the key columns; each chunk is merged and committed, or fails without effect, whatever the SDK makes of repeated keys. |
| `MergeInsert.LanceMergeInsert` | src/write/merge_insert.rs:65-214 | A run merges exactly the chunks before the first failure; on success it reports the rows, unknown or zero counts, the commits and the chunk size. |
| `MergeTheorems.RunIsOneMerge` | src/write/merge_insert.rs:65-214 | A successful run over a source without repeated keys is a single merge of all its rows, whatever the chunk and batch sizes. |
| `MergeTheorems.RunByKey` | src/write/merge_insert.rs:85-187 | A successful run over a source without repeated keys, key by key and by the mode texts: a key of both has the source row under `update` and the old row under `nothing`; a key of the source alone is there exactly under `insert`; all other rows stay. |
| `MergeTheorems.StatsAre` | src/write/merge_insert.rs:203-213 | What a successful run reports: all source rows, zero counts for none and unknown ones otherwise, and one transaction per chunk: the rows divided by the chunk size, rounded up. |
| `MergeTheorems.RerunHealsRun` | README.md:341-346 | After a run that stopped anywhere, a successful rerun, with other chunk sizes if need be, leaves what one successful run would have left, in all four modes, even if keys repeat across chunks. |
| `MergeTheorems.UncheckedIffEmpty` | src/write/merge_insert.rs:85-130 | With invalid modes, without the dataset or with missing key columns, a run changes nothing, and succeeds if and only if the source has no rows. |
| `MergeTheorems.EmptySourceIsNeverChecked` | src/write/merge_insert.rs:85-88 | Over a source without rows a run succeeds with zero counts and changes nothing. |
| `Scan.MapColumns` | src/fdw/scan.rs:223-291 | The attribute loop succeeds exactly when each live attribute names a field whose type validates, and maps it to the last field of that name. |
| `Scan.State.Iterate` | src/fdw/scan.rs:301-428 | A call returns the next row of the flattened stream, skipping empty batches, then empty slots; it ends because batches are used up. |
| `Scan.State.FillSlot` | src/fdw/scan.rs:363-424 | A slot gets one cell per attribute, nulls for dropped ones, or the first conversion error. |
| `Scan.State.Rescan` | src/fdw/scan.rs:431-451 | A rescan starts over with a fresh stream and forgets batch and position. |
| `ScanTheorems.Replay` | src/fdw/scan.rs:301-451 | In every interleaving of iterate and rescan, the k-th iterate since the last start returns row k of that stream's concatenated batches, and behind them an empty slot or the error that the stream runs into, which ends the query. |
| `ScanTheorems.ScansNeverMismatch` | src/fdw/scan.rs:223-424 | After the checks at the start of a scan no row fails for its type, and what is shown has the table's types. |
| `ScanTheorems.RowShowsIff` | src/fdw/scan.rs:363-424 | A row is shown exactly if every live column's value is readable, and then each cell denotes the value of the last field of its name, with nulls for dropped columns. |
| `ScanTheorems.WrittenTablesBegin` | src/fdw/scan.rs:223-291 | A foreign table imported for a written dataset passes the checks at the start of its scans. |
| `ScanTheorems.WrittenRowReadsBack` | src/write/pg_to_arrow.rs:224-397 | Write, then scan: a row is shown with the values it was written from, also under overrides that keep values. |
| `ScanTheorems.WrittenSourceScansBack` | src/fdw/scan.rs:301-428 | Row k of a scan over a written source shows row k of the source, however it was batched. |
| `Aggregate.UpdateOrd` | src/write/aggregate.rs:237-251 | The loop keeps the fold of all non-null values. |
| `Aggregate.UpdateFloat` | src/write/aggregate.rs:253-270 | The same over values that are neither null nor NaN. |
| `Aggregate.LanceExtremum` | src/write/aggregate.rs:38-77 | The answer, by the numbers themselves: one of the values that are neither null nor NaN, of all batches, below (or above) which none of them lies, with infinities only where they are extremal; it is the first such value; NULL exactly when there are none, and an error only for other column types and beyond the calendar. |
| `Aggregate.AnswerIsPrinted` | src/write/aggregate.rs:199-228 | What is printed for every kind of column: integers as they are, dates as the day they lie in, timestamps as microseconds since 1970, decimals as a text that denotes them exactly. |
| `Aggregate.SupportedIff` | src/write/aggregate.rs:38-77 | All columns but booleans, half floats, texts, bytes and wide decimals have extrema. |
| `Aggregate.FirstBestIsUnique` | src/write/aggregate.rs:237-280 | There is only one such value, so the result does not depend on the batching. |
| `Aggregate.DirectAgrees` | src/write/aggregate.rs:199-228 | Converting the extremum equals taking the extremum of the converted values: saturating and truncating keep the order. |
| `Aggregate.ScansIff` | src/fdw/convert.rs:566-598 | A scan of integers, dates, timestamps or decimals yields its cells exactly when the reader has room for every value. |
| `Aggregate.PrintedKeyIsPrinted` | src/write/aggregate.rs:199-228 | The number by which the direct answer is compared with the cells of a scan is the one in the printed answer. |
| `Aggregate.AgreesWithScanIff` | src/fdw/convert.rs:566-598 | Where it does, the value that the direct extremum prints is the extremum of the cells exactly when no timestamp's shift wraps; for integers, dates and decimals always. |
| `Aggregate.EqualsScanIff` | src/fdw/convert.rs:566-598 | In other words, the direct extremum equals the extremum of the cells exactly in that case. |
| `Aggregate.SameRowAsScanIff` | src/fdw/convert.rs:566-598 | Its row is the extremal row of the scan exactly when the shift wraps none of them or all of them. |
| `Aggregate.EarliestSecondDisagrees` | src/fdw/convert.rs:566-598 | A column of two timestamps whose direct maximum and scanned maximum differ. |
| `Aggregate.LargeUnsignedIsNotScanned` | src/fdw/convert.rs:208-741 | An unsigned value beyond 63 bits is printed by the direct extremum, and fails the scan. |
| `Decimal.FormatDecimal128` | src/write/aggregate.rs:368-389 | The digit edits compute the printed text. |
| `Decimal.PrintingIsExact` | src/write/aggregate.rs:368-389 | The text denotes value / 10^scale; for a positive scale it has exactly `scale` digits behind the point and at least one before it. |
| `Decimal.PrintingIsInjective` | src/write/aggregate.rs:368-389 | For a fixed scale different values print differently. |

## Left out

- Naming.SchemaUniquelyDecodable: holds while the joined schema name is not cut at 63 bytes; `Naming.FullSchemasCollide` shows what happens beyond.
- Imports.Import: a foreign table with a repeated column name is not refused, and names that PostgreSQL cuts or rejects (`DdlParser.CompositeReadsBackIff` says which) are taken as they are here and in scans.
- Drift.StableIff: PostgreSQL's `format_type` is modelled for the declared types only, with any schema qualification and quoting.
- Sync.SyncNamespace: the catalogue is a map from (schema, table) to relations. Composite types created along the way, a composite type with the name of a table, and dependencies that block a drop are not part of it. A failing create or drop is a parameter, leaves its location alone and is reported in its row, as the `map_err` of the text has it; an error that PostgreSQL raises inside the statement aborts the whole call instead, which then changes and reports nothing.
- Convergence.TwoRunsConvergeIff: the listing and the schemas do not change between runs, no DDL fails, and at the start no managed id occurs twice or sits away from its location, and mapped locations hold managed tables only.
- Listing.ListTableIds: the answers of the server do not change during the listing, the listing of every reachable namespace ends, and the tree is finite.
- MergeTheorems.RunIsOneMerge: the SDK merges a chunk without repeated keys as documented; what it makes of a key repeated inside one chunk is left open, here and in all results about runs; null keys compare like other values; the dataset has no other writer.
- WriteTypes.SilentNullIff: pgrx 0.14 is taken to read each type as itself, varchar as text, and integers as wider ones; `WriteTypes.KeptIffAccepted` holds for every type test that accepts no more.
- WriteTypes.WrittenValuesReadBack: dates and timestamps must be in the reader's range; numerics, uuids and JSON are compared as the text they print as.
- Streaming.ConvertSpiRows: memory sizes are unbounded numbers and the size of a batch is a parameter.
- ScanTheorems.Replay: calls after a read error, which ends the query, are not covered.
- Decimal.FormatDecimal128: the scale -128, whose negation overflows, is excluded.
- Aggregate.LanceExtremum: dates, timestamps and floats are formatted by chrono and the standard library, which is not part of this model (whether chrono can format a value is a parameter); floats are ordered as IEEE values without their bits.
- TypeSafety.AncientTimestampsIff: the two extreme 64-bit values, which PostgreSQL reads as infinite timestamps, count as instants outside its range.
- TypeSafety.ConversionIsSound: calendar ranges are parameters; JSON and base64 text is kept as a tree.
- JSON encoding of table ids (taken as injective), error wording, timing fields, and the summary of column differences (src/fdw/sync_namespace.rs:546-582).
- DdlParser.StatementReadsBackIff: names are measured in UTF-8, and read by the rules of quoting and length only; whether PostgreSQL then accepts the table (repeated or reserved column names, missing types) is not part of it.
- Tuple descriptors, memory contexts, planner callbacks and EXPLAIN.
- optimize.rs, vacuum.rs, index.rs, delete.rs, metadata.rs and storage.rs: option checks around SDK calls. lib.rs, handler.rs, namespace.rs, options.rs and import.rs: registration and configuration.
