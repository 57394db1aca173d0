/** Importing any schema, also one in which structs share a name, next to any types that exist already
    (src/fdw/type_mapping.rs:16-119, src/fdw/ddl.rs:11-83), up to the validation at the start of a
    scan. */
module Imports {
  import opened Wrappers
  import opened Text
  import opened Arrow
  import opened TypeMapping
  import opened DdlOrder
  import opened SchemaOrder
  import opened Convert
  import opened Declared

  // ----- every definition is compiled from a struct -----

  ghost predicate CompiledName(table: string, m: map<string, CompositeTypeDef>, n: string)
    requires n in m
  {
    exists path, fields ::
      TypeName(table, path) == n && m[n] == CompositeTypeDef(n, FieldTypes(table, fields, path))
  }

  ghost predicate Compiled(table: string, m: map<string, CompositeTypeDef>)
  {
    forall n | n in m :: CompiledName(table, m, n)
  }

  lemma {:induction false} CollectCompiles(table: string, t: ArrowType, path: string, s: State)
    requires Compiled(table, s.composites)
    ensures Compiled(table, Collect(table, t, path, s).composites)
    decreases t, 0
  {
    match t
    case List(_, elem) => CollectCompiles(table, elem.dataType, path + "_item", s);
    case Dictionary(_, value) => CollectCompiles(table, value, path + "_dict", s);
    case Struct(fields) =>
      var name := TypeName(table, path);
      if name !in s.seen {
        var s1 := s.(seen := s.seen + {name});
        CollectFieldsCompile(table, fields, |fields|, path, s1);
        OneMoreCompiles(table, CollectFields(table, fields, |fields|, path, s1).composites, fields, path);
      }
    case _ =>
  }

  lemma {:induction false} OneMoreCompiles(table: string, m: map<string, CompositeTypeDef>, fields: seq<Field>,
                                           path: string)
    requires Compiled(table, m)
    ensures var name := TypeName(table, path);
            Compiled(table, m[name := CompositeTypeDef(name, FieldTypes(table, fields, path))])
  {
    var name := TypeName(table, path);
    var extended := m[name := CompositeTypeDef(name, FieldTypes(table, fields, path))];
    forall n | n in extended ensures CompiledName(table, extended, n) {
      if n != name {
        assert CompiledName(table, m, n);
      }
    }
  }

  lemma {:induction false} CollectFieldsCompile(table: string, fields: seq<Field>, n: nat, path: string, s: State)
    requires n <= |fields| && Compiled(table, s.composites)
    ensures Compiled(table, CollectFields(table, fields, n, path, s).composites)
    decreases fields, n
  {
    if n > 0 {
      CollectFieldsCompile(table, fields, n - 1, path, s);
      CollectCompiles(table, fields[n - 1].dataType, ChildPath(path, fields[n - 1]),
                      CollectFields(table, fields, n - 1, path, s));
    }
  }

  lemma {:induction false} ColumnsCompile(table: string, fields: seq<Field>, n: nat)
    requires n <= |fields|
    ensures Compiled(table, CollectColumns(table, fields, n).composites)
    decreases n
  {
    if n > 0 {
      ColumnsCompile(table, fields, n - 1);
      CollectCompiles(table, fields[n - 1].dataType, fields[n - 1].name, CollectColumns(table, fields, n - 1));
    }
  }

  // ----- what a declaration names -----

  /** The struct at the core of `t`, if any, has a created type. */
  predicate CoreCreated(types: map<string, PgType>, table: string, t: ArrowType, path: string) {
    CoreIsStruct(t) ==> CoreName(table, t, path) in types
  }

  /** The type that the declaration of `t` names: a struct names whatever was created under its
      name. */
  function NamedType(types: map<string, PgType>, table: string, t: ArrowType, path: string): PgType
    requires CoreCreated(types, table, t, path)
    decreases t
  {
    match t
    case Prim(p) => Base(RequiredBase(p))
    case List(_, elem) => Arrayed(NamedType(types, table, elem.dataType, path + "_item"))
    case Struct(_) => types[TypeName(table, path)]
    case Map(_) => JSONB
    case Dictionary(_, value) => NamedType(types, table, value, path + "_dict")
    case Other(_) => JSONB
  }

  lemma {:induction false} GeneratedIsNotBuiltin(types: map<string, PgType>, table: string, path: string)
    requires TypeName(table, path) !in types
    ensures Resolve(types, TypeName(table, path)) == None
  {
    var s := TypeName(table, path);
    TypeNameIsWord(table, path);
    assert s[|s| - 1] != ']';
    assert s[0] == s[..6][0] == 'l';
  }

  lemma {:induction false} DeclarationNames(types: map<string, PgType>, table: string, t: ArrowType, path: string)
    ensures Resolve(types, TypeString(table, t, path)) ==
            if CoreCreated(types, table, t, path) then Some(NamedType(types, table, t, path)) else None
    decreases t
  {
    match t
    case Prim(p) => ScalarResolves(types, p);
    case List(_, elem) =>
      DeclarationNames(types, table, elem.dataType, path + "_item");
      var s := TypeString(table, elem.dataType, path + "_item");
      assert (s + "[]")[..|s|] == s && EndsWith(s + "[]", "[]");
    case Struct(_) =>
      if TypeName(table, path) in types {
        NameResolves(types, table, path);
      } else {
        GeneratedIsNotBuiltin(types, table, path);
      }
    case Map(_) => JsonbResolves(types);
    case Dictionary(_, value) => DeclarationNames(types, table, value, path + "_dict");
    case Other(_) => JsonbResolves(types);
  }

  // ----- when a definition can be created -----

  predicate DistinctFields(fields: seq<(string, string)>) {
    forall i, j | 0 <= i < j < |fields| :: fields[i].0 != fields[j].0
  }

  /** The first `n` declared types exist. */
  ghost predicate AllResolve(types: map<string, PgType>, fields: seq<(string, string)>, n: nat)
    requires n <= |fields|
  {
    forall i | 0 <= i < n :: Resolve(types, fields[i].1).Some?
  }

  lemma {:induction false} FieldsResolveIff(types: map<string, PgType>, fields: seq<(string, string)>, n: nat)
    requires n <= |fields|
    ensures ResolveFields(types, fields, n).Some? <==> AllResolve(types, fields, n) && DistinctFields(fields[..n])
    decreases n
  {
    if n > 0 {
      FieldsResolveIff(types, fields, n - 1);
      DistinctSnoc(fields, n);
      OneMoreResolves(types, fields, n);
    }
  }

  lemma {:induction false} OneMoreResolves(types: map<string, PgType>, fields: seq<(string, string)>, n: nat)
    requires 0 < n <= |fields|
    ensures AllResolve(types, fields, n) <==> AllResolve(types, fields, n - 1) && Resolve(types, fields[n - 1].1).Some?
  {
  }

  lemma {:induction false} DistinctSnoc(fields: seq<(string, string)>, n: nat)
    requires 0 < n <= |fields|
    ensures DistinctFields(fields[..n]) <==> DistinctFields(fields[..n - 1]) && !NameRepeats(fields, n - 1)
  {
    var a, b := fields[..n - 1], fields[..n];
    assert forall i | 0 <= i < n - 1 :: a[i] == b[i] == fields[i];
    assert b[n - 1] == fields[n - 1];
    if DistinctFields(a) && !NameRepeats(fields, n - 1) {
      forall i, j | 0 <= i < j < n ensures b[i].0 != b[j].0 {
        if j < n - 1 {
          assert a[i].0 != a[j].0;
        }
      }
    }
    if DistinctFields(b) {
      forall i | 0 <= i < n - 1 ensures fields[i].0 != fields[n - 1].0 {
        assert b[i].0 != b[n - 1].0;
      }
    }
  }

  /** A compiled definition can be created exactly when all that it refers to exists and its
      field names differ. */
  lemma {:induction false} CreatableIff(types: map<string, PgType>, table: string, m: map<string, CompositeTypeDef>,
                                        n: string)
    requires n in m && CompiledName(table, m, n)
    ensures ResolveFields(types, m[n].fields, |m[n].fields|).Some? <==>
            Deps(m[n]) <= types.Keys && DistinctFields(m[n].fields)
  {
    var path: string, fields: seq<Field> :|
      TypeName(table, path) == n && m[n] == CompositeTypeDef(n, FieldTypes(table, fields, path));
    var strings := m[n].fields;
    FieldsResolveIff(types, strings, |strings|);
    assert strings[..|strings|] == strings;
    DepsOfStruct(table, n, fields, path);
    forall i | 0 <= i < |fields|
      ensures Resolve(types, strings[i].1).Some? <==>
              CoreCreated(types, table, fields[i].dataType, ChildPath(path, fields[i]))
    {
      DeclarationNames(types, table, fields[i].dataType, ChildPath(path, fields[i]));
    }
    if AllResolve(types, strings, |strings|) {
      forall d | d in Deps(m[n]) ensures d in types {
        var i :| 0 <= i < |fields| && CoreIsStruct(fields[i].dataType)
                 && d == CoreName(table, fields[i].dataType, ChildPath(path, fields[i]));
        assert Resolve(types, strings[i].1).Some?;
      }
    }
  }

  ghost predicate ResolvesIff(types: map<string, PgType>, d: CompositeTypeDef)
  {
    ResolveFields(types, d.fields, |d.fields|).Some? <==> Deps(d) <= types.Keys && DistinctFields(d.fields)
  }

  /** Each definition of `m` can be created exactly when all that it refers to exists and its field
      names differ. */
  ghost predicate AllResolveIff(m: map<string, CompositeTypeDef>)
  {
    forall n, types | n in m :: ResolvesIff(types, m[n])
  }

  lemma {:induction false} CompiledResolveIff(table: string, m: map<string, CompositeTypeDef>)
    requires Compiled(table, m)
    ensures AllResolveIff(m)
  {
    forall n, types | n in m ensures ResolvesIff(types, m[n]) {
      assert CompiledName(table, m, n);
      CreatableIff(types, table, m, n);
    }
  }

  // ----- creating all definitions in order -----

  /** Types that existed are kept, and every other one has its name and the attributes that its
      definition resolves to. */
  ghost predicate Realizes(had: map<string, PgType>, m: map<string, CompositeTypeDef>, types: map<string, PgType>)
  {
    && (forall n | n in had :: n in types && types[n] == had[n])
    && (forall n | n in types && n !in had :: Realized(m, types, n))
  }

  ghost predicate Realized(m: map<string, CompositeTypeDef>, types: map<string, PgType>, n: string)
    requires n in types
  {
    && n in m && types[n].Composite? && types[n].name == n
    && ResolveFields(types, m[n].fields, |m[n].fields|) == Some(types[n].attrs)
  }

  lemma {:induction false} ResolveKeeps(a: map<string, PgType>, b: map<string, PgType>, ty: string)
    requires Resolve(a, ty).Some? && forall n | n in a :: n in b && b[n] == a[n]
    ensures Resolve(b, ty) == Resolve(a, ty)
    decreases |ty|
  {
    if EndsWith(ty, "[]") {
      ResolveKeeps(a, b, ty[..|ty| - 2]);
    }
  }

  lemma {:induction false} ResolveFieldsKeeps(a: map<string, PgType>, b: map<string, PgType>,
                                              fields: seq<(string, string)>, n: nat)
    requires n <= |fields| && ResolveFields(a, fields, n).Some?
    requires forall k | k in a :: k in b && b[k] == a[k]
    ensures ResolveFields(b, fields, n) == ResolveFields(a, fields, n)
    decreases n
  {
    if n > 0 {
      ResolveFieldsKeeps(a, b, fields, n - 1);
      ResolveKeeps(a, b, fields[n - 1].1);
    }
  }

  lemma {:induction false} RealizesMore(had: map<string, PgType>, m: map<string, CompositeTypeDef>,
                                        types: map<string, PgType>, n: string, attrs: seq<Attribute>)
    requires Realizes(had, m, types) && n !in types && n in m
    requires ResolveFields(types, m[n].fields, |m[n].fields|) == Some(attrs)
    ensures Realizes(had, m, types[n := Composite(n, attrs)])
  {
    var more := types[n := Composite(n, attrs)];
    forall k | k in more && k !in had ensures Realized(m, more, k) {
      if k != n {
        assert Realized(m, types, k);
      }
      ResolveFieldsKeeps(types, more, m[k].fields, |m[k].fields|);
    }
  }

  ghost predicate FirstCreatable(had: map<string, PgType>, defs: seq<CompositeTypeDef>, k: nat)
    requires k <= |defs|
  {
    forall i | 0 <= i < k :: Creatable(had, defs, i)
  }

  /** Creating the first `k` definitions succeeds exactly when each of them is creatable; the created
      types then realise their definitions. */
  ghost predicate CreatedIff(had: map<string, PgType>, m: map<string, CompositeTypeDef>, defs: seq<CompositeTypeDef>,
                             k: nat, types: Option<map<string, PgType>>)
    requires k <= |defs|
  {
    && (types.Some? <==> FirstCreatable(had, defs, k))
    && (types.Some? ==> types.value.Keys == had.Keys + NameSet(defs[..k]) && Realizes(had, m, types.value))
  }

  /** Definitions can be created in a given order exactly when each of them exists already, or comes
      after all it refers to and repeats no field name; the new types then realise them. */
  lemma {:induction false} CreateTypesIff(had: map<string, PgType>, m: map<string, CompositeTypeDef>,
                                          defs: seq<CompositeTypeDef>, k: nat)
    returns (types: Option<map<string, PgType>>)
    requires AllResolveIff(m) && Lists(defs, m) && k <= |defs|
    ensures types == CreateTypes(had, defs[..k]) && CreatedIff(had, m, defs, k, types)
    decreases k
  {
    if k == 0 {
      types := Some(had);
      NothingCreated(had, m, defs);
    } else {
      var before := CreateTypesIff(had, m, defs, k - 1);
      types := CreateMore(before, defs[k - 1]);
      CreateTypesSnoc(had, defs, k, before);
      CreatedStep(had, m, defs, k, before);
    }
  }

  lemma {:induction false} NothingCreated(had: map<string, PgType>, m: map<string, CompositeTypeDef>,
                                          defs: seq<CompositeTypeDef>)
    ensures CreateTypes(had, defs[..0]) == Some(had) && CreatedIff(had, m, defs, 0, Some(had))
  {
  }

  function CreateMore(types: Option<map<string, PgType>>, def: CompositeTypeDef): Option<map<string, PgType>> {
    if types.None? then None else CreateType(types.value, def)
  }

  lemma {:induction false} CreateTypesSnoc(had: map<string, PgType>, defs: seq<CompositeTypeDef>, k: nat,
                                           before: Option<map<string, PgType>>)
    requires 0 < k <= |defs| && before == CreateTypes(had, defs[..k - 1])
    ensures CreateTypes(had, defs[..k]) == CreateMore(before, defs[k - 1])
  {
    assert defs[..k][..k - 1] == defs[..k - 1];
  }

  lemma {:induction false} CreatedStep(had: map<string, PgType>, m: map<string, CompositeTypeDef>,
                                       defs: seq<CompositeTypeDef>, k: nat, before: Option<map<string, PgType>>)
    requires AllResolveIff(m) && Lists(defs, m) && 0 < k <= |defs| && CreatedIff(had, m, defs, k - 1, before)
    ensures CreatedIff(had, m, defs, k, CreateMore(before, defs[k - 1]))
  {
    if before.Some? {
      CreateNextIff(had, m, before.value, defs, k - 1);
      FirstNames(defs, k);
    }
  }

  lemma {:induction false} FirstNames(defs: seq<CompositeTypeDef>, k: nat)
    requires 0 < k <= |defs|
    ensures NameSet(defs[..k]) == NameSet(defs[..k - 1]) + {defs[k - 1].typeName}
  {
    NameSetSnoc(defs[..k - 1], defs[k - 1]);
    assert defs[..k] == defs[..k - 1] + [defs[k - 1]];
  }

  /** The type of definition `i` exists already, or it comes after all it refers to and its field
      names differ. */
  ghost predicate Creatable(had: map<string, PgType>, defs: seq<CompositeTypeDef>, i: nat)
    requires i < |defs|
  {
    || defs[i].typeName in had
    || (Deps(defs[i]) <= had.Keys + NameSet(defs[..i]) && DistinctFields(defs[i].fields))
  }

  lemma {:induction false} CreateNextIff(had: map<string, PgType>, m: map<string, CompositeTypeDef>,
                                         types: map<string, PgType>, defs: seq<CompositeTypeDef>, i: nat)
    requires AllResolveIff(m) && Lists(defs, m) && i < |defs|
    requires types.Keys == had.Keys + NameSet(defs[..i]) && Realizes(had, m, types)
    ensures var created := CreateType(types, defs[i]);
            && (created.Some? <==> Creatable(had, defs, i))
            && (created.Some? ==>
                 created.value.Keys == types.Keys + {defs[i].typeName} && Realizes(had, m, created.value))
  {
    var d := defs[i];
    if d.typeName !in had {
      assert d.typeName !in types;
      assert ResolvesIff(types, m[d.typeName]);
      var attrs := ResolveFields(types, d.fields, |d.fields|);
      if attrs.Some? {
        RealizesMore(had, m, types, d.typeName, attrs.value);
      }
    }
  }

  // ----- importing a schema -----

  lemma {:induction false} CoreIsSeen(table: string, t: ArrowType, path: string, s: State)
    requires Wf(s) && CoreIsStruct(t)
    ensures CoreName(table, t, path) in Collect(table, t, path, s).seen
    decreases t
  {
    match t
    case List(_, elem) => CoreIsSeen(table, elem.dataType, path + "_item", s);
    case Dictionary(_, value) => CoreIsSeen(table, value, path + "_dict", s);
    case Struct(fields) =>
      var name := TypeName(table, path);
      if name !in s.seen {
        CollectFieldsGrows(table, fields, |fields|, path, s.(seen := s.seen + {name}));
      }
  }

  /** All struct cores of the columns are defined. */
  lemma {:induction false} ColumnCoresDefined(table: string, fields: seq<Field>, n: nat)
    requires n <= |fields|
    ensures forall i | 0 <= i < n && CoreIsStruct(fields[i].dataType) ::
              CoreName(table, fields[i].dataType, fields[i].name) in CollectColumns(table, fields, n).composites
    decreases n
  {
    if n > 0 {
      ColumnCoresDefined(table, fields, n - 1);
      ColumnsGrow(table, fields, n - 1);
      ColumnsGrow(table, fields, n);
      var before, after := CollectColumns(table, fields, n - 1), CollectColumns(table, fields, n);
      assert Active(after) == {};
      if CoreIsStruct(fields[n - 1].dataType) {
        CoreIsSeen(table, fields[n - 1].dataType, fields[n - 1].name, before);
        var core := CoreName(table, fields[n - 1].dataType, fields[n - 1].name);
        assert core !in Active(after);
      }
    }
  }

  /** No new definition that the compiler keeps repeats a field name. */
  predicate FieldsDiffer(had: map<string, PgType>, m: map<string, CompositeTypeDef>) {
    forall n | n in m && n !in had :: DistinctFields(m[n].fields)
  }

  /** The schema can be imported: no struct is compiled under the cut name of one that encloses it,
      and no new definition repeats a field name. */
  ghost predicate Importable(had: map<string, PgType>, table: string, fields: seq<Field>)
  {
    && !DeepColumns(table, fields, |fields|)
    && FieldsDiffer(had, CollectColumns(table, fields, |fields|).composites)
  }

  ghost predicate AllCreatable(had: map<string, PgType>, defs: seq<CompositeTypeDef>)
  {
    forall i | 0 <= i < |defs| :: Creatable(had, defs, i)
  }

  lemma {:induction false} CreatableDiffers(had: map<string, PgType>, m: map<string, CompositeTypeDef>,
                                            defs: seq<CompositeTypeDef>, n: string)
    requires Lists(defs, m) && AllCreatable(had, defs) && n in m && n !in had
    ensures DistinctFields(m[n].fields)
  {
    assert n in NameSet(defs);
    var i :| 0 <= i < |defs| && defs[i].typeName == n;
    assert Creatable(had, defs, i);
  }

  lemma {:induction false} ExecutableIsCreatable(had: map<string, PgType>, m: map<string, CompositeTypeDef>,
                                                 defs: seq<CompositeTypeDef>)
    requires Lists(defs, m) && Executable(defs)
    ensures AllCreatable(had, defs) <==> FieldsDiffer(had, m)
  {
    if AllCreatable(had, defs) {
      forall n | n in m && n !in had ensures DistinctFields(m[n].fields) {
        CreatableDiffers(had, m, defs, n);
      }
    }
    if FieldsDiffer(had, m) {
      forall i | 0 <= i < |defs| ensures Creatable(had, defs, i) {
        assert defs[i].typeName !in had ==> DistinctFields(m[defs[i].typeName].fields);
      }
    }
  }

  lemma {:induction false} CreatableIsExecutable(defs: seq<CompositeTypeDef>)
    requires AllCreatable(map[], defs)
    ensures Executable(defs)
  {
    forall i | 0 <= i < |defs| ensures Deps(defs[i]) <= NameSet(defs[..i]) {
      assert Creatable(map[], defs, i);
    }
  }

  /** What the import of a schema leaves. */
  ghost predicate Imported(had: map<string, PgType>, table: string, fields: seq<Field>, types: map<string, PgType>)
  {
    var m := CollectColumns(table, fields, |fields|).composites;
    && types.Keys == had.Keys + m.Keys && Realizes(had, m, types)
    && forall i | 0 <= i < |fields| :: CoreCreated(types, table, fields[i].dataType, fields[i].name)
  }

  lemma {:induction false} ImportSucceedsIff(had: map<string, PgType>, table: string, fields: seq<Field>,
                                             defs: seq<CompositeTypeDef>)
    requires Lists(defs, CollectColumns(table, fields, |fields|).composites)
    requires Executable(defs) <==> !DeepColumns(table, fields, |fields|)
    ensures CreateTypes(had, defs).Some? <==> AllCreatable(had, defs)
    ensures !DeepColumns(table, fields, |fields|) || had == map[] ==>
              (CreateTypes(had, defs).Some? <==> Importable(had, table, fields))
    ensures CreateTypes(had, defs).Some? ==> Imported(had, table, fields, CreateTypes(had, defs).value)
  {
    var m := CollectColumns(table, fields, |fields|).composites;
    ColumnsCompile(table, fields, |fields|);
    CompiledResolveIff(table, m);
    var types := CreateTypesIff(had, m, defs, |defs|);
    assert defs[..|defs|] == defs;
    if Executable(defs) {
      ExecutableIsCreatable(had, m, defs);
    } else if had == map[] && AllCreatable(had, defs) {
      CreatableIsExecutable(defs);
    }
    ColumnCoresDefined(table, fields, |fields|);
  }

  /** Compile any schema, order its composite types and create them next to the types `had`. This
      succeeds exactly if every definition in that order exists already or refers to types that exist
      by then, without a repeated field name; and that, starting from no types, exactly for importable
      schemas. A new type then has the attributes of the first definition compiled under its name, a
      type that existed is left alone, and every column names the type with the name of its core. */
  method Import(had: map<string, PgType>, table: string, fields: seq<Field>)
    returns (types: Option<map<string, PgType>>, columns: seq<(string, string)>, ghost ordered: seq<CompositeTypeDef>)
    ensures columns == ColumnTypes(table, fields)
    ensures Lists(ordered, CollectColumns(table, fields, |fields|).composites)
    ensures Executable(ordered) <==> !DeepColumns(table, fields, |fields|)
    ensures types.Some? <==> AllCreatable(had, ordered)
    ensures !DeepColumns(table, fields, |fields|) || had == map[] ==> (types.Some? <==> Importable(had, table, fields))
    ensures types.Some? ==> Imported(had, table, fields, types.value)
    ensures types.Some? ==> forall i | 0 <= i < |fields| ::
              Resolve(types.value, columns[i].1) ==
              Some(NamedType(types.value, table, fields[i].dataType, fields[i].name))
    ensures Undisturbed(had, table, fields) ==>
              && types.Some?
              && forall i | 0 <= i < |fields| ::
                   Resolve(types.value, columns[i].1) == Some(DeclaredType(table, fields[i].dataType, fields[i].name))
  {
    var mapping := BuildSchemaMapping(table, fields);
    columns := mapping.columnTypes;
    var definitions := OrderSchemaTypes(table, fields);
    ordered := definitions;
    types := CreateTypes(had, definitions);
    ImportSucceedsIff(had, table, fields, definitions);
    if types.Some? {
      ColumnsNamed(types.value, table, fields);
    }
    if Undisturbed(had, table, fields) {
      ColumnsDefine(table, fields, |fields|);
      BackEdgeColumnsIff(table, fields, |fields|);
      ghost var t := DeclarationsMean(table, had, fields, definitions);
    }
  }

  /** Names collide neither within the schema nor with existing types. */
  ghost predicate Undisturbed(had: map<string, PgType>, table: string, fields: seq<Field>)
  {
    && NoColumnCollision(table, fields, |fields|) && AllDistinctNames(fields)
    && had.Keys !! CollectColumns(table, fields, |fields|).composites.Keys
  }

  predicate AllDistinctNames(fields: seq<Field>) {
    forall i | 0 <= i < |fields| :: DistinctNames(fields[i].dataType)
  }

  lemma {:induction false} ColumnsNamed(types: map<string, PgType>, table: string, fields: seq<Field>)
    requires forall i | 0 <= i < |fields| :: CoreCreated(types, table, fields[i].dataType, fields[i].name)
    ensures forall i | 0 <= i < |fields| ::
              Resolve(types, ColumnTypes(table, fields)[i].1) ==
              Some(NamedType(types, table, fields[i].dataType, fields[i].name))
  {
    forall i | 0 <= i < |fields|
      ensures Resolve(types, ColumnTypes(table, fields)[i].1) ==
              Some(NamedType(types, table, fields[i].dataType, fields[i].name))
    {
      DeclarationNames(types, table, fields[i].dataType, fields[i].name);
    }
  }

  // ----- which columns of an imported schema validate -----

  /** A field matches the attribute that a definition gives it. */
  ghost predicate FieldAccepts(types: map<string, PgType>, fields: seq<Field>, attr: (string, string))
  {
    var f, ty := FindField(fields, attr.0), Resolve(types, attr.1);
    f.Some? && ty.Some? && Validate(fields[f.value].dataType, ty.value).Ok?
  }

  lemma {:induction false} ResolvedAttrs(types: map<string, PgType>, fields: seq<(string, string)>, n: nat)
    requires n <= |fields| && ResolveFields(types, fields, n).Some?
    ensures var attrs := ResolveFields(types, fields, n).value;
            && |attrs| == n
            && forall k | 0 <= k < n ::
                 Resolve(types, fields[k].1).Some? &&
                 attrs[k] == Attribute(fields[k].0, Resolve(types, fields[k].1).value, false)
    decreases n
  {
    if n > 0 {
      ResolvedAttrs(types, fields, n - 1);
    }
  }

  /** `attrs` is what the definition `strings` resolves to. */
  ghost predicate AttrsOf(types: map<string, PgType>, strings: seq<(string, string)>, attrs: seq<Attribute>)
  {
    |attrs| == |strings| && forall k | 0 <= k < |attrs| :: AttrOf(types, strings[k], attrs[k])
  }

  ghost predicate AttrOf(types: map<string, PgType>, s: (string, string), a: Attribute)
  {
    Resolve(types, s.1).Some? && a == Attribute(s.0, Resolve(types, s.1).value, false)
  }

  lemma {:induction false} AttrAcceptsIff(types: map<string, PgType>, fields: seq<Field>, s: (string, string),
                                          attrs: seq<Attribute>, n: nat)
    requires 0 < n <= |attrs| && AttrOf(types, s, attrs[n - 1])
    ensures ValidateAttrs(fields, attrs, n).Ok? <==>
            ValidateAttrs(fields, attrs, n - 1).Ok? && FieldAccepts(types, fields, s)
  {
  }

  /** A field matches each of the first `n` attributes. */
  ghost predicate AllAccept(types: map<string, PgType>, fields: seq<Field>, strings: seq<(string, string)>, n: nat)
    requires n <= |strings|
  {
    forall k | 0 <= k < n :: FieldAccepts(types, fields, strings[k])
  }

  lemma {:induction false} OneMoreAccepts(types: map<string, PgType>, fields: seq<Field>,
                                          strings: seq<(string, string)>, n: nat)
    requires 0 < n <= |strings|
    ensures AllAccept(types, fields, strings, n) <==>
            AllAccept(types, fields, strings, n - 1) && FieldAccepts(types, fields, strings[n - 1])
  {
  }

  lemma {:induction false} AttrsAcceptIff(types: map<string, PgType>, fields: seq<Field>,
                                          strings: seq<(string, string)>, attrs: seq<Attribute>, n: nat)
    requires AttrsOf(types, strings, attrs) && n <= |attrs|
    ensures ValidateAttrs(fields, attrs, n).Ok? <==> AllAccept(types, fields, strings, n)
    decreases n
  {
    if n > 0 {
      AttrsAcceptIff(types, fields, strings, attrs, n - 1);
      AttrAcceptsIff(types, fields, strings[n - 1], attrs, n);
      OneMoreAccepts(types, fields, strings, n);
    }
  }

  /** A struct validates against its imported type exactly when it has a matching field for every
      field of the first struct compiled under its name; where names collide this need not be
      the struct itself. */
  lemma {:induction false} StructValidatesIff(table: string, m: map<string, CompositeTypeDef>,
                                              types: map<string, PgType>,
                                              fields: seq<Field>, path: string)
    requires TypeName(table, path) in types && Realized(m, types, TypeName(table, path))
    ensures var n := TypeName(table, path);
            Validate(Struct(fields), NamedType(types, table, Struct(fields), path)).Ok? <==>
            AllAccept(types, fields, m[n].fields, |m[n].fields|)
  {
    var n := TypeName(table, path);
    ResolvedAttrs(types, m[n].fields, |m[n].fields|);
    AttrsAcceptIff(types, fields, m[n].fields, types[n].attrs, |m[n].fields|);
  }

  // ----- compatibility under shared names -----

  /** The struct from which a definition was compiled, with its path. */
  ghost function Origin(table: string, m: map<string, CompositeTypeDef>, n: string): (o: (seq<Field>, string))
    requires n in m && CompiledName(table, m, n)
    ensures TypeName(table, o.1) == n && m[n] == CompositeTypeDef(n, FieldTypes(table, o.0, o.1))
  {
    var path: string, fields: seq<Field> :|
      TypeName(table, path) == n && m[n] == CompositeTypeDef(n, FieldTypes(table, fields, path));
    (fields, path)
  }

  /** The core of `t` takes the definition of a type that existed before. */
  predicate Foreign(had: map<string, PgType>, table: string, t: ArrowType, path: string) {
    CoreIsStruct(t) && CoreName(table, t, path) in had
  }

  /** Values of type `now` fit a column that was imported for `was`: a struct counts as the one compiled
      under its name, and an existing type as what it is. */
  ghost predicate CompatibleIn(had: map<string, PgType>, table: string, m: map<string, CompositeTypeDef>,
                               now: ArrowType, was: ArrowType, path: string)
    requires Compiled(table, m)
    decreases now, 0
  {
    var c := Innermost(was, path);
    if Foreign(had, table, was, path) then Validate(now, NamedType(had, table, was, path)).Ok?
    else
      match now
      case Prim(p) => ListDepth(was) == 0 && c.0.Prim? && RequiredBase(c.0.prim) == RequiredBase(p)
      case Dictionary(_, value) => CompatibleIn(had, table, m, value, was, path)
      case List(_, elem) =>
        if ListDepth(was) == 0 then MapsToJsonb(c.0) else CompatibleIn(had, table, m, elem.dataType, c.0, c.1)
      case Struct(fields) =>
        && ListDepth(was) == 0 && c.0.Struct? && TypeName(table, c.1) in m
        && CompatibleFieldsIn(had, table, m, fields, TypeName(table, c.1))
      case _ => ListDepth(was) == 0 && MapsToJsonb(c.0)
  }

  /** Each field of the struct compiled under the name `n` has its like among `now`. */
  ghost predicate CompatibleFieldsIn(had: map<string, PgType>, table: string, m: map<string, CompositeTypeDef>,
                                     now: seq<Field>, n: string)
    requires Compiled(table, m) && n in m
    decreases now, 1
  {
    assert CompiledName(table, m, n);
    var o := Origin(table, m, n);
    forall k | 0 <= k < |o.0| :: CompatibleFieldIn(had, table, m, now, o.0[k], ChildPath(o.1, o.0[k]))
  }

  ghost predicate CompatibleFieldIn(had: map<string, PgType>, table: string, m: map<string, CompositeTypeDef>,
                                    now: seq<Field>, was: Field, path: string)
    requires Compiled(table, m)
    decreases now, 0
  {
    var i := FindField(now, was.name);
    i.Some? && CompatibleIn(had, table, m, now[i.value].dataType, was.dataType, path)
  }

  /** A named type is that of its core, as an array if there are lists around it. */
  lemma {:induction false} NamedShape(types: map<string, PgType>, table: string, t: ArrowType, path: string)
    requires CoreCreated(types, table, t, path)
    ensures var c := Innermost(t, path);
            && CoreIsStruct(c.0) == CoreIsStruct(t) && CoreName(table, c.0, c.1) == CoreName(table, t, path)
            && CoreCreated(types, table, c.0, c.1)
            && NamedType(types, table, t, path) ==
               (if ListDepth(t) > 0 then Arrayed(NamedType(types, table, c.0, c.1))
                else NamedType(types, table, c.0, c.1))
    decreases t
  {
    match t
    case List(_, elem) => NamedShape(types, table, elem.dataType, path + "_item");
    case Dictionary(_, value) => NamedShape(types, table, value, path + "_dict");
    case _ =>
  }

  lemma {:induction false} NamedKeeps(had: map<string, PgType>, types: map<string, PgType>, table: string,
                                      t: ArrowType, path: string)
    requires forall n | n in had :: n in types && types[n] == had[n]
    requires CoreCreated(had, table, t, path)
    ensures CoreCreated(types, table, t, path) && NamedType(types, table, t, path) == NamedType(had, table, t, path)
    decreases t
  {
    match t
    case List(_, elem) => NamedKeeps(had, types, table, elem.dataType, path + "_item");
    case Dictionary(_, value) => NamedKeeps(had, types, table, value, path + "_dict");
    case _ =>
  }

  /** Validation against an imported column is compatibility: it depends on the two Arrow types, the
      structs that came first under their names, and the types that existed. */
  lemma {:induction false} NamedValidatesIff(had: map<string, PgType>, table: string, m: map<string, CompositeTypeDef>,
                                             types: map<string, PgType>, now: ArrowType, was: ArrowType, path: string)
    requires Compiled(table, m) && Realizes(had, m, types) && CoreCreated(types, table, was, path)
    ensures Validate(now, NamedType(types, table, was, path)).Ok? <==> CompatibleIn(had, table, m, now, was, path)
    decreases now, 1
  {
    if Foreign(had, table, was, path) {
      NamedKeeps(had, types, table, was, path);
    } else {
      var c := Innermost(was, path);
      NamedShape(types, table, was, path);
      InnermostAnyPath(was, path, "");
      if c.0.Struct? {
        assert Realized(m, types, TypeName(table, c.1));
      }
      match now
      case Dictionary(_, value) => NamedValidatesIff(had, table, m, types, value, was, path);
      case List(_, elem) =>
        if ListDepth(was) > 0 {
          NamedValidatesIff(had, table, m, types, elem.dataType, c.0, c.1);
        }
      case Struct(fields) =>
        if ListDepth(was) == 0 && c.0.Struct? {
          StructCompatibleIff(had, table, m, types, fields, c.1);
        }
      case _ =>
    }
  }

  lemma {:induction false} StructCompatibleIff(had: map<string, PgType>, table: string,
                                               m: map<string, CompositeTypeDef>, types: map<string, PgType>,
                                               now: seq<Field>, path: string)
    requires Compiled(table, m) && Realizes(had, m, types)
    requires TypeName(table, path) in types && TypeName(table, path) !in had && TypeName(table, path) in m
    ensures Validate(Struct(now), types[TypeName(table, path)]).Ok? <==>
            CompatibleFieldsIn(had, table, m, now, TypeName(table, path))
    decreases now, 2
  {
    var n := TypeName(table, path);
    assert CompiledName(table, m, n) && Realized(m, types, n);
    var o := Origin(table, m, n);
    StructValidatesIff(table, m, types, now, path);
    ResolvedFields(types, m[n].fields);
    AllFieldsCompatibleIff(had, table, m, types, now, o.0, o.1);
  }

  lemma {:induction false} ResolvedFields(types: map<string, PgType>, strings: seq<(string, string)>)
    requires ResolveFields(types, strings, |strings|).Some?
    ensures AllResolve(types, strings, |strings|)
  {
    ResolvedAttrs(types, strings, |strings|);
  }

  lemma {:induction false} AllFieldsCompatibleIff(had: map<string, PgType>, table: string,
                                                  m: map<string, CompositeTypeDef>, types: map<string, PgType>,
                                                  now: seq<Field>, was: seq<Field>, path: string)
    requires Compiled(table, m) && Realizes(had, m, types)
    requires AllResolve(types, FieldTypes(table, was, path), |was|)
    ensures AllAccept(types, now, FieldTypes(table, was, path), |was|) <==>
            forall k | 0 <= k < |was| :: CompatibleFieldIn(had, table, m, now, was[k], ChildPath(path, was[k]))
    decreases now, 1
  {
    var strings := FieldTypes(table, was, path);
    forall k | 0 <= k < |was|
      ensures FieldAccepts(types, now, strings[k]) <==>
              CompatibleFieldIn(had, table, m, now, was[k], ChildPath(path, was[k]))
    {
      assert Resolve(types, strings[k].1).Some?;
      FieldCompatibleIff(had, table, m, types, now, was[k], ChildPath(path, was[k]));
    }
  }

  lemma {:induction false} FieldCompatibleIff(had: map<string, PgType>, table: string,
                                              m: map<string, CompositeTypeDef>, types: map<string, PgType>,
                                              now: seq<Field>, was: Field, path: string)
    requires Compiled(table, m) && Realizes(had, m, types)
    requires Resolve(types, TypeString(table, was.dataType, path)).Some?
    ensures FieldAccepts(types, now, (was.name, TypeString(table, was.dataType, path))) <==>
            CompatibleFieldIn(had, table, m, now, was, path)
    decreases now, 0
  {
    var i := FindField(now, was.name);
    DeclarationNames(types, table, was.dataType, path);
    if i.Some? {
      NamedValidatesIff(had, table, m, types, now[i.value].dataType, was.dataType, path);
    }
  }

  /** Two structs that share the name `lance_t_a_b`: one nested in column `a`, one in column `a_b`. */
  function Colliding(): seq<Field> {
    var nested := Struct([Field("x", Prim(Int32))]);
    [Field("a", Struct([Field("b", nested)])), Field("a_b", Struct([Field("y", Prim(Utf8))]))]
  }

  lemma {:induction false} CollidingCompiles()
    ensures !DeepColumns("t", Colliding(), 2)
    ensures var outer, inner := TypeName("t", "a"), TypeName("t", "a_b");
            && outer != inner
            && CollectColumns("t", Colliding(), 2).composites ==
               map[inner := CompositeTypeDef(inner, [("x", "int4")]), outer := CompositeTypeDef(outer, [("b", inner)])]
  {
    var fields := Colliding();
    var a, b := fields[0].dataType.fields, fields[0].dataType.fields[0].dataType.fields;
    var outer, inner := TypeName("t", "a"), TypeName("t", "a_b");
    DeeperNameDiffers("t", "a", "a_b");
    assert ChildPath("a", a[0]) == "a_b";
    assert FieldTypes("t", a, "a") == [("b", inner)];
    assert FieldTypes("t", b, "a_b") == [("x", "int4")];
    var s1 := State(map[], {outer});
    var s2 := State(map[], {outer, inner});
    assert CollectFields("t", b, 1, "a_b", s2) == s2 by {
      assert CollectFields("t", b, 0, "a_b", s2) == s2;
    }
    var s3 := State(map[inner := CompositeTypeDef(inner, [("x", "int4")])], {outer, inner});
    assert Collect("t", a[0].dataType, "a_b", s1) == s3 by {
      assert s1.seen + {inner} == s2.seen;
    }
    assert CollectFields("t", a, 1, "a", s1) == s3 by {
      assert CollectFields("t", a, 0, "a", s1) == s1;
    }
    assert CollectColumns("t", fields, 0) == State(map[], {});
    assert CollectColumns("t", fields, 1) ==
           State(s3.composites[outer := CompositeTypeDef(outer, [("b", inner)])], {outer, inner});
  }

  lemma {:induction false} CollidingIsImportable()
    ensures Importable(map[], "t", Colliding())
  {
    CollidingCompiles();
  }

  lemma {:induction false} MissingFieldFails(types: map<string, PgType>, fields: seq<Field>,
                                             strings: seq<(string, string)>, k: nat)
    requires k < |strings| && forall j | 0 <= j < |fields| :: fields[j].name != strings[k].0
    ensures !AllAccept(types, fields, strings, |strings|)
  {
    assert !FieldAccepts(types, fields, strings[k]);
  }

  /** A collision can break a column: both columns are imported, and the second one, which names the
      type compiled from the first, does not validate. */
  lemma {:induction false} CollisionBreaksColumn(types: map<string, PgType>)
    requires Imported(map[], "t", Colliding(), types)
    ensures Importable(map[], "t", Colliding())
    ensures var second := Colliding()[1];
            Validate(second.dataType, NamedType(types, "t", second.dataType, second.name)).Err?
  {
    CollidingIsImportable();
    CollidingCompiles();
    var m, y := CollectColumns("t", Colliding(), 2).composites, Colliding()[1].dataType.fields;
    assert Realized(m, types, TypeName("t", "a_b"));
    StructValidatesIff("t", m, types, y, "a_b");
    MissingFieldFails(types, y, m[TypeName("t", "a_b")].fields, 0);
  }

  /** A table with one column that holds a struct with one field. */
  function OneStruct(column: string, field: string): seq<Field> {
    [Field(column, Struct([Field(field, Prim(Int32))]))]
  }

  lemma {:induction false} OneStructCompiles(table: string, column: string, field: string)
    ensures var n := TypeName(table, column);
            CollectColumns(table, OneStruct(column, field), 1).composites ==
            map[n := CompositeTypeDef(n, [(field, "int4")])]
  {
    var fields, n := OneStruct(column, field), TypeName(table, column);
    var inner := fields[0].dataType.fields;
    assert FieldTypes(table, inner, column) == [(field, "int4")];
    assert CollectFields(table, inner, 1, column, State(map[], {n})) == State(map[], {n}) by {
      assert CollectFields(table, inner, 0, column, State(map[], {n})) == State(map[], {n});
    }
    assert CollectColumns(table, fields, 0) == State(map[], {});
    assert {} + {n} == {n};
  }

  /** Two tables of one schema can share a type: once table `a` with a struct column `b_c` is imported,
      the struct column `c` of a table `a_b` takes its definition, and does not validate if its own
      fields are others. */
  lemma {:induction false} SecondTableTakesForeign(first: map<string, PgType>, second: map<string, PgType>)
    requires Imported(map[], "a", OneStruct("b_c", "x"), first)
    requires Imported(first, "a_b", OneStruct("c", "y"), second)
    ensures var column := OneStruct("c", "y")[0];
            && Foreign(first, "a_b", column.dataType, column.name)
            && NamedType(second, "a_b", column.dataType, column.name) == first[TypeName("a", "b_c")]
            && Validate(column.dataType, NamedType(second, "a_b", column.dataType, column.name)).Err?
  {
    var n := TypeName("a", "b_c");
    SharedName();
    OneStructCompiles("a", "b_c", "x");
    var m, y := map[n := CompositeTypeDef(n, [("x", "int4")])], OneStruct("c", "y")[0].dataType.fields;
    assert n in first && Realized(m, first, n);
    StructValidatesIff("a", m, first, y, "b_c");
    MissingFieldFails(first, y, m[n].fields, 0);
  }

  lemma {:induction false} SharedName()
    ensures TypeName("a_b", "c") == TypeName("a", "b_c")
  {
    assert "lance_" + "a_b" + "_" + "c" == "lance_" + "a" + "_" + "b_c";
  }

  /** From import to scan: the validation at the start of a scan accepts a column exactly when its type
      is compatible with itself under the shared names and existing types; where nothing disturbs the
      import, exactly when its lists are flat. */
  method ImportAndValidate(had: map<string, PgType>, table: string, fields: seq<Field>)
    returns (accepted: Option<seq<bool>>, ghost types: map<string, PgType>)
    ensures !DeepColumns(table, fields, |fields|) || had == map[] ==>
              (accepted.Some? <==> Importable(had, table, fields))
    ensures accepted.Some? ==> Imported(had, table, fields, types) && |accepted.value| == |fields|
    ensures var m := CollectColumns(table, fields, |fields|).composites;
            && Compiled(table, m)
            && (accepted.Some? ==> forall i | 0 <= i < |fields| ::
                 accepted.value[i] <==>
                 CompatibleIn(had, table, m, fields[i].dataType, fields[i].dataType, fields[i].name))
    ensures Undisturbed(had, table, fields) ==>
              && accepted.Some?
              && forall i | 0 <= i < |fields| :: accepted.value[i] <==> ListsAreFlat(fields[i].dataType)
  {
    types := map[];
    ghost var m := CollectColumns(table, fields, |fields|).composites;
    ColumnsCompile(table, fields, |fields|);
    var created, columns, ordered := Import(had, table, fields);
    if created.None? {
      return None, types;
    }
    types := created.value;
    var ok := ValidateColumns(created.value, fields, columns);
    accepted := Some(ok);
    forall i | 0 <= i < |fields|
      ensures ok[i] <==> CompatibleIn(had, table, m, fields[i].dataType, fields[i].dataType, fields[i].name)
    {
      NamedValidatesIff(had, table, m, types, fields[i].dataType, fields[i].dataType, fields[i].name);
    }
    if Undisturbed(had, table, fields) {
      forall i | 0 <= i < |fields| ensures ok[i] <==> ListsAreFlat(fields[i].dataType) {
        DeclaredValidatesIff(table, fields[i].dataType, fields[i].name);
      }
    }
  }

  /** The column loop of `begin_foreign_scan`, for columns declared in schema order. */
  method ValidateColumns(types: map<string, PgType>, fields: seq<Field>, columns: seq<(string, string)>)
    returns (accepted: seq<bool>)
    requires |columns| == |fields| && forall i | 0 <= i < |fields| :: Resolve(types, columns[i].1).Some?
    ensures |accepted| == |fields|
    ensures forall i | 0 <= i < |fields| ::
              accepted[i] <==> Validate(fields[i].dataType, Resolve(types, columns[i].1).value).Ok?
  {
    accepted := [];
    for i := 0 to |fields|
      invariant |accepted| == i
      invariant forall k | 0 <= k < i ::
                  accepted[k] <==> Validate(fields[k].dataType, Resolve(types, columns[k].1).value).Ok?
    {
      accepted := accepted + [Validate(fields[i].dataType, Resolve(types, columns[i].1).value).Ok?];
    }
  }
}
