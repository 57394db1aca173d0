/** What a compiled schema declares, and when the declaration passes validation
    (src/fdw/type_mapping.rs:33-100 against src/fdw/convert.rs:83-206). */
module Declared {
  import opened Wrappers
  import opened Text
  import opened Arrow
  import opened TypeMapping
  import opened DdlOrder
  import opened SchemaOrder
  import opened Convert

  // ----- PostgreSQL's reading of the declarations -----

  function Builtin(name: string): Option<PgBase> {
    if name == "boolean" then Some(PgBool)
    else if name == "int2" then Some(PgInt2)
    else if name == "int4" then Some(PgInt4)
    else if name == "int8" then Some(PgInt8)
    else if name == "float4" then Some(PgFloat4)
    else if name == "float8" then Some(PgFloat8)
    else if name == "text" then Some(PgText)
    else if name == "bytea" then Some(PgBytea)
    else if name == "date" then Some(PgDate)
    else if name == "timestamp" then Some(PgTimestamp)
    else if name == "timestamptz" then Some(PgTimestampTz)
    else if name == "numeric" then Some(PgNumeric)
    else if name == "jsonb" then Some(PgJsonb)
    else None
  }

  /** PostgreSQL has no arrays of arrays: `T[][]` names the same type as `T[]`. */
  function Arrayed(t: PgType): PgType {
    if t.ArrayOf? then t else ArrayOf(t)
  }

  /** The type a declaration names, given the composite types created so far. */
  function Resolve(types: map<string, PgType>, ty: string): Option<PgType>
    decreases |ty|
  {
    if EndsWith(ty, "[]") then
      var inner := Resolve(types, ty[..|ty| - 2]);
      if inner.Some? then Some(Arrayed(inner.value)) else None
    else if Builtin(ty).Some? then Some(Base(Builtin(ty).value))
    else if ty in types then Some(types[ty])
    else None
  }

  /** The attributes of the first `n` fields; fails on an unknown type or a repeated name. */
  function ResolveFields(types: map<string, PgType>, fields: seq<(string, string)>, n: nat): Option<seq<Attribute>>
    requires n <= |fields|
  {
    if n == 0 then Some([])
    else
      var before, ty := ResolveFields(types, fields, n - 1), Resolve(types, fields[n - 1].1);
      if before.None? || ty.None? || NameRepeats(fields, n - 1) then None
      else Some(before.value + [Attribute(fields[n - 1].0, ty.value, false)])
  }

  /** The name of field `n` occurs among the fields before it. */
  predicate NameRepeats(fields: seq<(string, string)>, n: nat)
    requires n < |fields|
  {
    exists i :: 0 <= i < n && fields[i].0 == fields[n].0
  }

  /** `CREATE TYPE`; an existing type of that name is kept. */
  function CreateType(types: map<string, PgType>, def: CompositeTypeDef): Option<map<string, PgType>> {
    if def.typeName in types then Some(types)
    else
      var attrs := ResolveFields(types, def.fields, |def.fields|);
      if attrs.None? then None else Some(types[def.typeName := Composite(def.typeName, attrs.value)])
  }

  function CreateTypes(types: map<string, PgType>, defs: seq<CompositeTypeDef>): Option<map<string, PgType>>
    decreases |defs|
  {
    if defs == [] then Some(types)
    else
      var before := CreateTypes(types, defs[..|defs| - 1]);
      if before.None? then None else CreateType(before.value, defs[|defs| - 1])
  }

  // ----- the type a declaration is meant to name -----

  function DeclaredType(table: string, t: ArrowType, path: string): PgType
    decreases t
  {
    match t
    case Prim(p) => Base(RequiredBase(p))
    case List(_, elem) => Arrayed(DeclaredType(table, elem.dataType, path + "_item"))
    case Struct(fields) => Composite(TypeName(table, path), DeclaredAttrs(table, fields, path))
    case Map(_) => JSONB
    case Dictionary(_, value) => DeclaredType(table, value, path + "_dict")
    case Other(_) => JSONB
  }

  function DeclaredAttrs(table: string, fields: seq<Field>, path: string): seq<Attribute>
    decreases fields
  {
    seq(|fields|, i requires 0 <= i < |fields| =>
      Attribute(fields[i].name, DeclaredType(table, fields[i].dataType, ChildPath(path, fields[i])), false))
  }

  // ----- side conditions -----

  predicate DistinctNames(t: ArrowType) {
    match t
    case List(_, elem) => DistinctNames(elem.dataType)
    case Dictionary(_, value) => DistinctNames(value)
    case Struct(fields) =>
      && (forall i, j | 0 <= i < j < |fields| :: fields[i].name != fields[j].name)
      && (forall i | 0 <= i < |fields| :: DistinctNames(fields[i].dataType))
    case _ => true
  }

  /** The names generated for the structs in `t`. */
  function StructNames(table: string, t: ArrowType, path: string): set<string>
    decreases t, 0
  {
    match t
    case List(_, elem) => StructNames(table, elem.dataType, path + "_item")
    case Dictionary(_, value) => StructNames(table, value, path + "_dict")
    case Struct(fields) => {TypeName(table, path)} + FieldStructNames(table, fields, |fields|, path)
    case _ => {}
  }

  function FieldStructNames(table: string, fields: seq<Field>, n: nat, path: string): set<string>
    requires n <= |fields|
    decreases fields, n
  {
    if n == 0 then {}
    else FieldStructNames(table, fields, n - 1, path)
         + StructNames(table, fields[n - 1].dataType, ChildPath(path, fields[n - 1]))
  }

  function ColumnStructNames(table: string, fields: seq<Field>, n: nat): set<string>
    requires n <= |fields|
  {
    if n == 0 then {}
    else ColumnStructNames(table, fields, n - 1) + StructNames(table, fields[n - 1].dataType, fields[n - 1].name)
  }

  /** No two structs in `t` get the same name. */
  predicate NoCollision(table: string, t: ArrowType, path: string)
    decreases t, 0
  {
    match t
    case List(_, elem) => NoCollision(table, elem.dataType, path + "_item")
    case Dictionary(_, value) => NoCollision(table, value, path + "_dict")
    case Struct(fields) =>
      && TypeName(table, path) !in FieldStructNames(table, fields, |fields|, path)
      && NoFieldCollision(table, fields, |fields|, path)
    case _ => true
  }

  predicate NoFieldCollision(table: string, fields: seq<Field>, n: nat, path: string)
    requires n <= |fields|
    decreases fields, n
  {
    n > 0 ==>
      && NoFieldCollision(table, fields, n - 1, path)
      && NoCollision(table, fields[n - 1].dataType, ChildPath(path, fields[n - 1]))
      && FieldStructNames(table, fields, n - 1, path) !!
         StructNames(table, fields[n - 1].dataType, ChildPath(path, fields[n - 1]))
  }

  predicate NoColumnCollision(table: string, fields: seq<Field>, n: nat)
    requires n <= |fields|
  {
    n > 0 ==>
      && NoColumnCollision(table, fields, n - 1)
      && NoCollision(table, fields[n - 1].dataType, fields[n - 1].name)
      && ColumnStructNames(table, fields, n - 1) !! StructNames(table, fields[n - 1].dataType, fields[n - 1].name)
  }

  // ----- without collisions every struct keeps its own definition -----

  /** `m` holds the definition of every struct in `t`. */
  ghost predicate Defines(table: string, m: map<string, CompositeTypeDef>, t: ArrowType, path: string)
    decreases t
  {
    match t
    case List(_, elem) => Defines(table, m, elem.dataType, path + "_item")
    case Dictionary(_, value) => Defines(table, m, value, path + "_dict")
    case Struct(fields) =>
      var name := TypeName(table, path);
      && name in m && m[name] == CompositeTypeDef(name, FieldTypes(table, fields, path))
      && forall i | 0 <= i < |fields| :: Defines(table, m, fields[i].dataType, ChildPath(path, fields[i]))
    case _ => true
  }

  lemma {:induction false} DefinesExtends(table: string, a: map<string, CompositeTypeDef>,
                                          b: map<string, CompositeTypeDef>,
                                          t: ArrowType, path: string)
    requires Defines(table, a, t, path) && Extends(a, b)
    ensures Defines(table, b, t, path)
    decreases t
  {
    match t
    case List(_, elem) => DefinesExtends(table, a, b, elem.dataType, path + "_item");
    case Dictionary(_, value) => DefinesExtends(table, a, b, value, path + "_dict");
    case Struct(fields) =>
      forall i | 0 <= i < |fields| ensures Defines(table, b, fields[i].dataType, ChildPath(path, fields[i])) {
        DefinesExtends(table, a, b, fields[i].dataType, ChildPath(path, fields[i]));
      }
    case _ =>
  }

  /** Every definition belongs to a struct with distinct field names, all of whose parts are defined. */
  ghost predicate Explained(table: string, m: map<string, CompositeTypeDef>)
  {
    forall n | n in m :: ExplainedName(table, m, n)
  }

  ghost predicate ExplainedName(table: string, m: map<string, CompositeTypeDef>, n: string)
  {
    exists path, fields ::
      TypeName(table, path) == n && Defines(table, m, Struct(fields), path) && DistinctNames(Struct(fields))
  }

  lemma {:induction false} ExplainedExtends(table: string, a: map<string, CompositeTypeDef>,
                                            b: map<string, CompositeTypeDef>, n: string)
    requires Explained(table, a) && Extends(a, b) && n in a
    ensures ExplainedName(table, b, n)
  {
    var path, fields :| TypeName(table, path) == n && Defines(table, a, Struct(fields), path) &&
      DistinctNames(Struct(fields));
    DefinesExtends(table, a, b, Struct(fields), path);
  }

  lemma {:induction false} CollectDefines(table: string, t: ArrowType, path: string, s: State)
    requires Wf(s) && NoCollision(table, t, path) && StructNames(table, t, path) !! s.seen
    ensures var r := Collect(table, t, path, s);
            && Defines(table, r.composites, t, path)
            && r.seen == s.seen + StructNames(table, t, path)
            && !BackEdge(table, t, path, s)
    decreases t, 0
  {
    match t
    case List(_, elem) => CollectDefines(table, elem.dataType, path + "_item", s);
    case Dictionary(_, value) => CollectDefines(table, value, path + "_dict", s);
    case Struct(fields) =>
      var name := TypeName(table, path);
      var s1 := s.(seen := s.seen + {name});
      CollectFieldsDefine(table, fields, |fields|, path, s1);
      CollectFieldsGrows(table, fields, |fields|, path, s1);
      var inner, r := CollectFields(table, fields, |fields|, path, s1), Collect(table, t, path, s);
      assert name in Active(s1);
      assert Extends(inner.composites, r.composites);
      forall i | 0 <= i < |fields|
        ensures Defines(table, r.composites, fields[i].dataType, ChildPath(path, fields[i]))
      {
        DefinesExtends(table, inner.composites, r.composites, fields[i].dataType, ChildPath(path, fields[i]));
      }
    case _ =>
  }

  lemma {:induction false} CollectFieldsDefine(table: string, fields: seq<Field>, n: nat, path: string, s: State)
    requires n <= |fields| && Wf(s) && NoFieldCollision(table, fields, n, path)
    requires FieldStructNames(table, fields, n, path) !! s.seen
    ensures var r := CollectFields(table, fields, n, path, s);
            && (forall i | 0 <= i < n :: Defines(table, r.composites, fields[i].dataType, ChildPath(path, fields[i])))
            && r.seen == s.seen + FieldStructNames(table, fields, n, path)
            && !BackEdgeFields(table, fields, n, path, s)
    decreases fields, n
  {
    if n > 0 {
      CollectFieldsDefine(table, fields, n - 1, path, s);
      CollectFieldsGrows(table, fields, n - 1, path, s);
      var before, f, child := CollectFields(table, fields, n - 1, path, s), fields[n - 1],
        ChildPath(path, fields[n - 1]);
      CollectDefines(table, f.dataType, child, before);
      CollectGrows(table, f.dataType, child, before);
      forall i | 0 <= i < n - 1
        ensures Defines(table, CollectFields(table, fields, n, path, s).composites, fields[i].dataType,
                ChildPath(path, fields[i]))
      {
        DefinesExtends(table, before.composites, Collect(table, f.dataType, child, before).composites,
                       fields[i].dataType, ChildPath(path, fields[i]));
      }
    }
  }

  lemma {:induction false} ColumnsDefine(table: string, fields: seq<Field>, n: nat)
    requires n <= |fields| && NoColumnCollision(table, fields, n)
    ensures var r := CollectColumns(table, fields, n);
            && (forall i | 0 <= i < n :: Defines(table, r.composites, fields[i].dataType, fields[i].name))
            && r.seen == ColumnStructNames(table, fields, n)
            && !BackEdgeColumns(table, fields, n)
    decreases n
  {
    if n > 0 {
      ColumnsDefine(table, fields, n - 1);
      ColumnsGrow(table, fields, n - 1);
      ColumnsGrow(table, fields, n);
      var before := CollectColumns(table, fields, n - 1);
      CollectDefines(table, fields[n - 1].dataType, fields[n - 1].name, before);
      forall i | 0 <= i < n - 1
        ensures Defines(table, CollectColumns(table, fields, n).composites, fields[i].dataType, fields[i].name)
      {
        DefinesExtends(table, before.composites, CollectColumns(table, fields, n).composites,
                       fields[i].dataType, fields[i].name);
      }
    }
  }

  lemma {:induction false} CollectExplains(table: string, t: ArrowType, path: string, s: State)
    requires Wf(s) && NoCollision(table, t, path) && StructNames(table, t, path) !! s.seen
    requires DistinctNames(t) && Explained(table, s.composites)
    ensures Explained(table, Collect(table, t, path, s).composites)
    decreases t, 0
  {
    match t
    case List(_, elem) => CollectExplains(table, elem.dataType, path + "_item", s);
    case Dictionary(_, value) => CollectExplains(table, value, path + "_dict", s);
    case Struct(fields) =>
      var name := TypeName(table, path);
      var s1 := s.(seen := s.seen + {name});
      CollectFieldsExplain(table, fields, |fields|, path, s1);
      CollectFieldsGrows(table, fields, |fields|, path, s1);
      var inner, r := CollectFields(table, fields, |fields|, path, s1), Collect(table, t, path, s);
      assert name in Active(s1);
      assert Extends(inner.composites, r.composites);
      CollectDefines(table, t, path, s);
      forall n | n in r.composites ensures ExplainedName(table, r.composites, n) {
        if n != name {
          ExplainedExtends(table, inner.composites, r.composites, n);
        }
      }
    case _ =>
  }

  lemma {:induction false} CollectFieldsExplain(table: string, fields: seq<Field>, n: nat, path: string, s: State)
    requires n <= |fields| && Wf(s) && NoFieldCollision(table, fields, n, path)
    requires FieldStructNames(table, fields, n, path) !! s.seen
    requires DistinctNames(Struct(fields)) && Explained(table, s.composites)
    ensures Explained(table, CollectFields(table, fields, n, path, s).composites)
    decreases fields, n
  {
    if n > 0 {
      CollectFieldsExplain(table, fields, n - 1, path, s);
      CollectFieldsDefine(table, fields, n - 1, path, s);
      CollectFieldsGrows(table, fields, n - 1, path, s);
      CollectExplains(table, fields[n - 1].dataType, ChildPath(path, fields[n - 1]),
                      CollectFields(table, fields, n - 1, path, s));
    }
  }

  lemma {:induction false} ColumnsExplain(table: string, fields: seq<Field>, n: nat)
    requires n <= |fields| && NoColumnCollision(table, fields, n)
    requires forall i | 0 <= i < n :: DistinctNames(fields[i].dataType)
    ensures Explained(table, CollectColumns(table, fields, n).composites)
    decreases n
  {
    if n > 0 {
      ColumnsExplain(table, fields, n - 1);
      ColumnsDefine(table, fields, n - 1);
      ColumnsGrow(table, fields, n - 1);
      CollectExplains(table, fields[n - 1].dataType, fields[n - 1].name, CollectColumns(table, fields, n - 1));
    }
  }

  // ----- creating the types in order gives every declaration its meaning -----

  /** Every created type is the one meant for all structs defined under its name. */
  ghost predicate Meant(table: string, m: map<string, CompositeTypeDef>, types: map<string, PgType>)
  {
    forall path, fields | Defines(table, m, Struct(fields), path) && TypeName(table, path) in types ::
      types[TypeName(table, path)] == DeclaredType(table, Struct(fields), path)
  }

  lemma {:induction false} ScalarIsBuiltin(p: Primitive)
    ensures Builtin(ScalarTypeName(p)) == Some(RequiredBase(p))
  {
  }

  lemma {:induction false} ScalarResolves(types: map<string, PgType>, p: Primitive)
    ensures Resolve(types, ScalarTypeName(p)) == Some(Base(RequiredBase(p)))
  {
    ScalarIsBuiltin(p);
    ScalarIsWord(p);
    BuiltinResolves(types, ScalarTypeName(p));
  }

  lemma {:induction false} BuiltinResolves(types: map<string, PgType>, s: string)
    requires IsWord(s) && Builtin(s).Some?
    ensures Resolve(types, s) == Some(Base(Builtin(s).value))
  {
    assert s[|s| - 1] != ']';
  }

  lemma {:induction false} JsonbResolves(types: map<string, PgType>)
    ensures Resolve(types, "jsonb") == Some(JSONB)
  {
    assert !EndsWith("jsonb", "[]");
  }

  lemma {:induction false} NameResolves(types: map<string, PgType>, table: string, path: string)
    requires TypeName(table, path) in types
    ensures Resolve(types, TypeName(table, path)) == Some(types[TypeName(table, path)])
  {
    TypeNameIsWord(table, path);
    var s := TypeName(table, path);
    assert s[|s| - 1] != ']';
    assert s[0] == s[..6][0] == 'l';
  }

  lemma {:induction false} DeclarationResolves(table: string, m: map<string, CompositeTypeDef>,
                                               types: map<string, PgType>,
                                               t: ArrowType, path: string)
    requires Meant(table, m, types) && Defines(table, m, t, path)
    requires CoreIsStruct(t) ==> CoreName(table, t, path) in types
    ensures Resolve(types, TypeString(table, t, path)) == Some(DeclaredType(table, t, path))
    decreases t
  {
    match t
    case Prim(p) => ScalarResolves(types, p);
    case List(_, elem) =>
      DeclarationResolves(table, m, types, elem.dataType, path + "_item");
      var s := TypeString(table, elem.dataType, path + "_item");
      assert (s + "[]")[..|s|] == s && EndsWith(s + "[]", "[]");
    case Struct(fields) => NameResolves(types, table, path);
    case Map(_) => JsonbResolves(types);
    case Dictionary(_, value) => DeclarationResolves(table, m, types, value, path + "_dict");
    case Other(_) => JsonbResolves(types);
  }

  /** Field `i` resolves to attribute `i`, under a name no other field has. */
  ghost predicate ResolvesTo(types: map<string, PgType>, fields: seq<(string, string)>, attrs: seq<Attribute>)
  {
    && |fields| == |attrs|
    && (forall i | 0 <= i < |fields| ::
         Resolve(types, fields[i].1) == Some(attrs[i].typ) && attrs[i].name == fields[i].0 && !attrs[i].dropped)
    && (forall i, j | 0 <= i < j < |fields| :: fields[i].0 != fields[j].0)
  }

  lemma {:induction false} AttrsResolve(types: map<string, PgType>, fields: seq<(string, string)>,
                                        attrs: seq<Attribute>, n: nat)
    requires ResolvesTo(types, fields, attrs) && n <= |fields|
    ensures ResolveFields(types, fields, n) == Some(attrs[..n])
    decreases n
  {
    if n > 0 {
      AttrsResolve(types, fields, attrs, n - 1);
      NextResolves(types, fields, attrs, n);
    }
  }

  lemma {:induction false} NextResolves(types: map<string, PgType>, fields: seq<(string, string)>,
                                        attrs: seq<Attribute>, n: nat)
    requires ResolvesTo(types, fields, attrs) && 0 < n <= |fields|
    requires ResolveFields(types, fields, n - 1) == Some(attrs[..n - 1])
    ensures ResolveFields(types, fields, n) == Some(attrs[..n])
  {
    AttrResolves(types, fields, attrs[..n - 1], attrs[n - 1], n);
    assert attrs[..n] == attrs[..n - 1] + [attrs[n - 1]];
  }

  lemma {:induction false} AttrResolves(types: map<string, PgType>, fields: seq<(string, string)>,
                                        before: seq<Attribute>, a: Attribute, n: nat)
    requires 0 < n <= |fields| && ResolveFields(types, fields, n - 1) == Some(before)
    requires Resolve(types, fields[n - 1].1) == Some(a.typ) && a.name == fields[n - 1].0 && !a.dropped
    requires forall i | 0 <= i < n - 1 :: fields[i].0 != fields[n - 1].0
    ensures ResolveFields(types, fields, n) == Some(before + [a])
  {
  }

  /** Once everything a struct depends on has been created, its definition resolves to its
      meant attributes. */
  lemma {:induction false} StructResolves(table: string, m: map<string, CompositeTypeDef>, types: map<string, PgType>,
                       fields: seq<Field>, path: string)
    requires Meant(table, m, types) && Defines(table, m, Struct(fields), path)
    requires Deps(m[TypeName(table, path)]) <= types.Keys
    requires forall i, j | 0 <= i < j < |fields| :: fields[i].name != fields[j].name
    ensures ResolveFields(types, m[TypeName(table, path)].fields, |fields|) == Some(DeclaredAttrs(table, fields, path))
  {
    DepsOfStruct(table, TypeName(table, path), fields, path);
    var strings, attrs := FieldTypes(table, fields, path), DeclaredAttrs(table, fields, path);
    forall i | 0 <= i < |fields| ensures Resolve(types, strings[i].1) == Some(attrs[i].typ) {
      DeclarationResolves(table, m, types, fields[i].dataType, ChildPath(path, fields[i]));
    }
    AttrsResolve(types, strings, attrs, |fields|);
    assert attrs[..|fields|] == attrs;
  }

  lemma {:induction false} SameFieldNames(table: string, f1: seq<Field>, p1: string, f2: seq<Field>, p2: string)
    requires FieldTypes(table, f1, p1) == FieldTypes(table, f2, p2)
    requires forall i, j | 0 <= i < j < |f1| :: f1[i].name != f1[j].name
    ensures |f1| == |f2| && forall i, j | 0 <= i < j < |f2| :: f2[i].name != f2[j].name
  {
    var a, b := FieldTypes(table, f1, p1), FieldTypes(table, f2, p2);
    assert |a| == |f1| && |b| == |f2|;
    forall i | 0 <= i < |f2| ensures f1[i].name == f2[i].name {
      assert a[i].0 == f1[i].name && b[i].0 == f2[i].name;
    }
  }

  lemma {:induction false} CreateOne(table: string, m: map<string, CompositeTypeDef>, types: map<string, PgType>,
                                     n: string)
    returns (created: map<string, PgType>)
    requires Meant(table, m, types) && n in m && n !in types && m[n].typeName == n
    requires Deps(m[n]) <= types.Keys && ExplainedName(table, m, n)
    ensures CreateType(types, m[n]) == Some(created)
    ensures created.Keys == types.Keys + {n} && Meant(table, m, created)
  {
    var path, fields :| TypeName(table, path) == n && Defines(table, m, Struct(fields), path) &&
      DistinctNames(Struct(fields));
    StructResolves(table, m, types, fields, path);
    created := types[n := Composite(n, DeclaredAttrs(table, fields, path))];
    forall p2, f2 | Defines(table, m, Struct(f2), p2) && TypeName(table, p2) in created
      ensures created[TypeName(table, p2)] == DeclaredType(table, Struct(f2), p2)
    {
      if TypeName(table, p2) == n {
        SameFieldNames(table, fields, path, f2, p2);
        StructResolves(table, m, types, f2, p2);
      }
    }
  }

  lemma {:induction false} CreateInOrder(table: string, had: map<string, PgType>, m: map<string, CompositeTypeDef>,
                                         defs: seq<CompositeTypeDef>, k: nat)
    returns (types: map<string, PgType>)
    requires Lists(defs, m) && Executable(defs) && Explained(table, m) && k <= |defs| && had.Keys !! m.Keys
    ensures CreateTypes(had, defs[..k]) == Some(types)
    ensures types.Keys == had.Keys + NameSet(defs[..k]) && Meant(table, m, types)
    decreases k
  {
    if k == 0 {
      types := had;
    } else {
      var before := CreateInOrder(table, had, m, defs, k - 1);
      CreateNext(had, defs, k, before);
      NewName(m, had, defs, k - 1);
      types := CreateOne(table, m, before, defs[k - 1].typeName);
    }
  }

  lemma {:induction false} NewName(m: map<string, CompositeTypeDef>, had: map<string, PgType>,
                                   defs: seq<CompositeTypeDef>, k: nat)
    requires Lists(defs, m) && had.Keys !! m.Keys && k < |defs|
    ensures defs[k].typeName !in had.Keys + NameSet(defs[..k])
  {
  }

  lemma {:induction false} CreateNext(had: map<string, PgType>, defs: seq<CompositeTypeDef>, k: nat,
                                      before: map<string, PgType>)
    requires 0 < k <= |defs| && CreateTypes(had, defs[..k - 1]) == Some(before)
    ensures CreateTypes(had, defs[..k]) == CreateType(before, defs[k - 1])
    ensures NameSet(defs[..k]) == NameSet(defs[..k - 1]) + {defs[k - 1].typeName}
  {
    assert defs[..k][..k - 1] == defs[..k - 1] && defs[..k] == defs[..k - 1] + [defs[k - 1]];
    NameSetSnoc(defs[..k - 1], defs[k - 1]);
  }

  /** Executing the ordered definitions never fails where no name is taken, and afterwards every
      column's declared type names exactly the type meant for its Arrow type. */
  lemma {:induction false} DeclarationsMean(table: string, had: map<string, PgType>, fields: seq<Field>,
                                            defs: seq<CompositeTypeDef>)
    returns (types: map<string, PgType>)
    requires NoColumnCollision(table, fields, |fields|)
    requires forall i | 0 <= i < |fields| :: DistinctNames(fields[i].dataType)
    requires had.Keys !! CollectColumns(table, fields, |fields|).composites.Keys
    requires Lists(defs, CollectColumns(table, fields, |fields|).composites) && Executable(defs)
    ensures CreateTypes(had, defs) == Some(types)
    ensures forall i | 0 <= i < |fields| ::
              Resolve(types, ColumnTypes(table, fields)[i].1)
              == Some(DeclaredType(table, fields[i].dataType, fields[i].name))
  {
    var m := CollectColumns(table, fields, |fields|).composites;
    ColumnsDefine(table, fields, |fields|);
    ColumnsExplain(table, fields, |fields|);
    types := CreateInOrder(table, had, m, defs, |defs|);
    assert defs[..|defs|] == defs;
    forall i | 0 <= i < |fields|
      ensures Resolve(types, ColumnTypes(table, fields)[i].1) ==
              Some(DeclaredType(table, fields[i].dataType, fields[i].name))
    {
      if CoreIsStruct(fields[i].dataType) {
        CoreIsDefined(table, m, fields[i].dataType, fields[i].name);
      }
      DeclarationResolves(table, m, types, fields[i].dataType, fields[i].name);
    }
  }

  lemma {:induction false} CoreIsDefined(table: string, m: map<string, CompositeTypeDef>, t: ArrowType, path: string)
    requires Defines(table, m, t, path) && CoreIsStruct(t)
    ensures CoreName(table, t, path) in m
    decreases t
  {
    match t
    case List(_, elem) => CoreIsDefined(table, m, elem.dataType, path + "_item");
    case Dictionary(_, value) => CoreIsDefined(table, m, value, path + "_dict");
    case Struct(_) =>
  }

  // ----- against which declarations a type validates -----

  /** The innermost type under lists and dictionaries, with its path. */
  function Innermost(t: ArrowType, path: string): (ArrowType, string) {
    match t
    case List(_, elem) => Innermost(elem.dataType, path + "_item")
    case Dictionary(_, value) => Innermost(value, path + "_dict")
    case _ => (t, path)
  }

  /** `t` without its lists and dictionaries. */
  function Core(t: ArrowType): ArrowType {
    Innermost(t, "").0
  }

  predicate MapsToJsonb(t: ArrowType) {
    t.Map? || t.Other?
  }

  /** Values of type `now` fit a column that was declared for `was`. */
  predicate Compatible(now: ArrowType, was: ArrowType)
    decreases now
  {
    match now
    case Prim(p) => ListDepth(was) == 0 && Core(was).Prim? && RequiredBase(Core(was).prim) == RequiredBase(p)
    case Dictionary(_, value) => Compatible(value, was)
    case List(_, elem) =>
      if ListDepth(was) == 0 then MapsToJsonb(Core(was)) else Compatible(elem.dataType, Core(was))
    case Struct(fields) =>
      ListDepth(was) == 0 && Core(was).Struct? && CompatibleFields(fields, Core(was).fields, |Core(was).fields|)
    case _ => ListDepth(was) == 0 && MapsToJsonb(Core(was))
  }

  /** The first `n` fields of the old struct have their like in the new one. */
  predicate CompatibleFields(now: seq<Field>, was: seq<Field>, n: nat)
    requires n <= |was|
    decreases now, n
  {
    n > 0 ==>
      && CompatibleFields(now, was, n - 1)
      && var i := FindField(now, was[n - 1].name);
         i.Some? && Compatible(now[i.value].dataType, was[n - 1].dataType)
  }

  lemma {:induction false} InnermostAnyPath(t: ArrowType, p: string, q: string)
    ensures Innermost(t, p).0 == Innermost(t, q).0
    ensures var c := Core(t); !c.List? && !c.Dictionary? && ListDepth(c) == 0 && Core(c) == c
    decreases t
  {
    match t
    case List(_, elem) =>
      InnermostAnyPath(elem.dataType, p + "_item", q + "_item");
      InnermostAnyPath(elem.dataType, "" + "_item", "");
    case Dictionary(_, value) =>
      InnermostAnyPath(value, p + "_dict", q + "_dict");
      InnermostAnyPath(value, "" + "_dict", "");
    case _ =>
  }

  /** A declared type is that of its core, as an array if there are lists around it. */
  lemma {:induction false} DeclaredShape(table: string, t: ArrowType, path: string)
    ensures var c := Innermost(t, path);
            var core := DeclaredType(table, c.0, c.1);
            && !core.ArrayOf?
            && DeclaredType(table, t, path) == (if ListDepth(t) > 0 then ArrayOf(core) else core)
    decreases t
  {
    match t
    case List(_, elem) => DeclaredShape(table, elem.dataType, path + "_item");
    case Dictionary(_, value) => DeclaredShape(table, value, path + "_dict");
    case _ =>
  }

  /** A type validates against what was declared for another exactly when the two are compatible,
      which is a matter of the Arrow types alone. */
  lemma {:induction false} CompatibleIff(table: string, now: ArrowType, was: ArrowType, path: string)
    ensures Validate(now, DeclaredType(table, was, path)).Ok? <==> Compatible(now, was)
    decreases now, 1
  {
    var c := Innermost(was, path);
    DeclaredShape(table, was, path);
    InnermostAnyPath(was, path, "");
    match now
    case Dictionary(_, value) => CompatibleIff(table, value, was, path);
    case List(_, elem) =>
      if ListDepth(was) > 0 {
        CompatibleIff(table, elem.dataType, c.0, c.1);
      }
    case Struct(fields) =>
      if ListDepth(was) == 0 && c.0.Struct? {
        CompatibleFieldsIff(table, fields, c.0.fields, c.1, |c.0.fields|);
      }
    case _ =>
  }

  lemma {:induction false} CompatibleFieldsIff(table: string, now: seq<Field>, was: seq<Field>, path: string, n: nat)
    requires n <= |was|
    ensures ValidateAttrs(now, DeclaredAttrs(table, was, path), n).Ok? <==> CompatibleFields(now, was, n)
    decreases now, 0, n
  {
    if n > 0 {
      CompatibleFieldsIff(table, now, was, path, n - 1);
      var i := FindField(now, was[n - 1].name);
      if i.Some? {
        CompatibleIff(table, now[i.value].dataType, was[n - 1].dataType, ChildPath(path, was[n - 1]));
      }
    }
  }

  // ----- which declarations validate -----

  /** A list once dictionaries are looked through. */
  predicate IsListCore(t: ArrowType) {
    match t
    case List(_, _) => true
    case Dictionary(_, value) => IsListCore(value)
    case _ => false
  }

  /** Under all its lists and dictionaries, the type is one that maps to jsonb. */
  predicate BottomsInJsonb(t: ArrowType) {
    match t
    case List(_, elem) => BottomsInJsonb(elem.dataType)
    case Dictionary(_, value) => BottomsInJsonb(value)
    case Map(_) => true
    case Other(_) => true
    case _ => false
  }

  /** Every list of lists bottoms out in a type that maps to jsonb. */
  predicate ListsAreFlat(t: ArrowType) {
    match t
    case List(_, elem) => if IsListCore(elem.dataType) then BottomsInJsonb(elem.dataType)
      else ListsAreFlat(elem.dataType)
    case Dictionary(_, value) => ListsAreFlat(value)
    case Struct(fields) => forall i | 0 <= i < |fields| :: ListsAreFlat(fields[i].dataType)
    case _ => true
  }

  /** How a list of lists is declared and what the collapsed declaration accepts. */
  lemma {:induction false} NestedListDeclaration(table: string, t: ArrowType, path: string)
    ensures IsListCore(t) <==> DeclaredType(table, t, path).ArrayOf?
    ensures var d := DeclaredType(table, t, path);
            var base := if d.ArrayOf? then d.elem else d;
            !base.ArrayOf? && (base == JSONB <==> BottomsInJsonb(t))
    decreases t
  {
    match t
    case List(_, elem) => NestedListDeclaration(table, elem.dataType, path + "_item");
    case Dictionary(_, value) => NestedListDeclaration(table, value, path + "_dict");
    case _ =>
  }

  lemma {:induction false} ListNeedsArrayOrJsonb(t: ArrowType, target: PgType)
    requires IsListCore(t) && !target.ArrayOf?
    ensures Validate(t, target).Ok? <==> target == JSONB
  {
    match t
    case Dictionary(_, value) => ListNeedsArrayOrJsonb(value, target);
    case List(_, _) =>
  }

  /** Compile, then validate: the declared type of an Arrow type passes validation exactly
      when every list of lists in it bottoms out in a type that maps to jsonb. */
  lemma {:induction false} DeclaredValidatesIff(table: string, t: ArrowType, path: string)
    requires DistinctNames(t)
    ensures Validate(t, DeclaredType(table, t, path)).Ok? <==> ListsAreFlat(t)
    decreases t
  {
    match t
    case List(_, elem) =>
      NestedListDeclaration(table, elem.dataType, path + "_item");
      if IsListCore(elem.dataType) {
        ListNeedsArrayOrJsonb(elem.dataType, DeclaredType(table, t, path).elem);
      } else {
        DeclaredValidatesIff(table, elem.dataType, path + "_item");
      }
    case Dictionary(_, value) => DeclaredValidatesIff(table, value, path + "_dict");
    case Struct(fields) =>
      forall i | 0 <= i < |fields|
        ensures Validate(fields[i].dataType, DeclaredType(table, fields[i].dataType, ChildPath(path, fields[i]))).Ok?
                <==> ListsAreFlat(fields[i].dataType)
      {
        DeclaredValidatesIff(table, fields[i].dataType, ChildPath(path, fields[i]));
      }
      AttrsValidateIff(table, fields, path, |fields|);
    case _ =>
  }

  /** A list of lists of integers is declared `int4[][]`, which names `int4[]`, which its own column
      does not pass. */
  lemma {:induction false} NestedListIsRejected(table: string, path: string)
    ensures var t := List(Small, Field("item", List(Small, Field("item", Prim(Int32)))));
            && TypeString(table, t, path) == "int4[][]"
            && DeclaredType(table, t, path) == ArrayOf(Base(PgInt4))
            && Validate(t, DeclaredType(table, t, path)).Err?
  {
    var t := List(Small, Field("item", List(Small, Field("item", Prim(Int32)))));
    assert ScalarTypeName(Int32) + "[]" + "[]" == "int4[][]";
    DeclaredValidatesIff(table, t, path);
  }

  lemma {:induction false} AttrsValidateIff(table: string, fields: seq<Field>, path: string, n: nat)
    requires n <= |fields|
    requires forall i, j | 0 <= i < j < |fields| :: fields[i].name != fields[j].name
    ensures ValidateAttrs(fields, DeclaredAttrs(table, fields, path), n).Ok? <==>
            forall i | 0 <= i < n ::
              Validate(fields[i].dataType, DeclaredType(table, fields[i].dataType, ChildPath(path, fields[i]))).Ok?
    decreases n
  {
    if n > 0 {
      AttrsValidateIff(table, fields, path, n - 1);
      assert FindField(fields, fields[n - 1].name) == Some(n - 1);
    }
  }
}
