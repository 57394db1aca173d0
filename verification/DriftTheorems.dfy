/** What drift detection sees of a changed table, and what it misses (src/fdw/sync_namespace.rs:423-446
    against the validation of src/fdw/convert.rs:83-206). */
module DriftTheorems {
  import opened Text
  import opened Arrow
  import opened TypeMapping
  import opened SchemaOrder
  import opened Convert
  import opened Declared
  import opened Imports
  import opened Canonical
  import opened Drift

  // ----- when a changed table shows no drift -----

  /** PostgreSQL shows one array suffix for any number of list levels. */
  function ShownDepth(n: nat): nat {
    if n > 0 then 1 else 0
  }

  /** The canonical forms of a declaration and of its display. */
  lemma {:induction false} CanonicalForms(table: string, t: ArrowType, path: string, style: Style)
    requires UsableStyle(style)
    ensures IsWord(CoreName(table, t, path))
    ensures CanonicalType(TypeString(table, t, path)) == CoreName(table, t, path) + Repeat("[]", ListDepth(t))
    ensures CanonicalType(Displayed(DeclaredType(table, t, path), style)) ==
            CoreName(table, t, path) + Repeat("[]", ShownDepth(ListDepth(t)))
  {
    TypeStringShape(table, t, path);
    DisplayedShape(table, t, path, style);
    CoreOfDeclared(table, t, path);
    CanonicalCore(table, t, path, style, ListDepth(t));
    CanonicalCore(table, t, path, style, ShownDepth(ListDepth(t)));
  }

  lemma {:induction false} SuffixedWordsDiffer(a: string, n: nat, b: string, k: nat)
    requires IsWord(a) && IsWord(b)
    ensures a + Repeat("[]", n) == b + Repeat("[]", k) <==> a == b && n == k
  {
    SuffixesOfWord(a, n);
    SuffixesOfWord(b, k);
  }

  /** The column still has its name, the core of its type its name, and the lists their shown depth. */
  ghost predicate LooksAlike(table: string, now: Field, was: Field)
  {
    && now.name == was.name
    && CoreName(table, now.dataType, now.name) == CoreName(table, was.dataType, was.name)
    && ListDepth(now.dataType) == ShownDepth(ListDepth(was.dataType))
  }

  ghost predicate AllLookAlike(table: string, now: seq<Field>, was: seq<Field>)
  {
    |now| == |was| && forall i | 0 <= i < |now| :: LooksAlike(table, now[i], was[i])
  }

  /** A table attached from the columns `was` shows no drift against the columns `now` exactly when
      these look alike. */
  lemma {:induction false} NoDriftIff(table: string, now: seq<Field>, was: seq<Field>, style: Style)
    requires UsableStyle(style)
    ensures NoDrift(ColumnTypes(table, now), AttachedColumns(table, was, style)) <==> AllLookAlike(table, now, was)
  {
    var e, a := CanonicalColumns(ColumnTypes(table, now)), CanonicalColumns(AttachedColumns(table, was, style));
    assert |e| == |now| && |a| == |was|;
    forall i | 0 <= i < |now| && i < |was| ensures e[i] == a[i] <==> LooksAlike(table, now[i], was[i]) {
      ColumnLooksAlike(table, now[i], was[i], style);
    }
  }

  lemma {:induction false} ColumnLooksAlike(table: string, now: Field, was: Field, style: Style)
    requires UsableStyle(style)
    ensures LooksAlike(table, now, was) <==>
            now.name == was.name
            && CanonicalType(TypeString(table, now.dataType, now.name)) ==
               CanonicalType(Displayed(DeclaredType(table, was.dataType, was.name), style))
  {
    CanonicalForms(table, now.dataType, now.name, style);
    CanonicalForms(table, was.dataType, was.name, style);
    SuffixedWordsDiffer(CoreName(table, now.dataType, now.name), ListDepth(now.dataType),
                        CoreName(table, was.dataType, was.name), ShownDepth(ListDepth(was.dataType)));
  }

  // ----- whether a column that looks alike still validates -----

  /** Types with the same core name differ at most in the fields of a struct. */
  lemma {:induction false} SameCore(table: string, a: ArrowType, p: string, b: ArrowType, q: string)
    requires CoreName(table, a, p) == CoreName(table, b, q)
    ensures CoreIsStruct(a) <==> CoreIsStruct(b)
    ensures !CoreIsStruct(a) ==> CoreType(table, a, p) == CoreType(table, b, q)
    ensures CoreIsStruct(a) <==> Innermost(a, p).0.Struct?
  {
    TypeStringShape(table, a, p);
    TypeStringShape(table, b, q);
    InnermostKind(a, p);
    InnermostKind(b, q);
    InnermostCore(table, a, p);
    InnermostCore(table, b, q);
    if !CoreIsStruct(a) {
      SameLeaf(table, Innermost(a, p), Innermost(b, q));
    }
  }

  lemma {:induction false} InnermostKind(t: ArrowType, path: string)
    ensures CoreIsStruct(t) <==> Innermost(t, path).0.Struct?
    decreases t
  {
    match t
    case List(_, elem) => InnermostKind(elem.dataType, path + "_item");
    case Dictionary(_, value) => InnermostKind(value, path + "_dict");
    case _ =>
  }

  lemma {:induction false} SameLeaf(table: string, a: (ArrowType, string), b: (ArrowType, string))
    requires a.0.Prim? || a.0.Map? || a.0.Other?
    requires b.0.Prim? || b.0.Map? || b.0.Other?
    requires CoreName(table, a.0, a.1) == CoreName(table, b.0, b.1)
    ensures DeclaredType(table, a.0, a.1) == DeclaredType(table, b.0, b.1)
  {
    if a.0.Prim? && b.0.Prim? {
      ScalarIsBuiltin(a.0.prim);
      ScalarIsBuiltin(b.0.prim);
    } else if a.0.Prim? {
      ScalarIsNotJson(a.0.prim);
    } else if b.0.Prim? {
      ScalarIsNotJson(b.0.prim);
    }
  }

  lemma {:induction false} ScalarIsNotJson(p: Primitive)
    ensures ScalarTypeName(p) != "jsonb"
  {
    assert ScalarTypeName(p)[0] != 'j';
  }

  /** Types with at most one list level, and as many as the old type shows, are compatible exactly if
      their cores are. */
  lemma {:induction false} CompatibleInside(now: ArrowType, was: ArrowType)
    requires ListDepth(now) == ShownDepth(ListDepth(was))
    ensures Compatible(now, was) <==> Compatible(Core(now), Core(was))
    decreases now
  {
    InnermostAnyPath(was, "", "");
    match now
    case Dictionary(_, value) =>
      CompatibleInside(value, was);
      InnermostAnyPath(value, "" + "_dict", "");
    case List(_, elem) =>
      CompatibleInside(elem.dataType, Core(was));
      InnermostAnyPath(elem.dataType, "" + "_item", "");
    case _ =>
  }

  /** A column reported in sync validates exactly when it has no struct at its core or the new struct
      is compatible with the old one, which drift detection does not look into. */
  lemma {:induction false} InSyncValidatesIff(table: string, now: Field, was: Field)
    requires LooksAlike(table, now, was)
    ensures var inner, before := Core(now.dataType), Core(was.dataType);
            && (CoreIsStruct(now.dataType) <==> inner.Struct?) && (inner.Struct? <==> before.Struct?)
            && (Validate(now.dataType, DeclaredType(table, was.dataType, was.name)).Ok? <==>
                (inner.Struct? ==> CompatibleFields(inner.fields, before.fields, |before.fields|)))
  {
    var t, s := now.dataType, was.dataType;
    SameCore(table, t, now.name, s, was.name);
    InnermostAnyPath(t, now.name, "");
    InnermostAnyPath(s, was.name, "");
    InnermostKind(s, was.name);
    CompatibleIff(table, t, s, was.name);
    CompatibleInside(t, s);
    if !CoreIsStruct(t) {
      SameLeafIsCompatible(table, t, now.name, s, was.name);
    }
  }

  lemma {:induction false} SameLeafIsCompatible(table: string, t: ArrowType, p: string, s: ArrowType, q: string)
    requires CoreName(table, t, p) == CoreName(table, s, q) && !CoreIsStruct(t)
    ensures Compatible(Core(t), Core(s))
  {
    SameCore(table, t, p, s, q);
    InnermostCore(table, t, p);
    InnermostCore(table, s, q);
    InnermostKind(t, p);
    InnermostKind(s, q);
    InnermostAnyPath(t, p, "");
    InnermostAnyPath(s, q, "");
    assert CoreType(table, t, p) == CoreType(table, s, q);
  }

  /** The same for columns imported under shared names or next to other types: what counts is then the
      struct compiled first under the name, or the existing type. */
  lemma {:induction false} InSyncValidatesUnderSharedNamesIff(had: map<string, PgType>, table: string,
                                                              m: map<string, CompositeTypeDef>,
                                                              types: map<string, PgType>, now: Field, was: Field)
    requires Compiled(table, m) && Realizes(had, m, types) && CoreCreated(types, table, was.dataType, was.name)
    requires LooksAlike(table, now, was)
    ensures var target := NamedType(types, table, was.dataType, was.name);
            && (Validate(now.dataType, target).Ok? <==>
                CompatibleIn(had, table, m, now.dataType, was.dataType, was.name))
            && (!CoreIsStruct(now.dataType) ==> Validate(now.dataType, target).Ok?)
  {
    NamedValidatesIff(had, table, m, types, now.dataType, was.dataType, was.name);
    SameCore(table, now.dataType, now.name, was.dataType, was.name);
    if !CoreIsStruct(now.dataType) {
      InSyncValidatesIff(table, now, was);
      NamedIsDeclared(types, table, was.dataType, was.name);
    }
  }

  /** Without a struct at the core, shared names play no part. */
  lemma {:induction false} NamedIsDeclared(types: map<string, PgType>, table: string, t: ArrowType, path: string)
    requires !CoreIsStruct(t)
    ensures NamedType(types, table, t, path) == DeclaredType(table, t, path)
    decreases t
  {
    match t
    case List(_, elem) => NamedIsDeclared(types, table, elem.dataType, path + "_item");
    case Dictionary(_, value) => NamedIsDeclared(types, table, value, path + "_dict");
    case _ =>
  }

  /** PostgreSQL shows columns imported under shared names like all others. */
  lemma {:induction false} NamedIsDisplayed(types: map<string, PgType>, table: string, t: ArrowType, path: string,
                                            style: Style)
    requires CoreCreated(types, table, t, path)
    requires forall n | n in types :: types[n].Composite? && types[n].name == n
    ensures var named, declared := NamedType(types, table, t, path), DeclaredType(table, t, path);
            (named.ArrayOf? <==> declared.ArrayOf?) && Displayed(named, style) == Displayed(declared, style)
    decreases t
  {
    match t
    case List(_, elem) => NamedIsDisplayed(types, table, elem.dataType, path + "_item", style);
    case Dictionary(_, value) => NamedIsDisplayed(types, table, value, path + "_dict", style);
    case _ =>
  }

  /** A struct field that changes its type is missed: the column stays in sync and stops validating. */
  lemma {:induction false} StructChangeIsMissed(table: string, style: Style)
    requires UsableStyle(style)
    ensures var was, now := Field("a", Struct([Field("x", Prim(Int32))])), Field("a", Struct([Field("x", Prim(Utf8))]));
            && NoDrift(ColumnTypes(table, [now]), AttachedColumns(table, [was], style))
            && Validate(now.dataType, DeclaredType(table, was.dataType, was.name)).Err?
  {
    var was, now := Field("a", Struct([Field("x", Prim(Int32))])), Field("a", Struct([Field("x", Prim(Utf8))]));
    NoDriftIff(table, [now], [was], style);
    InSyncValidatesIff(table, now, was);
    assert !Compatible(Prim(Utf8), Prim(Int32));
    assert !CompatibleFields(now.dataType.fields, was.dataType.fields, 1);
  }
}
