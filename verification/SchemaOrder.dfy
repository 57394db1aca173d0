/** When the composite types of a compiled schema can be created in dependency order
    (src/fdw/type_mapping.rs:33-119 with src/fdw/ddl.rs:11-68). */
module SchemaOrder {
  import opened Arrow
  import opened Ordered
  import opened Text
  import opened TypeMapping
  import opened DdlOrder
  import opened Wrappers

  // ----- the shape of a declared type -----

  ghost predicate IsWord(s: string)
  {
    s != "" && forall i | 0 <= i < |s| :: 'a' <= s[i] <= 'z' || '0' <= s[i] <= '9' || s[i] == '_'
  }

  /** The declared type without its array suffixes. */
  function CoreName(table: string, t: ArrowType, path: string): string
    decreases t
  {
    match t
    case Prim(p) => ScalarTypeName(p)
    case List(_, elem) => CoreName(table, elem.dataType, path + "_item")
    case Struct(_) => TypeName(table, path)
    case Map(_) => "jsonb"
    case Dictionary(_, value) => CoreName(table, value, path + "_dict")
    case Other(_) => "jsonb"
  }

  /** How many list levels wrap the core, looking through dictionaries. */
  function ListDepth(t: ArrowType): nat {
    match t
    case List(_, elem) => 1 + ListDepth(elem.dataType)
    case Dictionary(_, value) => ListDepth(value)
    case _ => 0
  }

  /** The struct a declared type is named after, if any. */
  predicate CoreIsStruct(t: ArrowType) {
    match t
    case List(_, elem) => CoreIsStruct(elem.dataType)
    case Dictionary(_, value) => CoreIsStruct(value)
    case Struct(_) => true
    case _ => false
  }

  lemma {:induction false} TypeNameIsWord(table: string, path: string)
    ensures IsWord(TypeName(table, path)) && StartsWith(TypeName(table, path), LANCE_PREFIX)
  {
    var raw, name := "lance_" + table + "_" + path, TypeName(table, path);
    assert raw[..6] == "lance_";
    assert forall i | 0 <= i < 6 :: name[i] == NameChar(raw[i]) && raw[i] == "lance_"[i];
    assert name[..6] == "lance_";
    forall i | 0 <= i < |name| ensures 'a' <= name[i] <= 'z' || '0' <= name[i] <= '9' || name[i] == '_' {
      assert name[i] == NameChar(raw[i]);
    }
  }

  lemma {:induction false} ScalarIsWord(p: Primitive)
    ensures IsWord(ScalarTypeName(p)) && !StartsWith(ScalarTypeName(p), LANCE_PREFIX)
  {
    assert ScalarTypeName(p)[0] != 'l' && LANCE_PREFIX[0] == 'l';
  }

  /** A declared type is a word followed by one array suffix for each list level; the word
      is a generated name exactly when a struct is at the core. */
  lemma {:induction false} TypeStringShape(table: string, t: ArrowType, path: string)
    ensures TypeString(table, t, path) == CoreName(table, t, path) + Repeat("[]", ListDepth(t))
    ensures IsWord(CoreName(table, t, path))
    ensures StartsWith(CoreName(table, t, path), LANCE_PREFIX) <==> CoreIsStruct(t)
    decreases t
  {
    match t
    case Prim(p) =>
      ScalarIsWord(p);
    case List(_, elem) =>
      TypeStringShape(table, elem.dataType, path + "_item");
    case Struct(_) =>
      TypeNameIsWord(table, path);
    case Dictionary(_, value) =>
      TypeStringShape(table, value, path + "_dict");
    case Map(_) =>
      assert "jsonb"[0] != LANCE_PREFIX[0];
    case Other(_) =>
      assert "jsonb"[0] != LANCE_PREFIX[0];
  }

  lemma {:induction false} WordIsBare(w: string)
    requires IsWord(w)
    ensures TrimEnd(w) == w && !EndsWith(w, "[]")
  {
    assert w[|w| - 1] != ']';
  }

  /** A word behind which array suffixes are stripped and counted again. */
  lemma {:induction false} SuffixesOfWord(w: string, n: nat)
    requires IsWord(w)
    ensures Suffixes(w + Repeat("[]", n)) == (w, n) && Trim(w + Repeat("[]", n)) == w + Repeat("[]", n)
  {
    WordIsBare(w);
    SuffixesOf(w, n);
    assert (w + Repeat("[]", n))[0] == w[0];
  }

  /** `base_type_name` undoes the list levels of a declared type. */
  lemma {:induction false} BaseOfTypeString(table: string, t: ArrowType, path: string)
    ensures BaseTypeName(TypeString(table, t, path)) == CoreName(table, t, path)
  {
    TypeStringShape(table, t, path);
    SuffixesOfWord(CoreName(table, t, path), ListDepth(t));
  }

  // ----- references to a type still being defined -----

  /** Compiling `t` meets a struct whose generated name belongs to a struct still being
      compiled, that is, to one that encloses it. */
  ghost predicate BackEdge(table: string, t: ArrowType, path: string, s: State)
    decreases t, 0
  {
    match t
    case List(_, elem) => BackEdge(table, elem.dataType, path + "_item", s)
    case Dictionary(_, value) => BackEdge(table, value, path + "_dict", s)
    case Struct(fields) =>
      var name := TypeName(table, path);
      if name in s.seen then name !in s.composites
      else BackEdgeFields(table, fields, |fields|, path, s.(seen := s.seen + {name}))
    case _ => false
  }

  ghost predicate BackEdgeFields(table: string, fields: seq<Field>, n: nat, path: string, s: State)
    requires n <= |fields|
    decreases fields, n
  {
    n > 0 &&
    (|| BackEdgeFields(table, fields, n - 1, path, s)
     || BackEdge(table, fields[n - 1].dataType, ChildPath(path, fields[n - 1]),
                 CollectFields(table, fields, n - 1, path, s)))
  }

  ghost predicate BackEdgeColumns(table: string, fields: seq<Field>, n: nat)
    requires n <= |fields|
  {
    n > 0 &&
    (|| BackEdgeColumns(table, fields, n - 1)
     || BackEdge(table, fields[n - 1].dataType, fields[n - 1].name, CollectColumns(table, fields, n - 1)))
  }

  /** The structs being compiled: named, but not defined yet. */
  ghost function Active(s: State): set<string> {
    s.seen - s.composites.Keys
  }

  ghost predicate Wf(s: State)
  {
    s.composites.Keys <= s.seen && WellNamed(s.composites)
  }

  ghost predicate Extends(a: map<string, CompositeTypeDef>, b: map<string, CompositeTypeDef>)
  {
    forall n | n in a :: n in b && b[n] == a[n]
  }

  /** Compiling a type only adds definitions, and finishes every struct it starts. */
  lemma {:induction false} CollectGrows(table: string, t: ArrowType, path: string, s: State)
    requires Wf(s)
    ensures var r := Collect(table, t, path, s);
            Wf(r) && Extends(s.composites, r.composites) && Active(r) == Active(s) && s.seen <= r.seen
    decreases t, 0
  {
    match t
    case List(_, elem) => CollectGrows(table, elem.dataType, path + "_item", s);
    case Dictionary(_, value) => CollectGrows(table, value, path + "_dict", s);
    case Struct(fields) =>
      var name := TypeName(table, path);
      if name !in s.seen {
        var s1 := s.(seen := s.seen + {name});
        CollectFieldsGrows(table, fields, |fields|, path, s1);
        assert Active(s1) == Active(s) + {name};
        var inner := CollectFields(table, fields, |fields|, path, s1);
        assert name in Active(inner);
        var r := Collect(table, t, path, s);
        assert Active(r) == Active(inner) - {name};
      }
    case _ =>
  }

  lemma {:induction false} CollectFieldsGrows(table: string, fields: seq<Field>, n: nat, path: string, s: State)
    requires n <= |fields| && Wf(s)
    ensures var r := CollectFields(table, fields, n, path, s);
            Wf(r) && Extends(s.composites, r.composites) && Active(r) == Active(s) && s.seen <= r.seen
    decreases fields, n
  {
    if n > 0 {
      CollectFieldsGrows(table, fields, n - 1, path, s);
      CollectGrows(table, fields[n - 1].dataType, ChildPath(path, fields[n - 1]),
                   CollectFields(table, fields, n - 1, path, s));
    }
  }

  /** The definition compiled for a struct depends on exactly the structs at the core of its fields. */
  lemma {:induction false} DepsOfStruct(table: string, name: string, fields: seq<Field>, path: string)
    ensures var deps := Deps(CompositeTypeDef(name, FieldTypes(table, fields, path)));
            && (forall d | d in deps :: exists i ::
                 (0 <= i < |fields| && CoreIsStruct(fields[i].dataType)
                  && d == CoreName(table, fields[i].dataType, ChildPath(path, fields[i]))))
            && (forall i | 0 <= i < |fields| && CoreIsStruct(fields[i].dataType) ::
                 CoreName(table, fields[i].dataType, ChildPath(path, fields[i])) in deps)
  {
    var def := CompositeTypeDef(name, FieldTypes(table, fields, path));
    forall i | 0 <= i < |fields|
      ensures BaseTypeName(def.fields[i].1) == CoreName(table, fields[i].dataType, ChildPath(path, fields[i]))
      ensures StartsWith(BaseTypeName(def.fields[i].1), LANCE_PREFIX) <==> CoreIsStruct(fields[i].dataType)
    {
      BaseOfTypeString(table, fields[i].dataType, ChildPath(path, fields[i]));
      TypeStringShape(table, fields[i].dataType, ChildPath(path, fields[i]));
    }
  }

  // ----- without such references, the order of completion can be executed -----

  lemma {:induction false} CollectOrdered(table: string, t: ArrowType, path: string, s: State,
                                          w: seq<CompositeTypeDef>)
    returns (listed: seq<CompositeTypeDef>)
    requires Wf(s) && Lists(w, s.composites) && Executable(w)
    requires !BackEdge(table, t, path, s)
    ensures var r := Collect(table, t, path, s);
            && Lists(listed, r.composites) && Executable(listed)
            && (CoreIsStruct(t) ==> CoreName(table, t, path) in r.composites)
    decreases t, 0
  {
    match t
    case List(_, elem) => listed := CollectOrdered(table, elem.dataType, path + "_item", s, w);
    case Dictionary(_, value) => listed := CollectOrdered(table, value, path + "_dict", s, w);
    case Struct(fields) =>
      var name := TypeName(table, path);
      if name in s.seen {
        listed := w;
      } else {
        var s1 := s.(seen := s.seen + {name});
        listed := CollectFieldsOrdered(table, fields, |fields|, path, s1, w);
        CollectFieldsGrows(table, fields, |fields|, path, s1);
        var inner := CollectFields(table, fields, |fields|, path, s1);
        assert name in Active(s1);
        var def := CompositeTypeDef(name, FieldTypes(table, fields, path));
        DepsOfStruct(table, name, fields, path);
        assert Deps(def) <= inner.composites.Keys;
        ListsSnoc(listed, inner.composites, def);
        ExecutableSnoc(listed, def);
        listed := listed + [def];
      }
    case _ => listed := w;
  }

  lemma {:induction false} CollectFieldsOrdered(table: string, fields: seq<Field>, n: nat, path: string, s: State,
                                                w: seq<CompositeTypeDef>)
    returns (listed: seq<CompositeTypeDef>)
    requires n <= |fields| && Wf(s) && Lists(w, s.composites) && Executable(w)
    requires !BackEdgeFields(table, fields, n, path, s)
    ensures var r := CollectFields(table, fields, n, path, s);
            && Lists(listed, r.composites) && Executable(listed)
            && (forall i | 0 <= i < n && CoreIsStruct(fields[i].dataType) ::
                 CoreName(table, fields[i].dataType, ChildPath(path, fields[i])) in r.composites)
    decreases fields, n
  {
    if n == 0 {
      listed := w;
    } else {
      var before := CollectFields(table, fields, n - 1, path, s);
      var w1 := CollectFieldsOrdered(table, fields, n - 1, path, s, w);
      CollectFieldsGrows(table, fields, n - 1, path, s);
      listed := CollectOrdered(table, fields[n - 1].dataType, ChildPath(path, fields[n - 1]), before, w1);
      CollectGrows(table, fields[n - 1].dataType, ChildPath(path, fields[n - 1]), before);
    }
  }

  lemma {:induction false} ListsSnoc(w: seq<CompositeTypeDef>, m: map<string, CompositeTypeDef>, d: CompositeTypeDef)
    requires Lists(w, m) && d.typeName !in m
    ensures Lists(w + [d], m[d.typeName := d])
  {
    NameSetSnoc(w, d);
  }

  // ----- with such a reference, no order can be executed -----

  /** Every type of `x` refers to a type of `x` or of `extra`. */
  ghost predicate Trap(m: map<string, CompositeTypeDef>, x: set<string>, extra: set<string>)
  {
    forall k | k in x :: k in m && Deps(m[k]) * (x + extra) != {}
  }

  lemma {:induction false} TrapIsUnorderable(m: map<string, CompositeTypeDef>, x: set<string>, w: seq<CompositeTypeDef>)
    requires Trap(m, x, {}) && x != {} && Lists(w, m)
    ensures !Executable(w)
  {
    var k :| k in x;
    assert k in NameSet(w);
    if Executable(w) {
      var j :| 0 <= j < |w| && w[j].typeName == k;
      TrapStaysOut(m, x, w, j);
    }
  }

  /** No member of a trap can be the first one that is created. */
  lemma {:induction false} TrapStaysOut(m: map<string, CompositeTypeDef>, x: set<string>, w: seq<CompositeTypeDef>,
                                        j: nat)
    requires Trap(m, x, {}) && Lists(w, m) && Executable(w) && j < |w|
    ensures w[j].typeName !in x
    decreases j
  {
    var def := w[j];
    assert Deps(def) <= NameSet(w[..j]) && m[def.typeName] == def;
    if def.typeName in x {
      var d :| d in Deps(def) && d in x;
      EarlierName(w, j, d);
      var i :| 0 <= i < j && w[i].typeName == d;
      TrapStaysOut(m, x, w, i);
    }
  }

  lemma {:induction false} EarlierName(w: seq<CompositeTypeDef>, j: nat, d: string)
    requires j <= |w| && d in NameSet(w[..j])
    ensures exists i :: 0 <= i < j && w[i].typeName == d
  {
    var i :| 0 <= i < j && w[..j][i].typeName == d;
    assert w[i].typeName == d;
  }

  /** What a back edge inside a type leaves behind: a closed trap, or one that leads to an
      enclosing struct `n` from the core of the type itself. */
  ghost predicate Trapped(m: map<string, CompositeTypeDef>, active: set<string>, core: set<string>,
                          x: set<string>, n: Option<string>)
  {
    match n
    case None => x != {} && Trap(m, x, {})
    case Some(a) => a in active && Trap(m, x, {a}) && core * (x + {a}) != {}
  }

  ghost function StructCore(table: string, t: ArrowType, path: string): set<string> {
    if CoreIsStruct(t) then {CoreName(table, t, path)} else {}
  }

  ghost function FieldCores(table: string, fields: seq<Field>, n: nat, path: string): set<string>
    requires n <= |fields|
  {
    set i | 0 <= i < n && CoreIsStruct(fields[i].dataType)
      :: CoreName(table, fields[i].dataType, ChildPath(path, fields[i]))
  }

  lemma {:induction false} BackEdgeTraps(table: string, t: ArrowType, path: string, s: State)
    returns (x: set<string>, n: Option<string>)
    requires Wf(s) && BackEdge(table, t, path, s)
    ensures Trapped(Collect(table, t, path, s).composites, Active(s), StructCore(table, t, path), x, n)
    decreases t, 0
  {
    match t
    case List(_, elem) => x, n := BackEdgeTraps(table, elem.dataType, path + "_item", s);
    case Dictionary(_, value) => x, n := BackEdgeTraps(table, value, path + "_dict", s);
    case Struct(fields) =>
      var name := TypeName(table, path);
      if name in s.seen {
        x, n := {}, Some(name);
        assert name in StructCore(table, t, path) * (x + {name});
      } else {
        var s1 := s.(seen := s.seen + {name});
        x, n := BackEdgeFieldsTraps(table, fields, |fields|, path, s1);
        CollectFieldsGrows(table, fields, |fields|, path, s1);
        var inner := CollectFields(table, fields, |fields|, path, s1);
        var r := Collect(table, t, path, s);
        assert name in Active(s1);
        assert Extends(inner.composites, r.composites);
        if n.Some? {
          TrapAtStruct(table, fields, path, name, inner.composites, x, n.value);
          x := x + {name};
          if n.value == name {
            n := None;
          } else {
            assert name in StructCore(table, t, path) * (x + {n.value});
          }
        }
      }
  }

  lemma {:induction false} TrapAtStruct(table: string, fields: seq<Field>, path: string, name: string,
                     m: map<string, CompositeTypeDef>, x: set<string>, a: string)
    requires name !in m && Trap(m, x, {a})
    requires FieldCores(table, fields, |fields|, path) * (x + {a}) != {}
    ensures var extended := m[name := CompositeTypeDef(name, FieldTypes(table, fields, path))];
            Trap(extended, x + {name}, if a == name then {} else {a})
  {
    var extended := m[name := CompositeTypeDef(name, FieldTypes(table, fields, path))];
    DepsOfStruct(table, name, fields, path);
    var extra := if a == name then {} else {a};
    assert x + {name} + extra == x + {a} + {name};
    forall k | k in x + {name} ensures k in extended && Deps(extended[k]) * (x + {name} + extra) != {} {
      if k == name {
        var d :| d in FieldCores(table, fields, |fields|, path) * (x + {a});
        assert d in Deps(extended[k]);
      } else {
        var d :| d in Deps(m[k]) * (x + {a});
        assert d in Deps(extended[k]);
      }
    }
  }

  lemma {:induction false} BackEdgeFieldsTraps(table: string, fields: seq<Field>, n: nat, path: string, s: State)
    returns (x: set<string>, a: Option<string>)
    requires n <= |fields| && Wf(s) && BackEdgeFields(table, fields, n, path, s)
    ensures Trapped(CollectFields(table, fields, n, path, s).composites, Active(s),
                    FieldCores(table, fields, n, path), x, a)
    decreases fields, n
  {
    var before := CollectFields(table, fields, n - 1, path, s);
    var f, child := fields[n - 1], ChildPath(path, fields[n - 1]);
    CollectFieldsGrows(table, fields, n - 1, path, s);
    CollectGrows(table, f.dataType, child, before);
    assert FieldCores(table, fields, n, path) ==
           FieldCores(table, fields, n - 1, path) + StructCore(table, f.dataType, child);
    if BackEdgeFields(table, fields, n - 1, path, s) {
      x, a := BackEdgeFieldsTraps(table, fields, n - 1, path, s);
    } else {
      x, a := BackEdgeTraps(table, f.dataType, child, before);
    }
  }

  // ----- the theorem for a whole schema -----

  lemma {:induction false} ColumnsGrow(table: string, fields: seq<Field>, n: nat)
    requires n <= |fields|
    ensures var r := CollectColumns(table, fields, n); Wf(r) && Active(r) == {}
    ensures n > 0 ==> Extends(CollectColumns(table, fields, n - 1).composites,
            CollectColumns(table, fields, n).composites)
    decreases n
  {
    if n > 0 {
      ColumnsGrow(table, fields, n - 1);
      CollectGrows(table, fields[n - 1].dataType, fields[n - 1].name, CollectColumns(table, fields, n - 1));
    }
  }

  lemma {:induction false} ColumnsOrdered(table: string, fields: seq<Field>, n: nat) returns (w: seq<CompositeTypeDef>)
    requires n <= |fields| && !BackEdgeColumns(table, fields, n)
    ensures Lists(w, CollectColumns(table, fields, n).composites) && Executable(w)
    decreases n
  {
    if n == 0 {
      w := [];
    } else {
      w := ColumnsOrdered(table, fields, n - 1);
      ColumnsGrow(table, fields, n - 1);
      w := CollectOrdered(table, fields[n - 1].dataType, fields[n - 1].name, CollectColumns(table, fields, n - 1), w);
    }
  }

  lemma {:induction false} ColumnsTrapped(table: string, fields: seq<Field>, n: nat) returns (x: set<string>)
    requires n <= |fields| && BackEdgeColumns(table, fields, n)
    ensures x != {} && Trap(CollectColumns(table, fields, n).composites, x, {})
    decreases n
  {
    ColumnsGrow(table, fields, n);
    ColumnsGrow(table, fields, n - 1);
    var before := CollectColumns(table, fields, n - 1);
    if BackEdgeColumns(table, fields, n - 1) {
      x := ColumnsTrapped(table, fields, n - 1);
    } else {
      var a;
      x, a := BackEdgeTraps(table, fields[n - 1].dataType, fields[n - 1].name, before);
    }
  }

  /** The composite types of a schema can be created in some order exactly when no struct is
      given the name of a struct that encloses it. */
  lemma {:induction false} SchemaOrderableIff(table: string, fields: seq<Field>)
    ensures Orderable(CollectColumns(table, fields, |fields|).composites) <==>
            !BackEdgeColumns(table, fields, |fields|)
  {
    var m := CollectColumns(table, fields, |fields|).composites;
    if BackEdgeColumns(table, fields, |fields|) {
      var x := ColumnsTrapped(table, fields, |fields|);
      forall w | Lists(w, m) ensures !Executable(w) {
        TrapIsUnorderable(m, x, w);
      }
    } else {
      var w := ColumnsOrdered(table, fields, |fields|);
    }
  }

  // ----- the same condition on name lengths -----

  /** Compiling `t` starts a struct whose name fills the limit and which has a struct at the
      core of a field. */
  ghost predicate Deep(table: string, t: ArrowType, path: string, s: State)
    decreases t, 0
  {
    match t
    case List(_, elem) => Deep(table, elem.dataType, path + "_item", s)
    case Dictionary(_, value) => Deep(table, value, path + "_dict", s)
    case Struct(fields) =>
      var name := TypeName(table, path);
      && name !in s.seen
      && (|| (|FullTypeName(table, path)| >= MAX_TYPE_NAME && HasStructField(fields))
          || DeepFields(table, fields, |fields|, path, s.(seen := s.seen + {name})))
    case _ => false
  }

  ghost predicate DeepFields(table: string, fields: seq<Field>, n: nat, path: string, s: State)
    requires n <= |fields|
    decreases fields, n
  {
    n > 0 &&
    (|| DeepFields(table, fields, n - 1, path, s)
     || Deep(table, fields[n - 1].dataType, ChildPath(path, fields[n - 1]),
             CollectFields(table, fields, n - 1, path, s)))
  }

  ghost predicate DeepColumns(table: string, fields: seq<Field>, n: nat)
    requires n <= |fields|
  {
    n > 0 &&
    (|| DeepColumns(table, fields, n - 1)
     || Deep(table, fields[n - 1].dataType, fields[n - 1].name, CollectColumns(table, fields, n - 1)))
  }

  predicate HasStructField(fields: seq<Field>) {
    exists i :: 0 <= i < |fields| && CoreIsStruct(fields[i].dataType)
  }

  /** The enclosing structs all have shorter, uncut names. */
  ghost predicate ShortActive(table: string, path: string, s: State)
  {
    forall a | a in Active(s) :: |a| < MAX_TYPE_NAME && |a| < |FullTypeName(table, path)|
  }

  lemma {:induction false} ShallowHasNoBackEdge(table: string, t: ArrowType, path: string, s: State)
    requires Wf(s) && !Deep(table, t, path, s)
    requires CoreIsStruct(t) ==> ShortActive(table, path, s)
    ensures !BackEdge(table, t, path, s)
    decreases t, 0
  {
    match t
    case List(_, elem) => ShallowHasNoBackEdge(table, elem.dataType, path + "_item", s);
    case Dictionary(_, value) => ShallowHasNoBackEdge(table, value, path + "_dict", s);
    case Struct(fields) =>
      var name := TypeName(table, path);
      assert name !in Active(s);
      if name !in s.seen {
        var s1 := s.(seen := s.seen + {name});
        assert Active(s1) == Active(s) + {name};
        ShallowFieldsHaveNoBackEdge(table, fields, |fields|, path, s1);
      }
    case _ =>
  }

  lemma {:induction false} ShallowFieldsHaveNoBackEdge(table: string, fields: seq<Field>, n: nat, path: string,
                                                       s: State)
    requires n <= |fields| && Wf(s) && !DeepFields(table, fields, n, path, s)
    requires HasStructField(fields) ==>
               forall a | a in Active(s) :: |a| < MAX_TYPE_NAME && |a| <= |FullTypeName(table, path)|
    ensures !BackEdgeFields(table, fields, n, path, s)
    decreases fields, n
  {
    if n > 0 {
      ShallowFieldsHaveNoBackEdge(table, fields, n - 1, path, s);
      CollectFieldsGrows(table, fields, n - 1, path, s);
      var child := ChildPath(path, fields[n - 1]);
      DeeperNameDiffers(table, path, child);
      ShallowHasNoBackEdge(table, fields[n - 1].dataType, child, CollectFields(table, fields, n - 1, path, s));
    }
  }

  lemma {:induction false} DeepHasBackEdge(table: string, t: ArrowType, path: string, s: State)
    requires Wf(s) && Deep(table, t, path, s)
    ensures BackEdge(table, t, path, s)
    decreases t, 0
  {
    match t
    case List(_, elem) => DeepHasBackEdge(table, elem.dataType, path + "_item", s);
    case Dictionary(_, value) => DeepHasBackEdge(table, value, path + "_dict", s);
    case Struct(fields) =>
      var name := TypeName(table, path);
      var s1 := s.(seen := s.seen + {name});
      if DeepFields(table, fields, |fields|, path, s1) {
        DeepFieldsHaveBackEdge(table, fields, |fields|, path, s1);
      } else {
        var i :| 0 <= i < |fields| && CoreIsStruct(fields[i].dataType);
        CutFieldHasBackEdge(table, fields, i, |fields|, path, s1);
      }
  }

  lemma {:induction false} DeepFieldsHaveBackEdge(table: string, fields: seq<Field>, n: nat, path: string, s: State)
    requires n <= |fields| && Wf(s) && DeepFields(table, fields, n, path, s)
    ensures BackEdgeFields(table, fields, n, path, s)
    decreases fields, n
  {
    if DeepFields(table, fields, n - 1, path, s) {
      DeepFieldsHaveBackEdge(table, fields, n - 1, path, s);
    } else {
      CollectFieldsGrows(table, fields, n - 1, path, s);
      DeepHasBackEdge(table, fields[n - 1].dataType, ChildPath(path, fields[n - 1]),
                      CollectFields(table, fields, n - 1, path, s));
    }
  }

  /** A struct-valued field of a struct whose name fills the limit gets that very name. */
  lemma {:induction false} CutFieldHasBackEdge(table: string, fields: seq<Field>, i: nat, n: nat, path: string,
                                               s: State)
    requires i < n <= |fields| && CoreIsStruct(fields[i].dataType)
    requires Wf(s) && TypeName(table, path) in Active(s) && |FullTypeName(table, path)| >= MAX_TYPE_NAME
    ensures BackEdgeFields(table, fields, n, path, s)
    decreases n
  {
    if i < n - 1 {
      CutFieldHasBackEdge(table, fields, i, n - 1, path, s);
    } else {
      CollectFieldsGrows(table, fields, i, path, s);
      CutCoreHasBackEdge(table, fields[i].dataType, path, "_" + fields[i].name,
                         CollectFields(table, fields, i, path, s));
      assert path + ("_" + fields[i].name) == ChildPath(path, fields[i]);
    }
  }

  lemma {:induction false} CutCoreHasBackEdge(table: string, t: ArrowType, path: string, suffix: string, s: State)
    requires CoreIsStruct(t) && Wf(s)
    requires TypeName(table, path) in Active(s) && |FullTypeName(table, path)| >= MAX_TYPE_NAME
    ensures BackEdge(table, t, path + suffix, s)
    decreases t
  {
    match t
    case List(_, elem) =>
      CutCoreHasBackEdge(table, elem.dataType, path, suffix + "_item", s);
      assert path + suffix + "_item" == path + (suffix + "_item");
    case Dictionary(_, value) =>
      CutCoreHasBackEdge(table, value, path, suffix + "_dict", s);
      assert path + suffix + "_dict" == path + (suffix + "_dict");
    case Struct(_) =>
      CutNamesCollide(table, path, suffix);
  }

  lemma {:induction false} BackEdgeColumnsIff(table: string, fields: seq<Field>, n: nat)
    requires n <= |fields|
    ensures BackEdgeColumns(table, fields, n) <==> DeepColumns(table, fields, n)
    decreases n
  {
    if n > 0 {
      BackEdgeColumnsIff(table, fields, n - 1);
      ColumnsGrow(table, fields, n - 1);
      var t, path, s := fields[n - 1].dataType, fields[n - 1].name, CollectColumns(table, fields, n - 1);
      if Deep(table, t, path, s) {
        DeepHasBackEdge(table, t, path, s);
      } else {
        ShallowHasNoBackEdge(table, t, path, s);
      }
    }
  }

  /** A column whose generated type name fills the limit, with a struct inside: no order works. */
  lemma {:induction false} LongNameIsUnorderable(table: string)
    requires |table| >= MAX_TYPE_NAME - 8
    ensures var fields := [Field("a", Struct([Field("b", Struct([]))]))];
            && DeepColumns(table, fields, 1)
            && !Orderable(CollectColumns(table, fields, 1).composites)
  {
    var fields := [Field("a", Struct([Field("b", Struct([]))]))];
    assert |FullTypeName(table, "a")| == |table| + 8;
    assert CoreIsStruct(fields[0].dataType.fields[0].dataType);
    assert CollectColumns(table, fields, 0).seen == {};
    assert Deep(table, fields[0].dataType, "a", CollectColumns(table, fields, 0));
    BackEdgeColumnsIff(table, fields, 1);
    SchemaOrderableIff(table, fields);
  }

  /** The definitions that `build_schema_mapping` hands over, by name again. */
  lemma {:induction false} ByNameOfValues(m: map<string, CompositeTypeDef>)
    requires WellNamed(m)
    ensures ByName(ValuesInOrder(m)) == m
  {
    var keys := SortedStrings(m.Keys);
    var defs := ValuesInOrder(m);
    ByNameOfPrefix(m, keys, defs, |keys|);
    assert defs[..|keys|] == defs;
  }

  lemma {:induction false} ByNameOfPrefix(m: map<string, CompositeTypeDef>, keys: seq<string>,
                                          defs: seq<CompositeTypeDef>, n: nat)
    requires WellNamed(m) && n <= |keys| == |defs|
    requires forall i | 0 <= i < |keys| :: keys[i] in m && defs[i] == m[keys[i]]
    ensures ByName(defs[..n]) == map k | k in m && k in keys[..n] :: m[k]
    decreases n
  {
    if n > 0 {
      ByNameOfPrefix(m, keys, defs, n - 1);
      assert defs[..n][..n - 1] == defs[..n - 1];
      assert keys[..n] == keys[..n - 1] + [keys[n - 1]];
    }
  }

  /** Compile a schema and order its composite types: the result can be created from front to
      back exactly when no compiled struct with a generated name of 60 bytes or more, before
      the cut, has a struct at the core of one of its fields. */
  method OrderSchemaTypes(table: string, fields: seq<Field>) returns (out: seq<CompositeTypeDef>)
    ensures Lists(out, CollectColumns(table, fields, |fields|).composites)
    ensures Executable(out) <==> !DeepColumns(table, fields, |fields|)
  {
    var mapping := BuildSchemaMapping(table, fields);
    ghost var resolved;
    out, resolved := OrderCompositeTypes(mapping.compositeTypes);
    ghost var m := CollectColumns(table, fields, |fields|).composites;
    ColumnsGrow(table, fields, |fields|);
    ByNameOfValues(m);
    SchemaOrderableIff(table, fields);
    BackEdgeColumnsIff(table, fields, |fields|);
    assert out[..|out|] == out;
    assert Executable(out) ==> Orderable(m);
  }
}
