/** Ordering composite type definitions so that they can be created (src/fdw/ddl.rs:11-68). */
module DdlOrder {
  import opened Ordered
  import opened Text
  import opened TypeMapping

  // ----- base_type_name -----

  /** A type string without array suffixes and surrounding space. */
  function BaseTypeName(ty: string): string {
    Suffixes(Trim(ty)).0
  }

  method BaseTypeNameOf(ty: string) returns (t: string)
    ensures t == BaseTypeName(ty)
  {
    t := Trim(ty);
    while EndsWith(t, "[]")
      invariant Suffixes(t).0 == BaseTypeName(ty)
      decreases |t|
    {
      t := TrimEnd(t[..|t| - 2]);
    }
  }

  // ----- order_composite_types -----

  const LANCE_PREFIX := "lance_"

  /** The composite types a definition refers to. */
  function Deps(def: CompositeTypeDef): set<string> {
    set i | 0 <= i < |def.fields| && StartsWith(BaseTypeName(def.fields[i].1), LANCE_PREFIX)
      :: BaseTypeName(def.fields[i].1)
  }

  function NameSet(defs: seq<CompositeTypeDef>): set<string> {
    set i | 0 <= i < |defs| :: defs[i].typeName
  }

  /** Definitions by name; a later definition replaces an earlier one. */
  function ByName(types: seq<CompositeTypeDef>): map<string, CompositeTypeDef>
    decreases |types|
  {
    if types == [] then map[]
    else ByName(types[..|types| - 1])[types[|types| - 1].typeName := types[|types| - 1]]
  }

  /** Of several definitions of a name the last one counts. */
  lemma {:induction false} ByNameIsLast(types: seq<CompositeTypeDef>, name: string)
    ensures name in ByName(types) <==> exists i :: 0 <= i < |types| && types[i].typeName == name
    ensures forall i | 0 <= i < |types| && types[i].typeName == name &&
                       (forall j | i < j < |types| :: types[j].typeName != name) ::
              name in ByName(types) && ByName(types)[name] == types[i]
    decreases |types|
  {
    if types != [] {
      var front, last := types[..|types| - 1], types[|types| - 1];
      ByNameIsLast(front, name);
      if last.typeName != name {
        forall i | 0 <= i < |types| && types[i].typeName == name &&
                   (forall j | i < j < |types| :: types[j].typeName != name)
          ensures name in ByName(types) && ByName(types)[name] == types[i]
        {
          assert front[i] == types[i];
        }
        if i :| 0 <= i < |front| && front[i].typeName == name {
          assert types[i].typeName == name;
        }
      }
    }
  }

  /** Every definition comes after all types it refers to. */
  ghost predicate Executable(defs: seq<CompositeTypeDef>)
  {
    forall i | 0 <= i < |defs| :: Deps(defs[i]) <= NameSet(defs[..i])
  }

  /** `defs` lists the definitions of `m`, each exactly once. */
  ghost predicate Lists(defs: seq<CompositeTypeDef>, m: map<string, CompositeTypeDef>)
  {
    && (forall i, j | 0 <= i < j < |defs| :: defs[i].typeName != defs[j].typeName)
    && (forall i | 0 <= i < |defs| :: defs[i].typeName in m && m[defs[i].typeName] == defs[i])
    && NameSet(defs) == m.Keys
  }

  /** Like `Lists`, for a part of the definitions. */
  ghost predicate Sublists(defs: seq<CompositeTypeDef>, m: map<string, CompositeTypeDef>)
  {
    && (forall i, j | 0 <= i < j < |defs| :: defs[i].typeName != defs[j].typeName)
    && (forall i | 0 <= i < |defs| :: defs[i].typeName in m && m[defs[i].typeName] == defs[i])
  }

  ghost predicate WellNamed(m: map<string, CompositeTypeDef>)
  {
    forall n | n in m :: m[n].typeName == n
  }

  /** No definition outside `done` has all its dependencies inside. */
  ghost predicate Stuck(m: map<string, CompositeTypeDef>, done: set<string>)
  {
    forall n | n in m && n !in done :: !(Deps(m[n]) <= done)
  }

  lemma {:induction false} NameSetSnoc(defs: seq<CompositeTypeDef>, d: CompositeTypeDef)
    ensures NameSet(defs + [d]) == NameSet(defs) + {d.typeName}
  {
    var e := defs + [d];
    assert e[|defs|] == d;
    assert forall i | 0 <= i < |defs| :: e[i] == defs[i];
  }

  lemma {:induction false} ExecutableSnoc(defs: seq<CompositeTypeDef>, d: CompositeTypeDef)
    requires Executable(defs) && Deps(d) <= NameSet(defs)
    ensures Executable(defs + [d])
  {
    var e := defs + [d];
    forall i | 0 <= i < |e| ensures Deps(e[i]) <= NameSet(e[..i]) {
      if i < |defs| {
        assert e[..i] == defs[..i];
      } else {
        assert e[..i] == defs;
      }
    }
  }

  lemma {:induction false} SublistsSnoc(defs: seq<CompositeTypeDef>, m: map<string, CompositeTypeDef>, n: string)
    requires Sublists(defs, m) && WellNamed(m) && n in m && n !in NameSet(defs)
    ensures Sublists(defs + [m[n]], m)
    ensures NameSet(defs + [m[n]]) == NameSet(defs) + {n}
  {
    NameSetSnoc(defs, m[n]);
    assert forall k | 0 <= k < |defs| :: defs[k].typeName in NameSet(defs);
  }

  /** The emitted definitions and their names, as the loop tracks them. */
  ghost predicate Emitting(out: seq<CompositeTypeDef>, emitted: set<string>, m: map<string, CompositeTypeDef>)
  {
    Sublists(out, m) && Executable(out) && emitted == NameSet(out)
  }

  lemma {:induction false} EmitOne(out: seq<CompositeTypeDef>, emitted: set<string>, m: map<string, CompositeTypeDef>,
                                   n: string)
    requires Emitting(out, emitted, m) && WellNamed(m) && n in m && n !in emitted && Deps(m[n]) <= emitted
    ensures Emitting(out + [m[n]], emitted + {n}, m)
  {
    ExecutableSnoc(out, m[n]);
    SublistsSnoc(out, m, n);
  }

  lemma {:induction false} NamesBounded(defs: seq<CompositeTypeDef>, m: map<string, CompositeTypeDef>)
    requires Sublists(defs, m)
    ensures |NameSet(defs)| == |defs| <= |m|
    decreases |defs|
  {
    if defs != [] {
      var p, d := defs[..|defs| - 1], defs[|defs| - 1];
      assert defs == p + [d];
      NamesBounded(p, m);
      NameSetSnoc(p, d);
    }
    assert NameSet(defs) <= m.Keys;
    CardinalityMonotone(NameSet(defs), m.Keys);
    assert |m.Keys| == |m|;
  }

  lemma {:induction false} CardinalityMonotone<T>(a: set<T>, b: set<T>)
    requires a <= b
    ensures |a| <= |b|
    ensures |a| == |b| ==> a == b
  {
    assert b == a + (b - a);
  }

  /** Some order of the definitions can be executed. */
  ghost predicate Orderable(m: map<string, CompositeTypeDef>)
  {
    exists w :: Lists(w, m) && Executable(w)
  }

  /** If the loop is stuck before all definitions are emitted, no order can be executed. */
  lemma {:induction false} StuckEarlyIsUnorderable(m: map<string, CompositeTypeDef>, done: set<string>, n: string,
                                w: seq<CompositeTypeDef>)
    requires Stuck(m, done) && n in m && n !in done
    requires Lists(w, m)
    ensures !Executable(w)
  {
    if Executable(w) {
      assert n in NameSet(w);
      var j :| 0 <= j < |w| && w[j].typeName == n;
      FirstOutside(w, done, j, m);
    }
  }

  lemma {:induction false} FirstOutside(w: seq<CompositeTypeDef>, done: set<string>, j: nat,
                                        m: map<string, CompositeTypeDef>)
    requires Lists(w, m) && Executable(w) && Stuck(m, done)
    requires j < |w| && w[j].typeName !in done
    ensures false
    decreases j
  {
    if i :| 0 <= i < j && w[i].typeName !in done {
      FirstOutside(w, done, i, m);
    }
  }

  method OrderCompositeTypes(types: seq<CompositeTypeDef>)
    returns (out: seq<CompositeTypeDef>, ghost resolved: nat)
    ensures Lists(out, ByName(types))
    ensures resolved <= |out|
    ensures Executable(out[..resolved])
    ensures Stuck(ByName(types), NameSet(out[..resolved]))
    ensures resolved == |out| <==> Orderable(ByName(types))
    ensures AscendsFrom(out, resolved)
  {
    var byName := CollectByName(types);
    var keys := SortedStrings(byName.Keys);
    SortedStringsAscend(byName.Keys);
    var emitted;
    out, emitted := EmitResolvable(byName, keys);
    resolved := |out|;
    ghost var done := out;
    out := AppendLeftover(byName, keys, out, emitted);
    assert out[..resolved] == done;
    if resolved == |out| {
      assert out == done;
    } else {
      forall w | Lists(w, byName) ensures !Executable(w) {
        StuckEarlyIsUnorderable(byName, emitted, out[resolved].typeName, w);
      }
    }
  }

  /** The main loop: passes over the definitions until one emits nothing new. */
  method EmitResolvable(byName: map<string, CompositeTypeDef>, keys: seq<string>)
    returns (out: seq<CompositeTypeDef>, emitted: set<string>)
    requires WellNamed(byName) && Distinct(keys) && (forall k :: k in keys <==> k in byName)
    ensures Emitting(out, emitted, byName) && Stuck(byName, emitted)
  {
    emitted, out := {}, [];
    while true
      invariant Emitting(out, emitted, byName)
      decreases |byName| - |out|
    {
      var progressed;
      out, emitted, progressed := Round(byName, keys, out, emitted);
      NamesBounded(out, byName);
      if !progressed {
        break;
      }
      if |out| == |byName| {
        CardinalityMonotone(emitted, byName.Keys);
        assert |byName.Keys| == |byName|;
        break;
      }
    }
  }

  /** The definitions from `n` on are in the order of their names. */
  ghost predicate AscendsFrom(out: seq<CompositeTypeDef>, n: nat)
  {
    forall i, j | n <= i < j < |out| :: Precedes(out[i].typeName, out[j].typeName)
  }

  lemma {:induction false} OneMoreLeft(out: seq<CompositeTypeDef>, n: nat, keys: seq<string>, i: nat,
                                       d: CompositeTypeDef)
    requires i < |keys| && (forall a, b | 0 <= a < b < |keys| :: Precedes(keys[a], keys[b]))
    requires n <= |out| && AscendsFrom(out, n) && d.typeName == keys[i]
    requires forall k | n <= k < |out| :: out[k].typeName in keys[..i]
    ensures AscendsFrom(out + [d], n)
    ensures forall k | n <= k < |out + [d]| :: (out + [d])[k].typeName in keys[..i + 1]
  {
    assert keys[..i + 1][i] == keys[i];
    forall k | n <= k < |out| ensures Precedes(out[k].typeName, keys[i]) && out[k].typeName in keys[..i + 1] {
      var a :| 0 <= a < |keys[..i]| && keys[..i][a] == out[k].typeName;
      assert keys[..i + 1][a] == out[k].typeName;
    }
  }

  /** The fallback: whatever was not emitted, in name order. */
  method AppendLeftover(byName: map<string, CompositeTypeDef>, keys: seq<string>,
                        out0: seq<CompositeTypeDef>, emitted: set<string>)
    returns (out: seq<CompositeTypeDef>)
    requires WellNamed(byName) && Distinct(keys) && (forall k :: k in keys <==> k in byName)
    requires forall a, b | 0 <= a < b < |keys| :: Precedes(keys[a], keys[b])
    requires Sublists(out0, byName) && emitted == NameSet(out0)
    ensures Lists(out, byName) && out0 <= out && AscendsFrom(out, |out0|)
  {
    out := out0;
    for i := 0 to |keys|
      invariant Sublists(out, byName) && out0 <= out && AscendsFrom(out, |out0|)
      invariant NameSet(out) == emitted + set k | 0 <= k < i :: keys[k]
      invariant forall k | |out0| <= k < |out| :: out[k].typeName in keys[..i]
    {
      assert forall n | n in keys[..i] :: n in keys[..i + 1];
      if keys[i] !in emitted {
        OneMoreLeft(out, |out0|, keys, i, byName[keys[i]]);
        SublistsSnoc(out, byName, keys[i]);
        out := out + [byName[keys[i]]];
      }
    }
    assert emitted <= byName.Keys;
    assert NameSet(out) == byName.Keys;
  }

  method CollectByName(types: seq<CompositeTypeDef>) returns (byName: map<string, CompositeTypeDef>)
    ensures byName == ByName(types) && WellNamed(byName)
  {
    byName := map[];
    for i := 0 to |types|
      invariant byName == ByName(types[..i]) && WellNamed(byName)
    {
      assert types[..i + 1][..i] == types[..i];
      byName := byName[types[i].typeName := types[i]];
    }
    assert types[..|types|] == types;
  }

  /** One pass of the emitting loop over all definitions in name order. */
  method Round(byName: map<string, CompositeTypeDef>, keys: seq<string>,
               out0: seq<CompositeTypeDef>, emitted0: set<string>)
    returns (out: seq<CompositeTypeDef>, emitted: set<string>, progressed: bool)
    requires Distinct(keys) && (forall k :: k in keys <==> k in byName)
    requires WellNamed(byName) && Emitting(out0, emitted0, byName)
    ensures Emitting(out, emitted, byName)
    ensures if progressed then |out| > |out0| else out == out0 && Stuck(byName, emitted)
  {
    out, emitted, progressed := out0, emitted0, false;
    for i := 0 to |keys|
      invariant Emitting(out, emitted, byName)
      invariant if progressed then |out| > |out0| else out == out0
      invariant !progressed ==> forall k | 0 <= k < i && keys[k] !in emitted :: !(Deps(byName[keys[k]]) <= emitted)
    {
      var name := keys[i];
      if name in emitted {
        continue;
      }
      if Deps(byName[name]) <= emitted {
        EmitOne(out, emitted, byName, name);
        out := out + [byName[name]];
        emitted := emitted + {name};
        progressed := true;
      }
    }
  }
}
