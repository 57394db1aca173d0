/** When a freshly attached table shows no drift (src/fdw/sync_namespace.rs:423-507). */
module Drift {
  import opened Wrappers
  import opened Text
  import opened Words
  import opened Arrow
  import opened TypeMapping
  import opened SchemaOrder
  import opened Convert
  import opened Declared
  import opened Canonical

  // ----- PostgreSQL's display of a type -----

  function DisplayName(b: PgBase): string {
    match b
    case PgBool => "boolean"
    case PgInt2 => "smallint"
    case PgInt4 => "integer"
    case PgInt8 => "bigint"
    case PgFloat4 => "real"
    case PgFloat8 => "double precision"
    case PgText => "text"
    case PgBytea => "bytea"
    case PgDate => "date"
    case PgTimestamp => "timestamp without time zone"
    case PgTimestampTz => "timestamp with time zone"
    case PgNumeric => "numeric"
    case PgJsonb => "jsonb"
    case PgOtherBase(_) => "other"
  }

  /** How composite names are shown: with their schema unless it is on the search path, and
      with quotes where PostgreSQL finds them necessary. */
  datatype Style = Style(schema: Option<string>, quoteSchema: bool, quoteName: bool)

  function MaybeQuoted(quote: bool, s: string): string {
    if quote then "\"" + s + "\"" else s
  }

  function ShownName(name: string, style: Style): string {
    (if style.schema.Some? then MaybeQuoted(style.quoteSchema, style.schema.value) + "." else "")
    + MaybeQuoted(style.quoteName, name)
  }

  /** `format_type` for the types the model declares. */
  function Displayed(t: PgType, style: Style): string {
    match t
    case Base(b) => DisplayName(b)
    case ArrayOf(elem) => Displayed(elem, style) + "[]"
    case Composite(name, _) => ShownName(name, style)
  }

  ghost predicate UsableStyle(style: Style)
  {
    style.schema.Some? ==> IsWord(style.schema.value)
  }

  /** The declared type of a list is shown with one array suffix, however deep it nests. */
  lemma {:induction false} DisplayedShape(table: string, t: ArrowType, path: string, style: Style)
    ensures var d := DeclaredType(table, t, path);
            && (d.ArrayOf? <==> ListDepth(t) > 0)
            && var core := if d.ArrayOf? then d.elem else d;
               !core.ArrayOf? &&
                 Displayed(d, style) == Displayed(core, style) + Repeat("[]", if d.ArrayOf? then 1 else 0)
    decreases t
  {
    match t
    case List(_, elem) =>
      DisplayedShape(table, elem.dataType, path + "_item", style);
      assert Repeat("[]", 1) == "[]";
    case Dictionary(_, value) => DisplayedShape(table, value, path + "_dict", style);
    case _ =>
  }

  /** The innermost declared type of `t`. */
  function CoreType(table: string, t: ArrowType, path: string): PgType
    decreases t
  {
    match t
    case List(_, elem) => CoreType(table, elem.dataType, path + "_item")
    case Dictionary(_, value) => CoreType(table, value, path + "_dict")
    case _ => DeclaredType(table, t, path)
  }

  lemma {:induction false} CoreOfDeclared(table: string, t: ArrowType, path: string)
    ensures var d := DeclaredType(table, t, path);
            CoreType(table, t, path) == if d.ArrayOf? then d.elem else d
    ensures !CoreType(table, t, path).ArrayOf?
    decreases t
  {
    match t
    case List(_, elem) => CoreOfDeclared(table, elem.dataType, path + "_item");
    case Dictionary(_, value) => CoreOfDeclared(table, value, path + "_dict");
    case _ =>
  }

  // ----- canonical forms of displayed types -----

  lemma {:induction false} SpacedIsAtom(a: string, w: string)
    requires Atom(a) && a != "" && IsWord(w)
    ensures Atom(a + " " + w)
  {
    WordIsAtom(w);
    var s := a + " " + w;
    assert forall i | 0 <= i < |s| :: s[i] == if i < |a| then a[i] else if i == |a| then ' ' else w[i - |a| - 1];
    assert s[|s| - 2..][1] == s[|s| - 1];
    assert IsSpace(' ') && Quiet(' ');
  }

  lemma {:induction false} DoubleIsAtom()
    ensures Atom("double precision")
  {
    WordIsAtom("double");
    SpacedIsAtom("double", "precision");
    assert "double" + " " + "precision" == "double precision";
  }

  lemma {:induction false} WithoutTimeZoneIsAtom()
    ensures Atom("timestamp without time zone")
  {
    var s := "timestamp" + " " + "without" + " " + "time" + " " + "zone";
    assert Atom(s) by {
      TimeZoneIsAtom("without");
    }
    assert s == "timestamp without time zone";
  }

  lemma {:induction false} WithTimeZoneIsAtom()
    ensures Atom("timestamp with time zone")
  {
    var s := "timestamp" + " " + "with" + " " + "time" + " " + "zone";
    assert Atom(s) by {
      TimeZoneIsAtom("with");
    }
    assert s == "timestamp with time zone";
  }

  lemma {:induction false} TimeZoneIsAtom(w: string)
    requires IsWord(w)
    ensures Atom("timestamp" + " " + w + " " + "time" + " " + "zone")
  {
    WordIsAtom("timestamp");
    SpacedIsAtom("timestamp", w);
    SpacedIsAtom("timestamp" + " " + w, "time");
    SpacedIsAtom("timestamp" + " " + w + " " + "time", "zone");
  }

  lemma {:induction false} DisplayIsAtom(p: Primitive)
    ensures Atom(DisplayName(RequiredBase(p)))
  {
    match RequiredBase(p)
    case PgFloat8 => DoubleIsAtom();
    case PgTimestamp => WithoutTimeZoneIsAtom();
    case PgTimestampTz => WithTimeZoneIsAtom();
    case _ => WordIsAtom(DisplayName(RequiredBase(p)));
  }

  /** The declared name that a display name is an alias of. */
  function AliasTargetName(b: PgBase): string {
    match b
    case PgInt2 => "int2"
    case PgInt4 => "int4"
    case PgInt8 => "int8"
    case PgFloat4 => "float4"
    case PgFloat8 => "float8"
    case PgTimestamp => "timestamp"
    case PgTimestampTz => "timestamptz"
    case _ => DisplayName(b)
  }

  lemma {:induction false} AliasOfBase(b: PgBase)
    ensures Alias(DisplayName(b)) == AliasTargetName(b)
  {
    assert "other"[0] == 'o';
  }

  /** The aliases are the display names of builtin types that differ from the declared names, and no others. */
  lemma {:induction false} AliasesAre(name: string, target: string)
    requires name != target
    ensures Alias(name) == target <==> exists b :: DisplayName(b) == name && AliasTargetName(b) == target
  {
    forall b ensures Alias(DisplayName(b)) == AliasTargetName(b) {
      AliasOfBase(b);
    }
    if Alias(name) == target {
      var b := if name == "smallint" then PgInt2 else if name == "integer" then PgInt4
               else if name == "bigint" then PgInt8 else if name == "real" then PgFloat4
               else if name == "double precision" then PgFloat8
               else if name == "timestamp without time zone" then PgTimestamp else PgTimestampTz;
      assert DisplayName(b) == name;
    }
  }

  lemma {:induction false} AliasTargetIsFixed(b: PgBase)
    ensures Alias(AliasTargetName(b)) == AliasTargetName(b)
  {
    match b
    case PgInt2 | PgInt4 | PgInt8 | PgFloat4 | PgFloat8 | PgTimestamp | PgTimestampTz => AliasFixed(AliasTargetName(b));
    case _ => AliasOfBase(b);
  }

  /** The display name of a scalar type is an alias of its declared name. */
  lemma {:induction false} AliasOfDisplay(p: Primitive)
    ensures Alias(DisplayName(RequiredBase(p))) == ScalarTypeName(p)
    ensures Alias(ScalarTypeName(p)) == ScalarTypeName(p)
  {
    AliasOfBase(RequiredBase(p));
    AliasTargetIsFixed(RequiredBase(p));
    assert ScalarTypeName(p) == AliasTargetName(RequiredBase(p));
  }

  lemma {:induction false} RemoveQuotesConcat(a: string, b: string)
    ensures RemoveQuotes(a + b) == RemoveQuotes(a) + RemoveQuotes(b)
    decreases |a|
  {
    if a == "" {
      assert a + b == b;
    } else {
      RemoveQuotesConcat(a[1..], b);
      assert (a + b)[1..] == a[1..] + b;
    }
  }

  lemma {:induction false} RemoveQuotesWord(quote: bool, w: string)
    requires IsWord(w)
    ensures RemoveQuotes(MaybeQuoted(quote, w)) == w
  {
    LowerQuiet(w);
    RemoveQuotesConcat("\"", w);
    RemoveQuotesConcat("\"" + w, "\"");
  }

  /** Text of words, dots, brackets and quotes only. */
  ghost predicate Compact(s: string)
  {
    forall i | 0 <= i < |s| :: NonSpace(s[i]) && Naming.ToLower(s[i]) == s[i]
  }

  lemma {:induction false} CompactNormalizes(s: string)
    requires Compact(s)
    ensures Settled(RemoveQuotes(s)) && Normalized(s) == RemoveQuotes(s)
  {
    CompactWithoutQuotes(s);
    var u := RemoveQuotes(s);
    assert Trim(s) == s;
    assert Naming.Lower(s) == s;
    SqueezeTidy(u, NonSpace, ' ');
  }

  lemma {:induction false} CompactWithoutQuotes(s: string)
    requires Compact(s)
    ensures forall i | 0 <= i < |RemoveQuotes(s)| :: NonSpace(RemoveQuotes(s)[i]) && Quiet(RemoveQuotes(s)[i])
    ensures Settled(RemoveQuotes(s))
  {
    if s != "" {
      CompactWithoutQuotes(s[1..]);
    }
  }

  function Qualifier(style: Style): string {
    if style.schema.Some? then style.schema.value + "." else ""
  }

  lemma {:induction false} NormalizedName(name: string, style: Style, n: nat)
    requires IsWord(name) && UsableStyle(style)
    ensures Normalized(ShownName(name, style) + Repeat("[]", n)) == Qualifier(style) + name + Repeat("[]", n)
  {
    var shown, dims := ShownName(name, style), Repeat("[]", n);
    ShownIsCompact(name, style, n);
    CompactNormalizes(shown + dims);
    ShownWithoutQuotes(name, style);
    RemoveQuotesConcat(shown, dims);
    DimsWithoutQuotes(n);
  }

  lemma {:induction false} CanonicalOfName(name: string, style: Style, n: nat)
    requires IsWord(name) && UsableStyle(style)
    ensures CanonicalType(ShownName(name, style) + Repeat("[]", n)) == Alias(name) + Repeat("[]", n)
  {
    var p := Qualifier(style);
    NormalizedName(name, style, n);
    QualifiedIsTrunk(p, name);
    SuffixesOfTrunk(p + name, n);
    WordIsAtom(name);
    LastPartOfQualified(p, name);
    TrimSettled(name);
  }

  lemma {:induction false} DimsWithoutQuotes(n: nat)
    ensures RemoveQuotes(Repeat("[]", n)) == Repeat("[]", n)
    ensures Compact(Repeat("[]", n))
  {
    if n > 0 {
      DimsWithoutQuotes(n - 1);
      RemoveQuotesConcat(Repeat("[]", n - 1), "[]");
      assert RemoveQuotes("[]") == "[]" by {
        LowerQuiet("[]");
      }
    }
  }

  lemma {:induction false} ShownIsCompact(name: string, style: Style, n: nat)
    requires IsWord(name) && UsableStyle(style)
    ensures Compact(ShownName(name, style) + Repeat("[]", n))
  {
    DimsWithoutQuotes(n);
    assert Compact(MaybeQuoted(style.quoteName, name));
    if style.schema.Some? {
      assert Compact(MaybeQuoted(style.quoteSchema, style.schema.value));
    }
  }

  lemma {:induction false} ShownWithoutQuotes(name: string, style: Style)
    requires IsWord(name) && UsableStyle(style)
    ensures RemoveQuotes(ShownName(name, style)) == Qualifier(style) + name
  {
    RemoveQuotesWord(style.quoteName, name);
    if style.schema.Some? {
      var s := MaybeQuoted(style.quoteSchema, style.schema.value);
      RemoveQuotesWord(style.quoteSchema, style.schema.value);
      RemoveQuotesConcat(s, ".");
      assert RemoveQuotes(".") == ".";
      RemoveQuotesConcat(s + ".", MaybeQuoted(style.quoteName, name));
    } else {
      assert "" + MaybeQuoted(style.quoteName, name) == MaybeQuoted(style.quoteName, name);
    }
  }

  lemma {:induction false} QualifiedIsTrunk(p: string, name: string)
    requires IsWord(name)
    requires p == "" || (p[|p| - 1] == '.' && forall i | 0 <= i < |p| :: NonSpace(p[i]) && Quiet(p[i]))
    ensures Trunk(p + name)
  {
    var s := p + name;
    WordIsAtom(name);
    assert s[|s| - 1] == name[|name| - 1];
    assert |s| >= 2 ==> s[|s| - 2..][1] == s[|s| - 1];
    forall i | 0 <= i < |s| ensures NonSpace(s[i]) && Quiet(s[i]) {
      if i >= |p| {
        assert s[i] == name[i - |p|];
      }
    }
  }

  lemma {:induction false} LastPartOfQualified(p: string, name: string)
    requires p == "" || p[|p| - 1] == '.'
    requires forall i | 0 <= i < |name| :: name[i] != '.'
    ensures LastPart(p + name) == name
    decreases |name|
  {
    if name == "" {
      assert p + name == p;
    } else {
      LastPartOfQualified(p, name[..|name| - 1]);
      assert (p + name)[..|p + name| - 1] == p + name[..|name| - 1];
    }
  }

  /** With `n` array suffixes, `name` is the canonical form of what is shown and of itself. */
  ghost predicate BothCanonical(shown: string, name: string, n: nat)
  {
    && CanonicalType(shown + Repeat("[]", n)) == name + Repeat("[]", n)
    && CanonicalType(name + Repeat("[]", n)) == name + Repeat("[]", n)
  }

  lemma {:induction false} InnermostCore(table: string, t: ArrowType, path: string)
    ensures var i := Innermost(t, path);
            && !i.0.List? && !i.0.Dictionary?
            && CoreType(table, t, path) == DeclaredType(table, i.0, i.1)
            && CoreName(table, t, path) == CoreName(table, i.0, i.1)
    decreases t
  {
    match t
    case List(_, elem) => InnermostCore(table, elem.dataType, path + "_item");
    case Dictionary(_, value) => InnermostCore(table, value, path + "_dict");
    case _ =>
  }

  /** The canonical form of the declaration and of its display share their core; they differ
      in the number of array suffixes. */
  lemma {:induction false} CanonicalCore(table: string, t: ArrowType, path: string, style: Style, n: nat)
    requires UsableStyle(style)
    ensures BothCanonical(Displayed(CoreType(table, t, path), style), CoreName(table, t, path), n)
  {
    InnermostCore(table, t, path);
    var i := Innermost(t, path);
    var shown, name := Displayed(CoreType(table, t, path), style), CoreName(table, t, path);
    if i.0.Prim? {
      assert shown == DisplayName(RequiredBase(i.0.prim)) && name == ScalarTypeName(i.0.prim);
      CanonicalScalar(i.0.prim, n);
    } else if i.0.Struct? {
      assert name == TypeName(table, i.1) && shown == ShownName(name, style);
      CanonicalStruct(name, table, i.1, style, n);
    } else {
      assert shown == name == "jsonb";
      CanonicalJsonb(n);
    }
  }

  lemma {:induction false} CanonicalScalar(p: Primitive, n: nat)
    ensures BothCanonical(DisplayName(RequiredBase(p)), ScalarTypeName(p), n)
  {
    var shown, name := DisplayName(RequiredBase(p)), ScalarTypeName(p);
    assert Atom(shown) && Atom(name) by {
      DisplayIsAtom(p);
      ScalarIsWord(p);
      WordIsAtom(name);
    }
    assert Alias(shown) == name && Alias(name) == name by {
      AliasOfDisplay(p);
    }
    CanonicalOfAtom(shown, n);
    CanonicalOfAtom(name, n);
  }

  lemma {:induction false} CanonicalStruct(name: string, table: string, path: string, style: Style, n: nat)
    requires UsableStyle(style) && name == TypeName(table, path)
    ensures BothCanonical(ShownName(name, style), name, n)
  {
    assert IsWord(name) && Alias(name) == name by {
      TypeNameIsWord(table, path);
      AliasOfGenerated(name);
    }
    CanonicalOfName(name, style, n);
    WordIsAtom(name);
    CanonicalOfAtom(name, n);
  }

  lemma {:induction false} CanonicalJsonb(n: nat)
    ensures BothCanonical("jsonb", "jsonb", n)
  {
    WordIsAtom("jsonb");
    CanonicalOfAtom("jsonb", n);
  }

  lemma {:induction false} AliasOfGenerated(w: string)
    requires StartsWith(w, DdlOrder.LANCE_PREFIX)
    ensures Alias(w) == w
  {
    assert w[0] == w[..6][0] == 'l';
  }

  /** Drift detection is stable exactly for types with at most one list dimension: only then
      does PostgreSQL's display of a declared type have the declaration's canonical form. */
  lemma {:induction false} StableIff(table: string, t: ArrowType, path: string, style: Style)
    requires UsableStyle(style)
    ensures CanonicalType(Displayed(DeclaredType(table, t, path), style)) == CanonicalType(TypeString(table, t, path))
            <==> ListDepth(t) <= 1
  {
    TypeStringShape(table, t, path);
    DisplayedShape(table, t, path, style);
    CoreOfDeclared(table, t, path);
    var n := if ListDepth(t) > 0 then 1 else 0;
    CanonicalCore(table, t, path, style, n);
    CanonicalCore(table, t, path, style, ListDepth(t));
    RepeatLength(n);
    RepeatLength(ListDepth(t));
  }

  lemma {:induction false} RepeatLength(n: nat)
    ensures |Repeat("[]", n)| == 2 * n
  {
    if n > 0 {
      RepeatLength(n - 1);
    }
  }

  // ----- detect_schema_drift -----

  function CanonicalColumns(columns: seq<(string, string)>): seq<(string, string)> {
    seq(|columns|, i requires 0 <= i < |columns| => (columns[i].0, CanonicalType(columns[i].1)))
  }

  /** The columns agree, in order, by name and canonical type. */
  predicate NoDrift(expected: seq<(string, string)>, actual: seq<(string, string)>) {
    CanonicalColumns(expected) == CanonicalColumns(actual)
  }

  /** The columns of a table attached from `fields`, as PostgreSQL lists them. */
  function AttachedColumns(table: string, fields: seq<Field>, style: Style): seq<(string, string)> {
    seq(|fields|, i requires 0 <= i < |fields| =>
      (fields[i].name, Displayed(DeclaredType(table, fields[i].dataType, fields[i].name), style)))
  }

  /** A freshly attached table shows no drift exactly when no column nests lists. */
  lemma {:induction false} FreshTableHasNoDriftIff(table: string, fields: seq<Field>, style: Style)
    requires UsableStyle(style)
    ensures NoDrift(ColumnTypes(table, fields), AttachedColumns(table, fields, style))
            <==> forall i | 0 <= i < |fields| :: ListDepth(fields[i].dataType) <= 1
  {
    var e, a := CanonicalColumns(ColumnTypes(table, fields)), CanonicalColumns(AttachedColumns(table, fields, style));
    forall i | 0 <= i < |fields| ensures e[i] == a[i] <==> ListDepth(fields[i].dataType) <= 1 {
      StableIff(table, fields[i].dataType, fields[i].name, style);
    }
    if forall i | 0 <= i < |fields| :: ListDepth(fields[i].dataType) <= 1 {
      assert e == a;
    }
  }
}
