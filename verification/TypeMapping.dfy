/** Compiling an Arrow schema to PostgreSQL column types and composite type definitions
    (src/fdw/type_mapping.rs). */
module TypeMapping {
  import opened Arrow
  import opened Ordered
  import Naming

  /** The length, in bytes, at which a composite type name is cut. */
  const MAX_TYPE_NAME := 60

  datatype CompositeTypeDef = CompositeTypeDef(typeName: string, fields: seq<(string, string)>)

  datatype SchemaMapping = SchemaMapping(compositeTypes: seq<CompositeTypeDef>, columnTypes: seq<(string, string)>)

  // ----- composite_type_name -----

  function NameChar(c: char): char {
    var l := Naming.ToLower(c);
    if 'a' <= l <= 'z' || '0' <= l <= '9' || l == '_' then l else '_'
  }

  function NameChars(s: string): string {
    seq(|s|, i requires 0 <= i < |s| => NameChar(s[i]))
  }

  /** The composite type name before the cut; one byte for every character of the table
      name and the path. */
  function FullTypeName(table: string, path: string): string {
    NameChars("lance_" + table + "_" + path)
  }

  function TypeName(table: string, path: string): string {
    Naming.Cut(FullTypeName(table, path), MAX_TYPE_NAME)
  }

  lemma {:induction false} NameCharFolds(c: char)
    ensures Naming.Folded(c, NameChar(c))
  {
    Naming.LowerFolds(c);
    Naming.KeptIff(c);
  }

  /** A generated name is `lance_`, the table name and the path, character by character in small letters,
      with underscores for all but letters and digits, and of that the first 60 characters. */
  lemma {:induction false} TypeNameIs(table: string, path: string)
    ensures var raw, name := "lance_" + table + "_" + path, TypeName(table, path);
            && |name| == (if |raw| > 60 then 60 else |raw|)
            && forall k | 0 <= k < |name| :: Naming.Folded(raw[k], name[k])
  {
    var raw, name := "lance_" + table + "_" + path, TypeName(table, path);
    forall k | 0 <= k < |name| ensures Naming.Folded(raw[k], name[k]) {
      NameCharFolds(raw[k]);
    }
  }

  method CompositeTypeName(table: string, path: string) returns (name: string)
    ensures name == TypeName(table, path)
  {
    name := "lance_" + table + "_" + path;
    ghost var raw := name;
    var i := 0;
    while i < |name|
      invariant 0 <= i <= |name| == |raw|
      invariant forall k | 0 <= k < i :: name[k] == NameChar(raw[k])
      invariant name[i..] == raw[i..]
    {
      assert name[i] == raw[i];
      name := name[i := NameChar(name[i])];
      i := i + 1;
    }
    assert name == NameChars(raw);
    if |name| > MAX_TYPE_NAME {
      name := name[..MAX_TYPE_NAME];
    }
  }

  /** A deeper path gives a longer name, so only the cut can make it equal to the name of an
      enclosing path. */
  lemma {:induction false} DeeperNameDiffers(table: string, outer: string, inner: string)
    requires |outer| < |inner|
    ensures |FullTypeName(table, outer)| < |FullTypeName(table, inner)|
    ensures |FullTypeName(table, outer)| < MAX_TYPE_NAME ==> TypeName(table, outer) != TypeName(table, inner)
  {
  }

  /** Once a name fills the limit, every path that extends it gets the same name. */
  lemma {:induction false} CutNamesCollide(table: string, outer: string, suffix: string)
    requires |FullTypeName(table, outer)| >= MAX_TYPE_NAME
    ensures TypeName(table, outer) == TypeName(table, outer + suffix)
  {
    var a, b := "lance_" + table + "_" + outer, "lance_" + table + "_" + (outer + suffix);
    assert b == a + suffix;
    forall i | 0 <= i < MAX_TYPE_NAME
      ensures TypeName(table, outer)[i] == TypeName(table, outer + suffix)[i]
    {
      assert a[i] == b[i];
    }
  }

  // ----- pg_type_for_arrow -----

  function ScalarTypeName(p: Primitive): string {
    match p
    case Boolean => "boolean"
    case Int8 | UInt8 | Int16 => "int2"
    case UInt16 | Int32 => "int4"
    case UInt32 | Int64 | UInt64 => "int8"
    case Float16 | Float32 => "float4"
    case Float64 => "float8"
    case Utf8 | LargeUtf8 => "text"
    case Binary | LargeBinary | FixedSizeBinary(_) => "bytea"
    case Date32 | Date64 => "date"
    case Timestamp(_, tz) => if tz then "timestamptz" else "timestamp"
    case Decimal128(_, _) | Decimal256(_, _) => "numeric"
  }

  /** The declared type of a column or field. It does not depend on what was compiled before. */
  function TypeString(table: string, t: ArrowType, path: string): string
    decreases t
  {
    match t
    case Prim(p) => ScalarTypeName(p)
    case List(_, elem) => TypeString(table, elem.dataType, path + "_item") + "[]"
    case Struct(_) => TypeName(table, path)
    case Map(_) => "jsonb"
    case Dictionary(_, value) => TypeString(table, value, path + "_dict")
    case Other(_) => "jsonb"
  }

  function ChildPath(path: string, f: Field): string {
    path + "_" + f.name
  }

  function FieldTypes(table: string, fields: seq<Field>, path: string): seq<(string, string)> {
    seq(|fields|, i requires 0 <= i < |fields| =>
      (fields[i].name, TypeString(table, fields[i].dataType, ChildPath(path, fields[i]))))
  }

  /** The compiler's mutable state. */
  datatype State = State(composites: map<string, CompositeTypeDef>, seen: set<string>)

  function Collect(table: string, t: ArrowType, path: string, s: State): State
    decreases t, 0
  {
    match t
    case Prim(_) => s
    case List(_, elem) => Collect(table, elem.dataType, path + "_item", s)
    case Struct(fields) =>
      var name := TypeName(table, path);
      if name in s.seen then s
      else
        var inner := CollectFields(table, fields, |fields|, path, s.(seen := s.seen + {name}));
        inner.(composites := inner.composites[name := CompositeTypeDef(name, FieldTypes(table, fields, path))])
    case Map(_) => s
    case Dictionary(_, value) => Collect(table, value, path + "_dict", s)
    case Other(_) => s
  }

  function CollectFields(table: string, fields: seq<Field>, n: nat, path: string, s: State): State
    requires n <= |fields|
    decreases fields, n
  {
    if n == 0 then s
    else
      Collect(table, fields[n - 1].dataType, ChildPath(path, fields[n - 1]),
              CollectFields(table, fields, n - 1, path, s))
  }

  /** The state after compiling the first `n` columns of a schema. */
  function CollectColumns(table: string, fields: seq<Field>, n: nat): State
    requires n <= |fields|
  {
    if n == 0 then State(map[], {})
    else Collect(table, fields[n - 1].dataType, fields[n - 1].name, CollectColumns(table, fields, n - 1))
  }

  class SchemaCompiler {
    var composites: map<string, CompositeTypeDef>
    var seen: set<string>

    constructor ()
      ensures composites == map[] && seen == {}
    {
      composites, seen := map[], {};
    }

    method PgTypeForArrow(tableName: string, t: ArrowType, path: string) returns (ty: string)
      modifies this
      ensures ty == TypeString(tableName, t, path)
      ensures State(composites, seen) == Collect(tableName, t, path, old(State(composites, seen)))
      decreases t
    {
      match t
      case Prim(p) =>
        ty := ScalarTypeName(p);
      case List(_, elem) =>
        var innerPath := path + "_item";
        var inner := PgTypeForArrow(tableName, elem.dataType, innerPath);
        ty := inner + "[]";
      case Struct(fields) =>
        var typeName := CompositeTypeName(tableName, path);
        if typeName in seen {
          return typeName;
        }
        seen := seen + {typeName};
        ghost var s := State(composites, seen);
        var cols: seq<(string, string)> := [];
        for i := 0 to |fields|
          invariant cols == FieldTypes(tableName, fields, path)[..i]
          invariant State(composites, seen) == CollectFields(tableName, fields, i, path, s)
        {
          var childPath := path + "_" + fields[i].name;
          var fieldType := PgTypeForArrow(tableName, fields[i].dataType, childPath);
          cols := cols + [(fields[i].name, fieldType)];
        }
        assert cols == FieldTypes(tableName, fields, path);
        composites := composites[typeName := CompositeTypeDef(typeName, cols)];
        ty := typeName;
      case Map(_) =>
        ty := "jsonb";
      case Dictionary(_, value) =>
        var innerPath := path + "_dict";
        ty := PgTypeForArrow(tableName, value, innerPath);
      case Other(_) =>
        ty := "jsonb";
    }
  }

  /** The values of a BTreeMap, in key order. */
  function ValuesInOrder(m: map<string, CompositeTypeDef>): (r: seq<CompositeTypeDef>)
  {
    var keys := SortedStrings(m.Keys);
    seq(|keys|, i requires 0 <= i < |keys| => m[keys[i]])
  }

  /** The definitions are handed over in the order of their names. */
  lemma {:induction false} DefinitionsAscend(m: map<string, CompositeTypeDef>)
    requires forall n | n in m :: m[n].typeName == n
    ensures var defs := ValuesInOrder(m);
            forall i, j | 0 <= i < j < |defs| :: Precedes(defs[i].typeName, defs[j].typeName)
  {
    SortedStringsAscend(m.Keys);
  }

  function ColumnTypes(table: string, fields: seq<Field>): seq<(string, string)> {
    seq(|fields|, i requires 0 <= i < |fields| =>
      (fields[i].name, TypeString(table, fields[i].dataType, fields[i].name)))
  }

  method BuildSchemaMapping(tableName: string, fields: seq<Field>) returns (mapping: SchemaMapping)
    ensures mapping.columnTypes == ColumnTypes(tableName, fields)
    ensures mapping.compositeTypes == ValuesInOrder(CollectColumns(tableName, fields, |fields|).composites)
  {
    var compiler := new SchemaCompiler();
    var columnTypes: seq<(string, string)> := [];
    for i := 0 to |fields|
      invariant columnTypes == ColumnTypes(tableName, fields)[..i]
      invariant State(compiler.composites, compiler.seen) == CollectColumns(tableName, fields, i)
    {
      var ty := compiler.PgTypeForArrow(tableName, fields[i].dataType, fields[i].name);
      columnTypes := columnTypes + [(fields[i].name, ty)];
    }
    mapping := SchemaMapping(ValuesInOrder(compiler.composites), columnTypes);
  }
}
