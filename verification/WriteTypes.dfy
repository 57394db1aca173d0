/** From PostgreSQL columns to Arrow columns (src/write/pg_to_arrow.rs:14-158, 227-397). */
module WriteTypes {
  import opened Wrappers
  import opened Machine
  import opened Ordered
  import opened Arrow
  import opened Convert
  import Naming

  /** The type oids that the writer knows. */
  datatype Oid =
    | BoolOid | Int2Oid | Int4Oid | Int8Oid | Float4Oid | Float8Oid | NumericOid | TextOid | VarcharOid
    | UuidOid | ByteaOid | DateOid | TimestampOid | TimestamptzOid | JsonbOid | JsonOid | OtherOid(oid: nat)

  /** A column value; numerics, uuids and JSON are held by the text they print as. */
  datatype Datum =
    | NullDatum
    | BoolDatum(b: bool)
    | IntDatum(i: int)
    | FloatDatum(f: Float)
    | TextDatum(s: string)
    | BytesDatum(bytes: seq<nat>)
    | DateDatum(unixDays: int)
    | TimestampDatum(pgMicros: int)

  /** `d` is a value of the type `oid`. */
  predicate HasType(oid: Oid, d: Datum) {
    d.NullDatum? ||
    match oid
    case BoolOid => d.BoolDatum?
    case Int2Oid | Int4Oid | Int8Oid => d.IntDatum?
    case Float4Oid | Float8Oid => d.FloatDatum?
    case ByteaOid => d.BytesDatum?
    case DateOid => d.DateDatum?
    case TimestampOid | TimestamptzOid => d.TimestampDatum? && InI64(d.pgMicros)
    case OtherOid(_) => true
    case _ => d.TextDatum?
  }

  const TIMESTAMP: Primitive := Timestamp(Microsecond, false)
  const TIMESTAMP_UTC: Primitive := Timestamp(Microsecond, true)

  /** The Arrow types for which a builder exists. */
  predicate Buildable(p: Primitive) {
    p in {Boolean, Int16, Int32, Int64, Float32, Float64, Utf8, Binary, Date32, TIMESTAMP, TIMESTAMP_UTC}
  }

  function ParseArrowTypeName(typeName: string): (r: Option<Primitive>)
    ensures r.Some? ==> Buildable(r.value)
  {
    var n := Naming.Lower(typeName);
    if n == "bool" || n == "boolean" then Some(Boolean)
    else if n == "int2" || n == "int16" then Some(Int16)
    else if n == "int4" || n == "int32" then Some(Int32)
    else if n == "int8" || n == "int64" then Some(Int64)
    else if n == "float4" || n == "float32" then Some(Float32)
    else if n == "float8" || n == "float64" then Some(Float64)
    else if n == "text" || n == "utf8" || n == "json_text" || n == "jsonb_text" then Some(Utf8)
    else if n == "bytea" || n == "binary" then Some(Binary)
    else if n == "date32" || n == "date_days" then Some(Date32)
    else if n == "timestamp" || n == "timestamp_us" then Some(TIMESTAMP)
    else if n == "timestamptz" || n == "timestamp_us_utc" then Some(TIMESTAMP_UTC)
    else None
  }

  /** `n` is one of the names of `p`, in small letters. */
  predicate IsNameOf(n: string, p: Primitive) {
    match p
    case Boolean => n == "bool" || n == "boolean"
    case Int16 => n == "int2" || n == "int16"
    case Int32 => n == "int4" || n == "int32"
    case Int64 => n == "int8" || n == "int64"
    case Float32 => n == "float4" || n == "float32"
    case Float64 => n == "float8" || n == "float64"
    case Utf8 => n == "text" || n == "utf8" || n == "json_text" || n == "jsonb_text"
    case Binary => n == "bytea" || n == "binary"
    case Date32 => n == "date32" || n == "date_days"
    case Timestamp(unit, tz) =>
      && unit == Microsecond
      && if tz then n == "timestamptz" || n == "timestamp_us_utc" else n == "timestamp" || n == "timestamp_us"
    case _ => false
  }

  /** The name-to-type table, whatever the case of the letters. */
  lemma {:induction false} NamesAre(typeName: string, p: Primitive)
    ensures ParseArrowTypeName(typeName) == Some(p) <==> IsNameOf(Naming.Lower(typeName), p)
  {
    if ParseArrowTypeName(typeName) == Some(p) {
      ParsedIsNamed(typeName, p);
    } else if IsNameOf(Naming.Lower(typeName), p) {
      NamedIsParsed(typeName, p);
    }
  }

  lemma {:induction false} ParsedIsNamed(typeName: string, p: Primitive)
    requires ParseArrowTypeName(typeName) == Some(p)
    ensures IsNameOf(Naming.Lower(typeName), p)
  {
  }

  lemma {:induction false} NamedIsParsed(typeName: string, p: Primitive)
    requires IsNameOf(Naming.Lower(typeName), p)
    ensures ParseArrowTypeName(typeName) == Some(p)
  {
  }

  /** The PostgreSQL type under which a column of its own type is shown. */
  function OwnBase(oid: Oid): PgBase
    requires !oid.OtherOid?
  {
    match oid
    case BoolOid => PgBool
    case Int2Oid => PgInt2
    case Int4Oid => PgInt4
    case Int8Oid => PgInt8
    case Float4Oid => PgFloat4
    case Float8Oid => PgFloat8
    case ByteaOid => PgBytea
    case DateOid => PgDate
    case TimestampOid => PgTimestamp
    case TimestamptzOid => PgTimestampTz
    case _ => PgText
  }

  /** A column written under its default type is shown as its own type, and as text if it has none. */
  lemma {:induction false} DefaultIsShownAsOwn(oid: Oid)
    requires !oid.OtherOid?
    ensures RequiredBase(PgOidToArrowType(oid).value) == OwnBase(oid)
  {
  }

  /** A name for every type with a builder. */
  function NameOf(p: Primitive): string
    requires Buildable(p)
  {
    match p
    case Boolean => "bool"
    case Int16 => "int2"
    case Int32 => "int4"
    case Int64 => "int8"
    case Float32 => "float4"
    case Float64 => "float8"
    case Utf8 => "text"
    case Binary => "binary"
    case Date32 => "date32"
    case _ => if p == TIMESTAMP then "timestamp" else "timestamptz"
  }

  lemma {:induction false} NameOfIsLower(p: Primitive)
    requires Buildable(p)
    ensures Naming.Lower(NameOf(p)) == NameOf(p)
  {
  }

  /** Every type with a builder, and no other, can be given by name. */
  lemma {:induction false} NamedIffBuildable(p: Primitive)
    ensures Buildable(p) <==> exists name :: ParseArrowTypeName(name) == Some(p)
  {
    if Buildable(p) {
      NameOfParses(p);
    }
  }

  lemma {:induction false} NameOfParses(p: Primitive)
    requires Buildable(p)
    ensures ParseArrowTypeName(NameOf(p)) == Some(p)
  {
    NameOfIsLower(p);
  }

  /** The overrides that a `column_types` object gives, where a value that is not a string is `None`. */
  method ParseArrowTypeOverrides(given: map<string, Option<string>>) returns (r: Result<map<string, Primitive>, string>)
    ensures r.Ok? <==> forall c | c in given :: given[c].Some? && ParseArrowTypeName(given[c].value).Some?
    ensures r.Ok? ==> r.value.Keys == given.Keys
    ensures r.Ok? ==> forall c | c in given ::
              Buildable(r.value[c]) && ParseArrowTypeName(given[c].value) == Some(r.value[c])
  {
    r := ParseEach(given, ParseArrowTypeName);
  }

  /** What `parse` makes of a value that has to be a string. */
  function ParseValue<T>(v: Option<string>, parse: string -> Option<T>): Option<T> {
    if v.None? then None else parse(v.value)
  }

  /** The loop of `parse_arrow_type_overrides`. */
  method ParseEach<T>(given: map<string, Option<string>>, parse: string -> Option<T>)
    returns (r: Result<map<string, T>, string>)
    ensures r.Ok? <==> forall c | c in given :: ParseValue(given[c], parse).Some?
    ensures r.Ok? ==> r.value.Keys == given.Keys
    ensures r.Ok? ==> forall c | c in given :: ParseValue(given[c], parse) == Some(r.value[c])
  {
    var columns := SortedStrings(given.Keys);
    var overrides: map<string, T> := map[];
    for k := 0 to |columns|
      invariant forall j | 0 <= j < k :: columns[j] in overrides
      invariant forall c | c in overrides :: c in given && ParseValue(given[c], parse) == Some(overrides[c])
    {
      var column := columns[k];
      assert column in columns;
      var parsed := ParseValue(given[column], parse);
      if parsed.None? {
        return Err("not an Arrow type name");
      }
      overrides := overrides[column := parsed.value];
    }
    r := Ok(overrides);
  }

  function PgOidToArrowType(oid: Oid): (r: Option<Primitive>)
    ensures r.Some? ==> Buildable(r.value)
    ensures r.None? <==> oid.OtherOid?
  {
    match oid
    case BoolOid => Some(Boolean)
    case Int2Oid => Some(Int16)
    case Int4Oid => Some(Int32)
    case Int8Oid => Some(Int64)
    case Float4Oid => Some(Float32)
    case Float8Oid => Some(Float64)
    case NumericOid | TextOid | VarcharOid | UuidOid | JsonbOid | JsonOid => Some(Utf8)
    case ByteaOid => Some(Binary)
    case DateOid => Some(Date32)
    case TimestampOid => Some(TIMESTAMP)
    case TimestamptzOid => Some(TIMESTAMP_UTC)
    case OtherOid(_) => None
  }

  // ----- append_datum -----

  /** The Rust types as which a column value can be read. */
  datatype Reader =
    | AsBool | AsI16 | AsI32 | AsI64 | AsF32 | AsF64 | AsNumeric | AsJsonb | AsJson | AsUuid | AsString | AsBytes
    | AsDate | AsTimestamp | AsTimestampTz

  /** The type as which a builder of type `p` reads a column of type `oid`. */
  function ReaderOf(p: Primitive, oid: Oid): Reader
    requires Buildable(p)
  {
    match p
    case Boolean => AsBool
    case Int16 => AsI16
    case Int32 => AsI32
    case Int64 => AsI64
    case Float32 => AsF32
    case Float64 => AsF64
    case Utf8 =>
      (match oid
       case NumericOid => AsNumeric
       case JsonbOid => AsJsonb
       case JsonOid => AsJson
       case UuidOid => AsUuid
       case _ => AsString)
    case Binary => AsBytes
    case Date32 => if oid.Int4Oid? then AsI32 else AsDate
    case Timestamp(_, tz) => if oid.Int8Oid? then AsI64 else if tz then AsTimestampTz else AsTimestamp
  }

  /** What a reader makes of a datum that it accepts. */
  function Decode(r: Reader, d: Datum): Value {
    match d
    case NullDatum => Null
    case BoolDatum(b) => if r.AsBool? then Bool(b) else Null
    case IntDatum(i) => if r.AsI16? || r.AsI32? || r.AsI64? then Int(i) else Null
    case FloatDatum(f) => if r.AsF32? || r.AsF64? then Flt(f) else Null
    case TextDatum(s) =>
      if r.AsString? || r.AsNumeric? || r.AsJsonb? || r.AsJson? || r.AsUuid? then Text(s) else Null
    case BytesDatum(bytes) => if r.AsBytes? then Bytes(bytes) else Null
    case DateDatum(days) => if r.AsDate? then Int(days) else Null
    case TimestampDatum(micros) =>
      if r.AsTimestamp? || r.AsTimestampTz? then Int(Wrap64(micros + EPOCH_MICROS)) else Null
  }

  /** The test of a column's type before its values are read; a column that fails it gives nulls. */
  type TypeTest = (Reader, Oid) -> bool

  /** pgrx reads a type as itself, varchar as text, and integers as wider ones. */
  predicate CanRead(r: Reader, oid: Oid) {
    match r
    case AsBool => oid.BoolOid?
    case AsI16 => oid.Int2Oid?
    case AsI32 => oid.Int2Oid? || oid.Int4Oid?
    case AsI64 => oid.Int2Oid? || oid.Int4Oid? || oid.Int8Oid?
    case AsF32 => oid.Float4Oid?
    case AsF64 => oid.Float8Oid?
    case AsNumeric => oid.NumericOid?
    case AsJsonb => oid.JsonbOid?
    case AsJson => oid.JsonOid?
    case AsUuid => oid.UuidOid?
    case AsString => oid.TextOid? || oid.VarcharOid?
    case AsBytes => oid.ByteaOid?
    case AsDate => oid.DateOid?
    case AsTimestamp => oid.TimestampOid?
    case AsTimestampTz => oid.TimestamptzOid?
  }

  /** The value appended to a builder of type `p`. */
  function AppendTested(accepts: TypeTest, p: Primitive, oid: Oid, d: Datum): Value {
    if !Buildable(p) || !HasType(oid, d) || !accepts(ReaderOf(p, oid), oid) then Null else Decode(ReaderOf(p, oid), d)
  }

  function AppendDatum(p: Primitive, oid: Oid, d: Datum): Value {
    AppendTested(CanRead, p, oid, d)
  }

  /** The Arrow value of a datum, whatever column it comes from and whatever builder it goes to. */
  function ArrowValue(d: Datum): Value {
    match d
    case NullDatum => Null
    case BoolDatum(b) => Bool(b)
    case IntDatum(i) => Int(i)
    case FloatDatum(f) => Flt(f)
    case TextDatum(s) => Text(s)
    case BytesDatum(bytes) => Bytes(bytes)
    case DateDatum(days) => Int(days)
    case TimestampDatum(micros) => Int(Wrap64(micros + EPOCH_MICROS))
  }

  /** With any type test that accepts no more than pgrx does, a value is kept as it is if the reader
      accepts the column and becomes a null if not. */
  lemma {:induction false} KeptIffAccepted(accepts: TypeTest, p: Primitive, oid: Oid, d: Datum)
    requires forall r, o :: accepts(r, o) ==> CanRead(r, o)
    requires Buildable(p) && HasType(oid, d) && !d.NullDatum?
    ensures AppendTested(accepts, p, oid, d) == if accepts(ReaderOf(p, oid), oid) then ArrowValue(d) else Null
    ensures AppendTested(accepts, p, oid, d) == Null <==> !accepts(ReaderOf(p, oid), oid)
  {
    AcceptedDecodes(ReaderOf(p, oid), oid, d);
  }

  lemma {:induction false} AcceptedDecodes(r: Reader, oid: Oid, d: Datum)
    requires HasType(oid, d)
    ensures CanRead(r, oid) ==> Decode(r, d) == ArrowValue(d)
  {
  }

  /** The column types whose values a builder keeps: its own, narrower integers, and integers as
      days or microseconds since 1970. */
  predicate Keeps(p: Primitive, oid: Oid) {
    || PgOidToArrowType(oid) == Some(p)
    || (p.Int32? && oid.Int2Oid?)
    || (p.Int64? && (oid.Int2Oid? || oid.Int4Oid?))
    || (p.Date32? && oid.Int4Oid?)
    || (p.Timestamp? && oid.Int8Oid?)
  }

  lemma {:induction false} KeepsIffRead(p: Primitive, oid: Oid)
    requires Buildable(p)
    ensures Keeps(p, oid) <==> CanRead(ReaderOf(p, oid), oid)
  {
    assert p.Timestamp? ==> p == TIMESTAMP || p == TIMESTAMP_UTC;
  }

  /** With overridden types, values are silently replaced by nulls exactly when the column type is
      neither the overriding type's own nor a narrower integer nor an integer under a date or
      timestamp; all others are kept as they are. */
  lemma {:induction false} SilentNullIff(p: Primitive, oid: Oid, d: Datum)
    requires Buildable(p) && HasType(oid, d) && !d.NullDatum?
    ensures AppendDatum(p, oid, d) == Null <==> !Keeps(p, oid)
    ensures Keeps(p, oid) ==> AppendDatum(p, oid, d) == ArrowValue(d)
  {
    KeptIffAccepted(CanRead, p, oid, d);
    KeepsIffRead(p, oid);
  }

  /** An integer column overridden to a smaller integer loses every value. */
  lemma {:induction false} NarrowedIntegersBecomeNull(i: int)
    ensures ParseArrowTypeName("INT2") == Some(Int16) && PgOidToArrowType(Int4Oid) == Some(Int32)
    ensures AppendDatum(Int16, Int4Oid, IntDatum(i)) == Null
  {
    assert Naming.Lower("INT2") == "int2";
    SilentNullIff(Int16, Int4Oid, IntDatum(i));
  }

  /** An integer column overridden to a larger integer keeps them. */
  lemma {:induction false} WidenedIntegersAreKept(i: int)
    ensures AppendDatum(Int32, Int2Oid, IntDatum(i)) == Int(i)
    ensures AppendDatum(Int64, Int2Oid, IntDatum(i)) == AppendDatum(Int64, Int4Oid, IntDatum(i)) == Int(i)
  {
    SilentNullIff(Int32, Int2Oid, IntDatum(i));
    SilentNullIff(Int64, Int2Oid, IntDatum(i));
    SilentNullIff(Int64, Int4Oid, IntDatum(i));
  }

  // ----- writing and reading back -----

  /** What a foreign table over a column written as `p` shows for `d`. */
  function Shown(p: Primitive, d: Datum): Cell {
    match d
    case NullDatum => NullCell
    case BoolDatum(b) => DBool(b)
    case IntDatum(i) =>
      (match p
       case Date32 => DDate(i)
       case Timestamp(_, tz) => DTimestamp(tz, Wrap64(i - EPOCH_MICROS))
       case _ => DInt(RequiredBase(p), i))
    case FloatDatum(f) => DFloat(RequiredBase(p), f)
    case TextDatum(s) => DText(s)
    case BytesDatum(bytes) => DBytea(bytes)
    case DateDatum(days) => DDate(days)
    case TimestampDatum(micros) => DTimestamp(p == TIMESTAMP_UTC, micros)
  }

  /** Dates and timestamps that the reader accepts. */
  predicate InRange(lim: Limits, p: Primitive, d: Datum) {
    match Shown(p, d)
    case DDate(days) => Within(days, lim.chronoDays) && Within(days, lim.pgDays)
    case DTimestamp(_, micros) => Within(micros, lim.pgMicros)
    case _ => true
  }

  /** Every value that is kept is read back: under its column's default type, or a wider integer,
      unchanged, where the writer's shift of timestamps to the Unix epoch and the reader's shift back
      cancel for every 64-bit value, even where they wrap; and integers under a date or timestamp as
      that many days or microseconds since 1970. */
  lemma {:induction false} WrittenValuesReadBack(lim: Limits, p: Primitive, oid: Oid, d: Datum)
    requires Buildable(p) && Keeps(p, oid) && HasType(oid, d) && InRange(lim, p, d)
    ensures ToCell(lim, Prim(p), AppendDatum(p, oid, d), Base(RequiredBase(p))) == Ok(Shown(p, d))
  {
    if !d.NullDatum? {
      SilentNullIff(p, oid, d);
      ArrowValueReadsBack(lim, p, oid, d);
    }
  }

  lemma {:induction false} ArrowValueReadsBack(lim: Limits, p: Primitive, oid: Oid, d: Datum)
    requires Buildable(p) && Keeps(p, oid) && HasType(oid, d) && InRange(lim, p, d) && !d.NullDatum?
    ensures ToCell(lim, Prim(p), ArrowValue(d), Base(RequiredBase(p))) == Ok(Shown(p, d))
  {
    match p
    case Timestamp(_, _) => TimestampReadsBack(lim, p, oid, d);
    case _ =>
  }

  lemma {:induction false} TimestampReadsBack(lim: Limits, p: Primitive, oid: Oid, d: Datum)
    requires p == TIMESTAMP || p == TIMESTAMP_UTC
    requires Keeps(p, oid) && HasType(oid, d) && InRange(lim, p, d) && !d.NullDatum?
    ensures ToCell(lim, Prim(p), ArrowValue(d), Base(RequiredBase(p))) == Ok(Shown(p, d))
  {
  }

  // ----- columns -----

  datatype Column = Column(name: string, oid: Oid, arrowType: Primitive)

  predicate HasColumn(cols: seq<Column>, name: string) {
    exists i :: 0 <= i < |cols| && cols[i].name == name
  }

  predicate FirstOfName(cols: seq<Column>, i: nat)
    requires i < |cols|
  {
    forall j | 0 <= j < i :: cols[j].name != cols[i].name
  }

  /** The columns with the overrides in `names` applied, each to the first column of its name. */
  function Overridden(cols: seq<Column>, overrides: map<string, Primitive>, names: set<string>): seq<Column>
    requires names <= overrides.Keys
  {
    seq(|cols|, i requires 0 <= i < |cols| =>
      if cols[i].name in names && FirstOfName(cols, i) then cols[i].(arrowType := overrides[cols[i].name]) else cols[i])
  }

  /** The first column with the given name. */
  method FindColumn(cols: seq<Column>, name: string) returns (r: Option<nat>)
    ensures r.Some? ==> r.value < |cols| && cols[r.value].name == name && FirstOfName(cols, r.value)
    ensures r.None? ==> !HasColumn(cols, name)
  {
    for i := 0 to |cols|
      invariant forall j | 0 <= j < i :: cols[j].name != name
    {
      if cols[i].name == name {
        return Some(i);
      }
    }
    return None;
  }

  method ApplyArrowTypeOverrides(columns: seq<Column>, overrides: map<string, Primitive>)
    returns (r: Result<seq<Column>, string>)
    ensures r.Ok? <==> forall name | name in overrides :: HasColumn(columns, name)
    ensures r.Ok? ==> r.value == Overridden(columns, overrides, overrides.Keys)
  {
    var names := SortedStrings(overrides.Keys);
    var cols := columns;
    ghost var done: set<string> := {};
    for k := 0 to |names|
      invariant done == (set j | 0 <= j < k :: names[j]) && done <= overrides.Keys
      invariant cols == Overridden(columns, overrides, done)
      invariant forall n | n in done :: HasColumn(columns, n)
    {
      assert names[k] in names;
      cols :- ApplyOverride(columns, cols, overrides, done, names[k]);
      done := done + {names[k]};
    }
    assert overrides.Keys <= done;
    r := Ok(cols);
  }

  method ApplyOverride(ghost columns: seq<Column>, cols: seq<Column>, overrides: map<string, Primitive>,
                       ghost done: set<string>, name: string)
    returns (r: Result<seq<Column>, string>)
    requires name in overrides && done <= overrides.Keys && cols == Overridden(columns, overrides, done)
    ensures r.Ok? <==> HasColumn(columns, name)
    ensures r.Ok? ==> r.value == Overridden(columns, overrides, done + {name})
  {
    SameNames(columns, overrides, done, name);
    var i := FindColumn(cols, name);
    if i.None? {
      return Err("column_types override references a missing column");
    }
    r := Ok(cols[i.value := cols[i.value].(arrowType := overrides[name])]);
  }

  lemma {:induction false} SameNames(cols: seq<Column>, overrides: map<string, Primitive>, names: set<string>,
                                     name: string)
    requires names <= overrides.Keys
    ensures var after := Overridden(cols, overrides, names);
            && (HasColumn(after, name) <==> HasColumn(cols, name))
            && forall i | 0 <= i < |cols| ::
              after[i].name == cols[i].name && (FirstOfName(after, i) <==> FirstOfName(cols, i))
  {
    var after := Overridden(cols, overrides, names);
    assert forall i | 0 <= i < |cols| :: after[i].name == cols[i].name;
    if i :| 0 <= i < |cols| && cols[i].name == name {
      assert after[i].name == name;
    }
  }

  /** The columns of a source, before overrides. */
  method ExtractSpiColumns(described: seq<(string, Oid)>) returns (r: Result<seq<Column>, string>)
    ensures r.Ok? <==> described != [] && forall i | 0 <= i < |described| :: !described[i].1.OtherOid?
    ensures r.Ok? ==> r.value == DefaultColumns(described)
  {
    if |described| == 0 {
      return Err("source_query returned zero columns");
    }
    var cols: seq<Column> := [];
    for i := 0 to |described|
      invariant forall j | 0 <= j < i :: !described[j].1.OtherOid?
      invariant cols == DefaultColumns(described[..i])
    {
      var t := PgOidToArrowType(described[i].1);
      if t.None? {
        return Err("unsupported PostgreSQL type for write");
      }
      cols := cols + [Column(described[i].0, described[i].1, t.value)];
    }
    assert described[..|described|] == described;
    r := Ok(cols);
  }

  function DefaultColumns(described: seq<(string, Oid)>): seq<Column>
    requires forall i | 0 <= i < |described| :: !described[i].1.OtherOid?
  {
    seq(|described|, i requires 0 <= i < |described| =>
      Column(described[i].0, described[i].1, PgOidToArrowType(described[i].1).value))
  }

  /** The columns a write uses, if the source can be written. */
  function WriteColumns(described: seq<(string, Oid)>,
                        overrides: Option<map<string, Primitive>>): (r: Option<seq<Column>>)
    ensures r.Some? ==> |r.value| == |described| > 0
  {
    if described == [] || exists i :: 0 <= i < |described| && described[i].1.OtherOid? then None
    else
      var cols := DefaultColumns(described);
      if overrides.None? then Some(cols)
      else if forall name | name in overrides.value :: HasColumn(cols, name) then
        Some(Overridden(cols, overrides.value, overrides.value.Keys))
      else None
  }

  /** The columns of a source one by one: it has some exactly if all its types can be written and every
      override names one of them; each has its name and type, and the Arrow type of its override if it is the
      first of its name, or else of its own type. */
  lemma {:induction false} WriteColumnsAre(described: seq<(string, Oid)>, overrides: Option<map<string, Primitive>>)
    ensures var cols := WriteColumns(described, overrides);
            var given := if overrides.Some? then overrides.value else map[];
            && (cols.Some? <==>
                 && |described| > 0 && (forall i | 0 <= i < |described| :: !described[i].1.OtherOid?)
                 && forall name | name in given :: exists i :: 0 <= i < |described| && described[i].0 == name)
            && (cols.Some? ==> forall i | 0 <= i < |described| ::
                 ColumnIs(described, given, i, cols.value[i]))
  {
    if |described| > 0 && forall i | 0 <= i < |described| :: !described[i].1.OtherOid? {
      var plain := DefaultColumns(described);
      assert forall i | 0 <= i < |described| :: plain[i].name == described[i].0;
      if overrides.Some? {
        forall name ensures HasColumn(plain, name) <==> exists i :: 0 <= i < |described| && described[i].0 == name {
          HasColumnIff(described, plain, name);
        }
      }
    }
  }

  ghost predicate ColumnIs(described: seq<(string, Oid)>, given: map<string, Primitive>, i: nat, c: Column)
    requires i < |described| && !described[i].1.OtherOid?
  {
    && c.name == described[i].0 && c.oid == described[i].1
    && c.arrowType == (if c.name in given && forall j | 0 <= j < i :: described[j].0 != c.name then given[c.name]
                       else PgOidToArrowType(c.oid).value)
  }

  lemma {:induction false} HasColumnIff(described: seq<(string, Oid)>, cols: seq<Column>, name: string)
    requires |cols| == |described| && forall i | 0 <= i < |cols| :: cols[i].name == described[i].0
    ensures HasColumn(cols, name) <==> exists i :: 0 <= i < |described| && described[i].0 == name
  {
    if i :| 0 <= i < |described| && described[i].0 == name {
      assert cols[i].name == name;
    }
  }

  method DeriveColumns(described: seq<(string, Oid)>, overrides: Option<map<string, Primitive>>)
    returns (r: Result<seq<Column>, string>)
    ensures r.Ok? <==> WriteColumns(described, overrides).Some?
    ensures r.Ok? ==> r.value == WriteColumns(described, overrides).value
  {
    r := ExtractSpiColumns(described);
    if r.Ok? && overrides.Some? {
      r := ApplyArrowTypeOverrides(r.value, overrides.value);
    }
  }
}
