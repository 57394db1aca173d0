/** Validating and converting Arrow values for a PostgreSQL target type
    (src/fdw/convert.rs). */
module Convert {
  import opened Wrappers
  import opened Machine
  import opened Arrow

  datatype PgBase =
    | PgBool | PgInt2 | PgInt4 | PgInt8 | PgFloat4 | PgFloat8 | PgText | PgBytea | PgDate
    | PgTimestamp | PgTimestampTz | PgNumeric | PgJsonb | PgOtherBase(oid: nat)

  /** A PostgreSQL type; the element of an array type is never itself an array. */
  datatype PgType =
    | Base(base: PgBase)
    | ArrayOf(elem: PgType)
    | Composite(name: string, attrs: seq<Attribute>)

  datatype Attribute = Attribute(name: string, typ: PgType, dropped: bool)

  datatype ErrorKind = TypeMismatch | UnsupportedType | ValueOutOfRange | Internal

  const JSONB := Base(PgJsonb)

  // ----- validate_arrow_type_for_pg_oid -----

  function RequiredBase(p: Primitive): PgBase {
    match p
    case Boolean => PgBool
    case Int8 | UInt8 | Int16 => PgInt2
    case UInt16 | Int32 => PgInt4
    case UInt32 | Int64 | UInt64 => PgInt8
    case Float16 | Float32 => PgFloat4
    case Float64 => PgFloat8
    case Utf8 | LargeUtf8 => PgText
    case Binary | LargeBinary | FixedSizeBinary(_) => PgBytea
    case Date32 | Date64 => PgDate
    case Timestamp(_, tz) => if tz then PgTimestampTz else PgTimestamp
    case Decimal128(_, _) | Decimal256(_, _) => PgNumeric
  }

  function RequireTarget(target: PgType, expected: PgType): Result<(), ErrorKind> {
    if target == expected then Ok(()) else Err(TypeMismatch)
  }

  /** The first field with the given name. */
  function FindField(fields: seq<Field>, name: string): (r: Option<nat>)
    ensures r.Some? ==> r.value < |fields| && fields[r.value].name == name
                        && forall j | 0 <= j < r.value :: fields[j].name != name
    ensures r.None? ==> forall j | 0 <= j < |fields| :: fields[j].name != name
  {
    FindFieldFrom(fields, name, 0)
  }

  function FindFieldFrom(fields: seq<Field>, name: string, from: nat): (r: Option<nat>)
    requires from <= |fields|
    ensures r.Some? ==> from <= r.value < |fields| && fields[r.value].name == name
                        && forall j | from <= j < r.value :: fields[j].name != name
    ensures r.None? ==> forall j | from <= j < |fields| :: fields[j].name != name
    decreases |fields| - from
  {
    if from == |fields| then None
    else if fields[from].name == name then Some(from)
    else FindFieldFrom(fields, name, from + 1)
  }

  function Validate(t: ArrowType, target: PgType): Result<(), ErrorKind>
    decreases t, 0
  {
    match t
    case Prim(p) => RequireTarget(target, Base(RequiredBase(p)))
    case Dictionary(_, value) => Validate(value, target)
    case List(_, elem) =>
      if target == JSONB then Ok(())
      else if !target.ArrayOf? then Err(TypeMismatch)
      else Validate(elem.dataType, target.elem)
    case Struct(fields) =>
      if !target.Composite? then Err(TypeMismatch)
      else ValidateAttrs(fields, target.attrs, |target.attrs|)
    case Map(_) => RequireTarget(target, JSONB)
    case Other(_) => RequireTarget(target, JSONB)
  }

  /** Validates the first `n` attributes, stopping at the first failure. */
  function ValidateAttrs(fields: seq<Field>, attrs: seq<Attribute>, n: nat): Result<(), ErrorKind>
    requires n <= |attrs|
    decreases fields, n
  {
    if n == 0 then Ok(())
    else
      var before := ValidateAttrs(fields, attrs, n - 1);
      var a := attrs[n - 1];
      if before.Err? || a.dropped then before
      else
        match FindField(fields, a.name)
        case None => Err(TypeMismatch)
        case Some(i) => Validate(fields[i].dataType, a.typ)
  }

  // ----- values on both sides -----

  /** A value of an Arrow array; a dictionary value carries its array of distinct values. */
  datatype Value =
    | Null
    | Bool(b: bool)
    | Int(i: int) // integers, dates, timestamps and unscaled decimals
    | Flt(f: Float)
    | Text(s: string)
    | Bytes(bytes: seq<nat>)
    | ListValue(items: seq<Value>)
    | StructValue(fields: seq<Value>)
    | DictValue(key: int, values: seq<Value>)
    | OtherValue(tag: nat) // maps and everything outside the model's types

  datatype Json =
    | JNull
    | JBool(b: bool)
    | JInt(i: int)
    | JFloat(f: Float)
    | JString(s: string)
    | JBase64(bytes: seq<nat>)
    | JDecimal(unscaled: int, scale: int)
    | JArray(items: seq<Json>)
    | JObject(members: map<string, Json>)
    | JUnsupported(t: ArrowType) // the text <unsupported_type: ...>

  /** A PostgreSQL value with its null flag. */
  datatype Cell =
    | NullCell
    | DBool(b: bool)
    | DInt(base: PgBase, i: int)
    | DFloat(base: PgBase, f: Float)
    | DText(s: string)
    | DBytea(bytes: seq<nat>)
    | DDate(days: int)
    | DTimestamp(tz: bool, micros: int) // microseconds since 2000-01-01
    | DNumeric(unscaled: int, scale: int)
    | DJsonb(json: Json)
    | DArray(elem: PgType, items: seq<Cell>)
    | DRow(attrs: seq<Attribute>, cells: seq<Cell>)

  /** The ranges that chrono and PostgreSQL accept. */
  datatype Limits = Limits(chronoDays: (int, int), chronoMillis: (int, int), pgDays: (int, int), pgMicros: (int, int))

  predicate Within(x: int, range: (int, int)) {
    range.0 <= x <= range.1
  }

  const EPOCH_MICROS: int := 946_684_800 * 1_000_000
  const MILLIS_PER_DAY: int := 86_400_000

  // ----- arrow_value_to_json -----

  function DictionaryKeyToUsize(keyType: ArrowType, key: int): Result<nat, ErrorKind> {
    if keyType.Prim? && (keyType.prim.Int8? || keyType.prim.Int16? || keyType.prim.Int32? || keyType.prim.Int64?) then
      if key < 0 then Err(Internal) else Ok(key)
    else if keyType.Prim? &&
      (keyType.prim.UInt8? || keyType.prim.UInt16? || keyType.prim.UInt32? || keyType.prim.UInt64?) then
      if key < 0 then Err(Internal) else Ok(key)
    else Err(UnsupportedType)
  }

  function JsonFloat(f: Float): Json {
    if f.Finite? then JFloat(f) else JNull
  }

  function PrimToJson(p: Primitive, v: Value): Result<Json, ErrorKind> {
    match p
    case Boolean => if v.Bool? then Ok(JBool(v.b)) else Err(Internal)
    case Int8 | Int16 | Int32 | Int64 | UInt8 | UInt16 | UInt32 | UInt64 =>
      if v.Int? then Ok(JInt(Wrap64(v.i))) else Err(Internal)
    case Float16 | Float32 | Float64 => if v.Flt? then Ok(JsonFloat(v.f)) else Err(Internal)
    case Utf8 | LargeUtf8 => if v.Text? then Ok(JString(v.s)) else Err(Internal)
    case Binary | LargeBinary | FixedSizeBinary(_) => if v.Bytes? then Ok(JBase64(v.bytes)) else Err(Internal)
    case Decimal128(_, scale) => if v.Int? then Ok(JDecimal(v.i, scale)) else Err(Internal)
    case Decimal256(_, scale) => if v.Int? then Ok(JDecimal(v.i, scale)) else Err(Internal)
    case Date32 | Date64 | Timestamp(_, _) => Ok(JUnsupported(Prim(p)))
  }

  function ToJson(t: ArrowType, v: Value): Result<Json, ErrorKind>
    decreases t, 0, 0
  {
    if v.Null? then Ok(JNull)
    else
      match t
      case Prim(p) => PrimToJson(p, v)
      case List(_, elem) =>
        if !v.ListValue? then Err(Internal)
        else
          var items := ItemsToJson(elem.dataType, v.items, |v.items|);
          if items.Ok? then Ok(JArray(items.value)) else Err(items.error)
      case Struct(fields) =>
        if !v.StructValue? || |v.fields| != |fields| then Err(Internal)
        else
          var members := FieldsToJson(fields, v.fields, |fields|);
          if members.Ok? then Ok(JObject(members.value)) else Err(members.error)
      case Dictionary(key, value) =>
        if !v.DictValue? then Err(Internal)
        else
          var k := DictionaryKeyToUsize(key, v.key);
          if k.Err? then Err(k.error)
          else if k.value >= |v.values| then Err(Internal)
          else ToJson(value, v.values[k.value])
      case Map(_) => Ok(JUnsupported(t))
      case Other(_) => Ok(JUnsupported(t))
  }

  function ItemsToJson(elem: ArrowType, items: seq<Value>, n: nat): Result<seq<Json>, ErrorKind>
    requires n <= |items|
    decreases elem, 1, n
  {
    if n == 0 then Ok([])
    else
      var before := ItemsToJson(elem, items, n - 1);
      if before.Err? then before
      else
        var j := ToJson(elem, items[n - 1]);
        if j.Ok? then Ok(before.value + [j.value]) else Err(j.error)
  }

  function FieldsToJson(fields: seq<Field>, vals: seq<Value>, n: nat): Result<map<string, Json>, ErrorKind>
    requires n <= |fields| == |vals|
    decreases fields, 1, n
  {
    if n == 0 then Ok(map[])
    else
      var before := FieldsToJson(fields, vals, n - 1);
      if before.Err? then before
      else
        var j := ToJson(fields[n - 1].dataType, vals[n - 1]);
        if j.Ok? then Ok(before.value[fields[n - 1].name := j.value]) else Err(j.error)
  }

  // ----- arrow_value_to_datum -----

  function UnixMicros(unit: TimeUnit, x: int): int {
    match unit
    case Second => SaturatingMul(x, 1_000_000)
    case Millisecond => SaturatingMul(x, 1_000)
    case Microsecond => x
    case Nanosecond => TruncDiv(x, 1_000)
  }

  /** Microseconds since 2000-01-01; the subtraction is unchecked. */
  function PgMicros(unit: TimeUnit, x: int): int {
    Wrap64(UnixMicros(unit, x) - EPOCH_MICROS)
  }

  function PrimToCell(lim: Limits, p: Primitive, v: Value): Result<Cell, ErrorKind> {
    match p
    case Boolean => if v.Bool? then Ok(DBool(v.b)) else Err(Internal)
    case Int8 | UInt8 | Int16 => if v.Int? then Ok(DInt(PgInt2, v.i)) else Err(Internal)
    case UInt16 | Int32 => if v.Int? then Ok(DInt(PgInt4, v.i)) else Err(Internal)
    case UInt32 | Int64 => if v.Int? then Ok(DInt(PgInt8, v.i)) else Err(Internal)
    case UInt64 =>
      if !v.Int? then Err(Internal)
      else if v.i > I64_MAX then Err(ValueOutOfRange)
      else Ok(DInt(PgInt8, v.i))
    case Float16 | Float32 => if v.Flt? then Ok(DFloat(PgFloat4, v.f)) else Err(Internal)
    case Float64 => if v.Flt? then Ok(DFloat(PgFloat8, v.f)) else Err(Internal)
    case Utf8 | LargeUtf8 => if v.Text? then Ok(DText(v.s)) else Err(Internal)
    case Binary | LargeBinary | FixedSizeBinary(_) => if v.Bytes? then Ok(DBytea(v.bytes)) else Err(Internal)
    case Date32 =>
      if !v.Int? then Err(Internal)
      else if !Within(v.i, lim.chronoDays) then Err(ValueOutOfRange)
      else if !Within(v.i, lim.pgDays) then Err(Internal)
      else Ok(DDate(v.i))
    case Date64 =>
      if !v.Int? then Err(Internal)
      else if !Within(v.i, lim.chronoMillis) then Err(ValueOutOfRange)
      else if !Within(v.i / MILLIS_PER_DAY, lim.pgDays) then Err(Internal)
      else Ok(DDate(v.i / MILLIS_PER_DAY))
    case Timestamp(unit, tz) =>
      if !v.Int? then Err(Internal)
      else if !Within(PgMicros(unit, v.i), lim.pgMicros) then Err(ValueOutOfRange)
      else Ok(DTimestamp(tz, PgMicros(unit, v.i)))
    case Decimal128(_, scale) => if v.Int? then Ok(DNumeric(v.i, scale)) else Err(Internal)
    case Decimal256(_, scale) => if v.Int? then Ok(DNumeric(v.i, scale)) else Err(Internal)
  }

  function JsonbDatum(j: Result<Json, ErrorKind>): Result<Cell, ErrorKind> {
    if j.Ok? then Ok(DJsonb(j.value)) else Err(j.error)
  }

  function JsonCell(t: ArrowType, v: Value): Result<Cell, ErrorKind> {
    JsonbDatum(ToJson(t, v))
  }

  function ToCell(lim: Limits, t: ArrowType, v: Value, target: PgType): Result<Cell, ErrorKind>
    decreases t, 0, 0
  {
    if v.Null? then Ok(NullCell)
    else
      match t
      case Prim(p) =>
        if target != Base(RequiredBase(p)) then Err(TypeMismatch) else PrimToCell(lim, p, v)
      case Dictionary(key, value) =>
        if !v.DictValue? then Err(Internal)
        else
          var k := DictionaryKeyToUsize(key, v.key);
          if k.Err? then Err(k.error)
          else if k.value >= |v.values| then Err(Internal)
          else ToCell(lim, value, v.values[k.value], target)
      case List(_, elem) =>
        if !target.ArrayOf? then
          if target == JSONB then JsonCell(t, v) else Err(TypeMismatch)
        else if !v.ListValue? then Err(Internal)
        else
          var items := ItemsToCells(lim, elem.dataType, v.items, |v.items|, target.elem);
          if items.Ok? then Ok(DArray(target.elem, items.value)) else Err(items.error)
      case Struct(fields) =>
        if !v.StructValue? || |v.fields| != |fields| then Err(Internal)
        else if !target.Composite? then Err(TypeMismatch)
        else
          var cells := FieldsToCells(lim, fields, v.fields, target.attrs, |target.attrs|);
          if cells.Ok? then Ok(DRow(target.attrs, cells.value)) else Err(cells.error)
      case Map(_) => if target != JSONB then Err(TypeMismatch) else JsonCell(t, v)
      case Other(_) => if target != JSONB then Err(TypeMismatch) else JsonCell(t, v)
  }

  function ItemsToCells(lim: Limits, elem: ArrowType, items: seq<Value>, n: nat,
                        target: PgType): (r: Result<seq<Cell>, ErrorKind>)
    requires n <= |items|
    ensures r.Ok? ==> |r.value| == n
    decreases elem, 1, n
  {
    if n == 0 then Ok([])
    else
      var before := ItemsToCells(lim, elem, items, n - 1, target);
      if before.Err? then before
      else
        var c := ToCell(lim, elem, items[n - 1], target);
        if c.Ok? then Ok(before.value + [c.value]) else Err(c.error)
  }

  function FieldsToCells(lim: Limits, fields: seq<Field>, vals: seq<Value>, attrs: seq<Attribute>,
                         n: nat): (r: Result<seq<Cell>, ErrorKind>)
    requires |fields| == |vals| && n <= |attrs|
    ensures r.Ok? ==> |r.value| == n
    decreases fields, 1, n
  {
    if n == 0 then Ok([])
    else
      var before := FieldsToCells(lim, fields, vals, attrs, n - 1);
      var a := attrs[n - 1];
      if before.Err? then before
      else if a.dropped then Ok(before.value + [NullCell])
      else
        match FindField(fields, a.name)
        case None => Err(TypeMismatch)
        case Some(i) =>
          var c := ToCell(lim, fields[i].dataType, vals[i], a.typ);
          if c.Ok? then Ok(before.value + [c.value]) else Err(c.error)
  }

  // ----- the source's loops -----

  method ArrowValueToDatum(lim: Limits, t: ArrowType, v: Value, target: PgType) returns (r: Result<Cell, ErrorKind>)
    ensures r == ToCell(lim, t, v, target)
    decreases t, 0
  {
    if v.Null? {
      return Ok(NullCell);
    }
    match t
    case Prim(p) =>
      if target != Base(RequiredBase(p)) {
        return Err(TypeMismatch);
      }
      return PrimToCell(lim, p, v);
    case Dictionary(key, value) =>
      if !v.DictValue? {
        return Err(Internal);
      }
      var k :- DictionaryKeyToUsize(key, v.key);
      if k >= |v.values| {
        return Err(Internal);
      }
      r := ArrowValueToDatum(lim, value, v.values[k], target);
    case List(_, elem) =>
      if !target.ArrayOf? {
        if target == JSONB {
          var json := ArrowValueToJson(t, v);
          return JsonbDatum(json);
        }
        return Err(TypeMismatch);
      }
      if !v.ListValue? {
        return Err(Internal);
      }
      r := ArrayValuesToPgArray(lim, elem.dataType, v.items, target.elem);
    case Struct(fields) =>
      if !v.StructValue? || |v.fields| != |fields| {
        return Err(Internal);
      }
      r := StructToCompositeDatum(lim, fields, v.fields, target);
    case Map(_) =>
      if target != JSONB {
        return Err(TypeMismatch);
      }
      var json := ArrowValueToJson(t, v);
      return JsonbDatum(json);
    case Other(_) =>
      if target != JSONB {
        return Err(TypeMismatch);
      }
      var json := ArrowValueToJson(t, v);
      return JsonbDatum(json);
  }

  method ArrayValuesToPgArray(lim: Limits, elem: ArrowType, values: seq<Value>, elemTarget: PgType)
    returns (r: Result<Cell, ErrorKind>)
    ensures var items := ItemsToCells(lim, elem, values, |values|, elemTarget);
            r == if items.Ok? then Ok(DArray(elemTarget, items.value)) else Err(items.error)
    decreases elem, 1
  {
    var datums: seq<Cell> := [];
    for i := 0 to |values|
      invariant ItemsToCells(lim, elem, values, i, elemTarget) == Ok(datums)
    {
      var d := ArrowValueToDatum(lim, elem, values[i], elemTarget);
      if d.Err? {
        ItemsErrorStays(lim, elem, values, i + 1, |values|, elemTarget);
        return Err(d.error);
      }
      datums := datums + [d.value];
    }
    r := Ok(DArray(elemTarget, datums));
  }

  lemma {:induction false} ItemsErrorStays(lim: Limits, elem: ArrowType, items: seq<Value>, i: nat, n: nat,
                                           target: PgType)
    requires i <= n <= |items| && ItemsToCells(lim, elem, items, i, target).Err?
    ensures ItemsToCells(lim, elem, items, n, target) == ItemsToCells(lim, elem, items, i, target)
    decreases n
  {
    if i < n {
      ItemsErrorStays(lim, elem, items, i, n - 1, target);
    }
  }

  method StructToCompositeDatum(lim: Limits, fields: seq<Field>, vals: seq<Value>, target: PgType)
    returns (r: Result<Cell, ErrorKind>)
    requires |vals| == |fields|
    ensures target.Composite? ==>
              var cells := FieldsToCells(lim, fields, vals, target.attrs, |target.attrs|);
              r == if cells.Ok? then Ok(DRow(target.attrs, cells.value)) else Err(cells.error)
    ensures !target.Composite? ==> r == Err(TypeMismatch)
    decreases fields, 1
  {
    if !target.Composite? {
      return Err(TypeMismatch);
    }
    var attrs := target.attrs;
    var values: seq<Cell> := [];
    for i := 0 to |attrs|
      invariant FieldsToCells(lim, fields, vals, attrs, i) == Ok(values)
    {
      if attrs[i].dropped {
        values := values + [NullCell];
        continue;
      }
      var idx := FindField(fields, attrs[i].name);
      if idx.None? {
        FieldsErrorStays(lim, fields, vals, attrs, i + 1, |attrs|);
        return Err(TypeMismatch);
      }
      var d := ArrowValueToDatum(lim, fields[idx.value].dataType, vals[idx.value], attrs[i].typ);
      if d.Err? {
        FieldsErrorStays(lim, fields, vals, attrs, i + 1, |attrs|);
        return Err(d.error);
      }
      values := values + [d.value];
    }
    r := Ok(DRow(attrs, values));
  }

  lemma {:induction false} FieldsErrorStays(lim: Limits, fields: seq<Field>, vals: seq<Value>, attrs: seq<Attribute>,
                                            i: nat, n: nat)
    requires |fields| == |vals| && i <= n <= |attrs| && FieldsToCells(lim, fields, vals, attrs, i).Err?
    ensures FieldsToCells(lim, fields, vals, attrs, n) == FieldsToCells(lim, fields, vals, attrs, i)
    decreases n
  {
    if i < n {
      FieldsErrorStays(lim, fields, vals, attrs, i, n - 1);
    }
  }

  method ArrowValueToJson(t: ArrowType, v: Value) returns (r: Result<Json, ErrorKind>)
    ensures r == ToJson(t, v)
    decreases t
  {
    if v.Null? {
      return Ok(JNull);
    }
    match t
    case Prim(p) =>
      return PrimToJson(p, v);
    case List(_, elem) =>
      if !v.ListValue? {
        return Err(Internal);
      }
      var out: seq<Json> := [];
      for i := 0 to |v.items|
        invariant ItemsToJson(elem.dataType, v.items, i) == Ok(out)
      {
        var j := ArrowValueToJson(elem.dataType, v.items[i]);
        if j.Err? {
          JsonItemsErrorStays(elem.dataType, v.items, i + 1, |v.items|);
          return Err(j.error);
        }
        out := out + [j.value];
      }
      return Ok(JArray(out));
    case Struct(fields) =>
      if !v.StructValue? || |v.fields| != |fields| {
        return Err(Internal);
      }
      var members: map<string, Json> := map[];
      for i := 0 to |fields|
        invariant FieldsToJson(fields, v.fields, i) == Ok(members)
      {
        var j := ArrowValueToJson(fields[i].dataType, v.fields[i]);
        if j.Err? {
          JsonFieldsErrorStays(fields, v.fields, i + 1, |fields|);
          return Err(j.error);
        }
        members := members[fields[i].name := j.value];
      }
      return Ok(JObject(members));
    case Dictionary(key, value) =>
      if !v.DictValue? {
        return Err(Internal);
      }
      var k :- DictionaryKeyToUsize(key, v.key);
      if k >= |v.values| {
        return Err(Internal);
      }
      r := ArrowValueToJson(value, v.values[k]);
    case Map(_) =>
      return Ok(JUnsupported(t));
    case Other(_) =>
      return Ok(JUnsupported(t));
  }

  lemma {:induction false} JsonItemsErrorStays(elem: ArrowType, items: seq<Value>, i: nat, n: nat)
    requires i <= n <= |items| && ItemsToJson(elem, items, i).Err?
    ensures ItemsToJson(elem, items, n) == ItemsToJson(elem, items, i)
    decreases n
  {
    if i < n {
      JsonItemsErrorStays(elem, items, i, n - 1);
    }
  }

  lemma {:induction false} JsonFieldsErrorStays(fields: seq<Field>, vals: seq<Value>, i: nat, n: nat)
    requires i <= n <= |fields| == |vals| && FieldsToJson(fields, vals, i).Err?
    ensures FieldsToJson(fields, vals, n) == FieldsToJson(fields, vals, i)
    decreases n
  {
    if i < n {
      JsonFieldsErrorStays(fields, vals, i, n - 1);
    }
  }
}
