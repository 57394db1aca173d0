/** The type soundness of scans: what validation accepts, conversion never rejects on type
    grounds (src/fdw/convert.rs:83-206, 208-741, 784-879). */
module TypeSafety {
  import opened Wrappers
  import opened Machine
  import opened Arrow
  import opened Convert
  import opened JsonMeaning

  // ----- what a converted value is -----

  predicate InBaseRange(b: PgBase, i: int) {
    match b
    case PgInt2 => -0x8000 <= i < 0x8000
    case PgInt4 => -0x8000_0000 <= i < 0x8000_0000
    case PgInt8 => InI64(i)
    case _ => false
  }

  /** `c` is a value of the PostgreSQL type `target`. */
  predicate HasType(lim: Limits, c: Cell, target: PgType)
    decreases c
  {
    match c
    case NullCell => true
    case DBool(_) => target == Base(PgBool)
    case DInt(b, i) => target == Base(b) && InBaseRange(b, i)
    case DFloat(b, _) => target == Base(b) && (b == PgFloat4 || b == PgFloat8)
    case DText(_) => target == Base(PgText)
    case DBytea(_) => target == Base(PgBytea)
    case DDate(days) => target == Base(PgDate) && Within(days, lim.pgDays)
    case DTimestamp(tz, micros) =>
      target == Base(if tz then PgTimestampTz else PgTimestamp) && Within(micros, lim.pgMicros)
    case DNumeric(_, _) => target == Base(PgNumeric)
    case DJsonb(_) => target == JSONB
    case DArray(elem, items) =>
      target == ArrayOf(elem) && forall i | 0 <= i < |items| :: HasType(lim, items[i], elem)
    case DRow(attrs, cells) =>
      && target.Composite? && target.attrs == attrs && |cells| == |attrs|
      && forall i | 0 <= i < |cells| ::
           if attrs[i].dropped then cells[i] == NullCell else HasType(lim, cells[i], attrs[i].typ)
  }

  /** `c` denotes the same value as `v`; timestamps agree modulo 2^64 microseconds. */
  predicate PrimDenotes(p: Primitive, v: Value, c: Cell) {
    match p
    case Boolean => v.Bool? && c == DBool(v.b)
    case Float16 | Float32 | Float64 => v.Flt? && c.DFloat? && c.f == v.f
    case Utf8 | LargeUtf8 => v.Text? && c == DText(v.s)
    case Binary | LargeBinary | FixedSizeBinary(_) => v.Bytes? && c == DBytea(v.bytes)
    case Date32 => v.Int? && c == DDate(v.i)
    case Date64 => v.Int? && c.DDate? && c.days * MILLIS_PER_DAY <= v.i < (c.days + 1) * MILLIS_PER_DAY
    case Timestamp(unit, tz) =>
      v.Int? && c.DTimestamp? && c.tz == tz && (UnixMicros(unit, v.i) - EPOCH_MICROS - c.micros) % TWO_64 == 0
    case Decimal128(_, scale) => v.Int? && c == DNumeric(v.i, scale)
    case Decimal256(_, scale) => v.Int? && c == DNumeric(v.i, scale)
    case _ => v.Int? && c.DInt? && c.i == v.i
  }

  predicate Denotes(t: ArrowType, v: Value, c: Cell)
    decreases t
  {
    if v.Null? then c == NullCell
    else
      match t
      case Prim(p) => PrimDenotes(p, v, c)
      case Dictionary(_, value) =>
        v.DictValue? && 0 <= v.key < |v.values| && Denotes(value, v.values[v.key], c)
      case List(_, elem) =>
        || (c.DJsonb? && JsonDenotes(t, v, c.json))
        || (&& v.ListValue? && c.DArray? && |c.items| == |v.items|
            && forall i | 0 <= i < |v.items| :: Denotes(elem.dataType, v.items[i], c.items[i]))
      case Struct(fields) =>
        && v.StructValue? && c.DRow? && |c.cells| == |c.attrs| && |v.fields| == |fields|
        && forall k | 0 <= k < |c.attrs| && !c.attrs[k].dropped ::
             var i := FindField(fields, c.attrs[k].name);
             i.Some? && Denotes(fields[i.value].dataType, v.fields[i.value], c.cells[k])
      case _ => c.DJsonb? && JsonDenotes(t, v, c.json)
  }

  // ----- soundness -----

  ghost predicate Sound(lim: Limits, t: ArrowType, v: Value, target: PgType)
  {
    var r := ToCell(lim, t, v, target);
    NotATypeError(r) && (r.Ok? ==> HasType(lim, r.value, target) && Denotes(t, v, r.value))
  }

  lemma {:induction false} PrimIsSound(lim: Limits, p: Primitive, v: Value)
    requires PrimTyped(p, v)
    ensures Sound(lim, Prim(p), v, Base(RequiredBase(p)))
  {
    match p
    case Timestamp(unit, tz) => TimestampIsSound(lim, unit, tz, v);
    case _ =>
  }

  lemma {:induction false} TimestampIsSound(lim: Limits, unit: TimeUnit, tz: bool, v: Value)
    requires PrimTyped(Timestamp(unit, tz), v)
    ensures Sound(lim, Prim(Timestamp(unit, tz)), v, Base(RequiredBase(Timestamp(unit, tz))))
  {
  }

  /** What validation would accept if it knew which values exist: a list fixed at length zero has no
      elements, and a dictionary whose keys are not integers has no values. */
  predicate Convertible(t: ArrowType, target: PgType)
    decreases t, 0
  {
    match t
    case Prim(p) => target == Base(RequiredBase(p))
    case Dictionary(key, value) => IsKeyType(key) ==> Convertible(value, target)
    case List(kind, elem) =>
      target == JSONB || (target.ArrayOf? && (kind == Fixed(0) || Convertible(elem.dataType, target.elem)))
    case Struct(fields) => target.Composite? && ConvertibleAttrs(fields, target.attrs, |target.attrs|)
    case Map(_) => target == JSONB
    case Other(_) => target == JSONB
  }

  predicate ConvertibleAttrs(fields: seq<Field>, attrs: seq<Attribute>, n: nat)
    requires n <= |attrs|
    decreases fields, n
  {
    n > 0 ==>
      && ConvertibleAttrs(fields, attrs, n - 1)
      && (attrs[n - 1].dropped ||
          var i := FindField(fields, attrs[n - 1].name);
          i.Some? && Convertible(fields[i.value].dataType, attrs[n - 1].typ))
  }

  lemma {:induction false} AcceptedIsConvertible(t: ArrowType, target: PgType)
    requires Validate(t, target).Ok?
    ensures Convertible(t, target)
    decreases t, 0
  {
    match t
    case Dictionary(_, value) => AcceptedIsConvertible(value, target);
    case List(_, elem) =>
      if target.ArrayOf? {
        AcceptedIsConvertible(elem.dataType, target.elem);
      }
    case Struct(fields) => AcceptedAttrsAreConvertible(fields, target.attrs, |target.attrs|);
    case _ =>
  }

  lemma {:induction false} AcceptedAttrsAreConvertible(fields: seq<Field>, attrs: seq<Attribute>, n: nat)
    requires n <= |attrs| && ValidateAttrs(fields, attrs, n).Ok?
    ensures ConvertibleAttrs(fields, attrs, n)
    decreases fields, n
  {
    if n > 0 {
      AcceptedAttrsAreConvertible(fields, attrs, n - 1);
      var i := FindField(fields, attrs[n - 1].name);
      if !attrs[n - 1].dropped {
        AcceptedIsConvertible(fields[i.value].dataType, attrs[n - 1].typ);
      }
    }
  }

  /** Type soundness: for every type, target and well-formed value that validation accepts,
      conversion either yields a value of the target type that denotes the Arrow value, or
      fails with a range or internal error; never with a type error. */
  lemma {:induction false} ConversionIsSound(lim: Limits, t: ArrowType, v: Value, target: PgType)
    requires Validate(t, target).Ok? && WellTyped(v, t)
    ensures Sound(lim, t, v, target)
  {
    AcceptedIsConvertible(t, target);
    ConvertibleIsSound(lim, t, v, target);
  }

  lemma {:induction false} ConvertibleIsSound(lim: Limits, t: ArrowType, v: Value, target: PgType)
    requires Convertible(t, target) && WellTyped(v, t)
    ensures Sound(lim, t, v, target)
    decreases t, 0, 0
  {
    if !v.Null? {
      match t
      case Prim(p) => PrimIsSound(lim, p, v);
      case Dictionary(key, value) =>
        var k := DictionaryKeyToUsize(key, v.key);
        if k.Ok? && k.value < |v.values| {
          ConvertibleIsSound(lim, value, v.values[k.value], target);
        }
      case List(_, elem) =>
        if target == JSONB {
          JsonIsMeant(t, v);
        } else {
          ItemsAreSound(lim, elem.dataType, v.items, |v.items|, target.elem);
        }
      case Struct(fields) => FieldsAreSound(lim, fields, v.fields, target.attrs, |target.attrs|);
      case Map(_) => JsonIsMeant(t, v);
      case Other(_) => JsonIsMeant(t, v);
    }
  }

  lemma {:induction false} ItemsAreSound(lim: Limits, elem: ArrowType, items: seq<Value>, n: nat, target: PgType)
    requires n <= |items| && (n > 0 ==> Convertible(elem, target))
    requires forall i | 0 <= i < |items| :: WellTyped(items[i], elem)
    ensures var r := ItemsToCells(lim, elem, items, n, target);
            && NotATypeError(r)
            && (r.Ok? ==> forall i | 0 <= i < n ::
              HasType(lim, r.value[i], target) && Denotes(elem, items[i], r.value[i]))
    decreases elem, 1, n
  {
    if n > 0 {
      ItemsAreSound(lim, elem, items, n - 1, target);
      ConvertibleIsSound(lim, elem, items[n - 1], target);
    }
  }

  lemma {:induction false} FieldsAreSound(lim: Limits, fields: seq<Field>, vals: seq<Value>, attrs: seq<Attribute>,
                                          n: nat)
    requires |fields| == |vals| && n <= |attrs| && ConvertibleAttrs(fields, attrs, n)
    requires forall i | 0 <= i < |fields| :: WellTyped(vals[i], fields[i].dataType)
    ensures var r := FieldsToCells(lim, fields, vals, attrs, n);
            && NotATypeError(r)
            && (r.Ok? ==> forall k | 0 <= k < n ::
                  if attrs[k].dropped then r.value[k] == NullCell
                  else
                    var i := FindField(fields, attrs[k].name);
                    && HasType(lim, r.value[k], attrs[k].typ)
                    && i.Some? && Denotes(fields[i.value].dataType, vals[i.value], r.value[k]))
    decreases fields, 1, n
  {
    if n > 0 {
      FieldsAreSound(lim, fields, vals, attrs, n - 1);
      var i := FindField(fields, attrs[n - 1].name);
      if !attrs[n - 1].dropped && i.Some? {
        ConvertibleIsSound(lim, fields[i.value].dataType, vals[i.value], attrs[n - 1].typ);
      }
    }
  }

  // ----- where validation is not stricter than conversion -----

  function SamplePrim(p: Primitive): Value {
    match p
    case Boolean => Bool(false)
    case Float16 | Float32 | Float64 => Flt(NaN)
    case Utf8 | LargeUtf8 => Text("")
    case Binary | LargeBinary => Bytes([])
    case FixedSizeBinary(w) => Bytes(seq(w, i => 0))
    case _ => Int(0)
  }

  /** A value with as few nulls and empty lists as the type allows. */
  function Sample(t: ArrowType): Value {
    match t
    case Prim(p) => SamplePrim(p)
    case List(kind, elem) => ListValue(seq(if kind.Fixed? then kind.size else 1, i => Sample(elem.dataType)))
    case Struct(fields) => StructValue(seq(|fields|, i requires 0 <= i < |fields| => Sample(fields[i].dataType)))
    case Dictionary(key, value) => if IsKeyType(key) then DictValue(0, [Sample(value)]) else Null
    case _ => OtherValue(0)
  }

  lemma {:induction false} SampleIsWellTyped(t: ArrowType)
    ensures WellTyped(Sample(t), t)
  {
    match t
    case List(_, elem) => SampleIsWellTyped(elem.dataType);
    case Struct(fields) =>
      forall i | 0 <= i < |fields| ensures WellTyped(Sample(fields[i].dataType), fields[i].dataType) {
        SampleIsWellTyped(fields[i].dataType);
      }
    case Dictionary(_, value) => SampleIsWellTyped(value);
    case _ =>
  }

  /** The limits accept the Unix epoch. */
  predicate AcceptsEpoch(lim: Limits) {
    && Within(0, lim.chronoDays) && Within(0, lim.chronoMillis) && Within(0, lim.pgDays)
    && Within(-EPOCH_MICROS, lim.pgMicros)
  }

  lemma {:induction false} SampleJson(t: ArrowType)
    ensures ToJson(t, Sample(t)).Ok?
    decreases t, 0, 0
  {
    match t
    case List(_, elem) =>
      var items := Sample(t).items;
      SampleJsonItems(elem.dataType, items, |items|);
    case Struct(fields) => SampleJsonFields(fields, Sample(t).fields, |fields|);
    case Dictionary(_, value) => SampleJson(value);
    case _ =>
  }

  lemma {:induction false} SampleJsonItems(elem: ArrowType, items: seq<Value>, n: nat)
    requires n <= |items| && forall i | 0 <= i < |items| :: items[i] == Sample(elem)
    ensures ItemsToJson(elem, items, n).Ok?
    decreases elem, 1, n
  {
    if n > 0 {
      SampleJsonItems(elem, items, n - 1);
      SampleJson(elem);
    }
  }

  lemma {:induction false} SampleJsonFields(fields: seq<Field>, vals: seq<Value>, n: nat)
    requires n <= |fields| == |vals|
    requires forall i | 0 <= i < |fields| :: vals[i] == Sample(fields[i].dataType)
    ensures FieldsToJson(fields, vals, n).Ok?
    decreases fields, 1, n
  {
    if n > 0 {
      SampleJsonFields(fields, vals, n - 1);
      SampleJson(fields[n - 1].dataType);
    }
  }

  /** For every type, converting the sample decides the type question: it succeeds if the pair is
      convertible, and is a type mismatch if not. */
  lemma {:induction false} SampleDecides(lim: Limits, t: ArrowType, target: PgType)
    requires AcceptsEpoch(lim)
    ensures var r := ToCell(lim, t, Sample(t), target);
            if Convertible(t, target) then r.Ok? else r == Err(TypeMismatch)
    decreases t, 0, 0
  {
    match t
    case Prim(p) =>
    case Dictionary(key, value) =>
      if IsKeyType(key) {
        SampleDecides(lim, value, target);
      }
    case List(kind, elem) =>
      if target == JSONB {
        SampleJson(t);
      } else if target.ArrayOf? {
        var items := Sample(t).items;
        SampleItems(lim, elem.dataType, items, |items|, target.elem);
      }
    case Struct(fields) =>
      if target.Composite? {
        SampleFields(lim, fields, Sample(t).fields, target.attrs, |target.attrs|);
      }
    case Map(_) =>
    case Other(_) =>
  }

  lemma {:induction false} SampleItems(lim: Limits, elem: ArrowType, items: seq<Value>, n: nat, target: PgType)
    requires AcceptsEpoch(lim)
    requires n <= |items| && forall i | 0 <= i < |items| :: items[i] == Sample(elem)
    ensures var r := ItemsToCells(lim, elem, items, n, target);
            if n == 0 || Convertible(elem, target) then r.Ok? else r == Err(TypeMismatch)
    decreases elem, 1, n
  {
    if n > 0 {
      SampleItems(lim, elem, items, n - 1, target);
      SampleDecides(lim, elem, target);
    }
  }

  lemma {:induction false} SampleFields(lim: Limits, fields: seq<Field>, vals: seq<Value>, attrs: seq<Attribute>,
                                        n: nat)
    requires AcceptsEpoch(lim) && |fields| == |vals| && n <= |attrs|
    requires forall i | 0 <= i < |fields| :: vals[i] == Sample(fields[i].dataType)
    ensures var r := FieldsToCells(lim, fields, vals, attrs, n);
            if ConvertibleAttrs(fields, attrs, n) then r.Ok? else r == Err(TypeMismatch)
    decreases fields, 1, n
  {
    if n > 0 {
      SampleFields(lim, fields, vals, attrs, n - 1);
      var i := FindField(fields, attrs[n - 1].name);
      if !attrs[n - 1].dropped && i.Some? {
        SampleDecides(lim, fields[i.value].dataType, attrs[n - 1].typ);
      }
    }
  }

  /** No well-formed value of the type is rejected on type grounds. */
  ghost predicate NeverMismatches(lim: Limits, t: ArrowType, target: PgType)
  {
    forall v | WellTyped(v, t) :: NotATypeError(ToCell(lim, t, v, target))
  }

  lemma {:induction false} ConvertibleIff(lim: Limits, t: ArrowType, target: PgType)
    requires AcceptsEpoch(lim)
    ensures Convertible(t, target) <==> NeverMismatches(lim, t, target)
  {
    if Convertible(t, target) {
      forall v | WellTyped(v, t) ensures NotATypeError(ToCell(lim, t, v, target)) {
        ConvertibleIsSound(lim, t, v, target);
      }
    } else {
      SampleIsWellTyped(t);
      SampleDecides(lim, t, target);
      assert !NotATypeError(ToCell(lim, t, Sample(t), target));
    }
  }

  /** Dictionary keys are integers and no list is fixed at length zero, leaving aside fields that
      another one of the same name hides. */
  predicate Inhabited(t: ArrowType) {
    match t
    case List(kind, elem) => kind != Fixed(0) && Inhabited(elem.dataType)
    case Struct(fields) =>
      forall i | 0 <= i < |fields| && FindField(fields, fields[i].name) == Some(i) :: Inhabited(fields[i].dataType)
    case Dictionary(key, value) => IsKeyType(key) && Inhabited(value)
    case _ => true
  }

  lemma {:induction false} InhabitedAreAccepted(t: ArrowType, target: PgType)
    requires Inhabited(t) && Convertible(t, target)
    ensures Validate(t, target).Ok?
    decreases t, 0
  {
    match t
    case Dictionary(_, value) => InhabitedAreAccepted(value, target);
    case List(_, elem) =>
      if target.ArrayOf? {
        InhabitedAreAccepted(elem.dataType, target.elem);
      }
    case Struct(fields) => InhabitedAttrsAreAccepted(fields, target.attrs, |target.attrs|);
    case _ =>
  }

  lemma {:induction false} InhabitedAttrsAreAccepted(fields: seq<Field>, attrs: seq<Attribute>, n: nat)
    requires n <= |attrs| && Inhabited(Struct(fields)) && ConvertibleAttrs(fields, attrs, n)
    ensures ValidateAttrs(fields, attrs, n).Ok?
    decreases fields, n
  {
    if n > 0 {
      InhabitedAttrsAreAccepted(fields, attrs, n - 1);
      if !attrs[n - 1].dropped {
        var i := FindField(fields, attrs[n - 1].name);
        assert fields[i.value].name == attrs[n - 1].name;
        InhabitedAreAccepted(fields[i.value].dataType, attrs[n - 1].typ);
      }
    }
  }

  /** A target that validation rejects for every type. */
  const NOWHERE: PgType := Base(PgOtherBase(0))

  /** A target that validation rejects although no value is. */
  lemma {:induction false} UninhabitedIsRejected(t: ArrowType) returns (target: PgType)
    requires !Inhabited(t)
    ensures Convertible(t, target) && Validate(t, target).Err?
    decreases t
  {
    match t
    case Dictionary(key, value) =>
      if IsKeyType(key) {
        target := UninhabitedIsRejected(value);
      } else {
        target := NOWHERE;
        NowhereIsRejected(value);
      }
    case List(kind, elem) =>
      if kind == Fixed(0) {
        target := ArrayOf(NOWHERE);
        NowhereIsRejected(elem.dataType);
      } else {
        var inner := UninhabitedIsRejected(elem.dataType);
        target := ArrayOf(inner);
      }
    case Struct(fields) =>
      var i :| 0 <= i < |fields| && FindField(fields, fields[i].name) == Some(i) && !Inhabited(fields[i].dataType);
      var inner := UninhabitedIsRejected(fields[i].dataType);
      target := Composite("", [Attribute(fields[i].name, inner, false)]);
      OneAttr(fields, target.attrs, i);
  }

  lemma {:induction false} NowhereIsRejected(t: ArrowType)
    ensures Validate(t, NOWHERE).Err?
    decreases t
  {
    match t
    case Dictionary(_, value) => NowhereIsRejected(value);
    case _ =>
  }

  lemma {:induction false} OneAttr(fields: seq<Field>, attrs: seq<Attribute>, i: nat)
    requires |attrs| == 1 && !attrs[0].dropped && i < |fields| && FindField(fields, attrs[0].name) == Some(i)
    ensures ValidateAttrs(fields, attrs, 1) == Validate(fields[i].dataType, attrs[0].typ)
    ensures ConvertibleAttrs(fields, attrs, 1) <==> Convertible(fields[i].dataType, attrs[0].typ)
  {
    assert ValidateAttrs(fields, attrs, 0).Ok? && ConvertibleAttrs(fields, attrs, 0);
  }

  /** Validation accepts a pair only if no well-formed value is rejected on type grounds, and the
      converse holds for all targets exactly if the type is inhabited throughout. */
  lemma {:induction false} ValidationIsExactIff(lim: Limits, t: ArrowType)
    requires AcceptsEpoch(lim)
    ensures forall target | Validate(t, target).Ok? :: NeverMismatches(lim, t, target)
    ensures (forall target | NeverMismatches(lim, t, target) :: Validate(t, target).Ok?) <==> Inhabited(t)
  {
    forall target
      ensures Validate(t, target).Ok? ==> NeverMismatches(lim, t, target)
      ensures Inhabited(t) && NeverMismatches(lim, t, target) ==> Validate(t, target).Ok?
    {
      ConvertibleIff(lim, t, target);
      if Validate(t, target).Ok? {
        AcceptedIsConvertible(t, target);
      }
      if Inhabited(t) && Convertible(t, target) {
        InhabitedAreAccepted(t, target);
      }
    }
    if !Inhabited(t) {
      var target := UninhabitedIsRejected(t);
      ConvertibleIff(lim, t, target);
      assert NeverMismatches(lim, t, target) && !Validate(t, target).Ok?;
    }
  }

  /** Lists of no integers could be shown as arrays of text, and are rejected. */
  lemma {:induction false} EmptyListsAreRejected(lim: Limits)
    requires AcceptsEpoch(lim)
    ensures var t, target := List(Fixed(0), Field("item", Prim(Int32))), ArrayOf(Base(PgText));
            NeverMismatches(lim, t, target) && Validate(t, target) == Err(TypeMismatch)
  {
    ConvertibleIff(lim, List(Fixed(0), Field("item", Prim(Int32))), ArrayOf(Base(PgText)));
  }

  // ----- timestamps -----

  /** The range of PostgreSQL's timestamps, in microseconds since 2000-01-01. */
  const PG_TIMESTAMPS: (int, int) := (-211_813_488_000_000_000, 9_223_371_331_199_999_999)

  /** What a scan makes of a timestamp. */
  function ShownTimestamp(lim: Limits, unit: TimeUnit, tz: bool, x: int): Result<Cell, ErrorKind> {
    ToCell(lim, Prim(Timestamp(unit, tz)), Int(x), Base(if tz then PgTimestampTz else PgTimestamp))
  }

  /** The unchecked shift to PostgreSQL's epoch wraps for this value. */
  predicate Wraps(unit: TimeUnit, x: int) {
    UnixMicros(unit, x) < I64_MIN + EPOCH_MICROS
  }

  lemma {:induction false} ShiftedMicros(unit: TimeUnit, x: int)
    requires InI64(x)
    ensures InI64(UnixMicros(unit, x))
    ensures PgMicros(unit, x) == UnixMicros(unit, x) - EPOCH_MICROS + (if Wraps(unit, x) then TWO_64 else 0)
  {
  }

  function NanosPer(unit: TimeUnit): int {
    match unit
    case Second => 1_000_000_000
    case Millisecond => 1_000_000
    case Microsecond => 1_000
    case Nanosecond => 1
  }

  /** `x` is a whole number of microseconds, and both that number and its shift fit 64 bits. */
  predicate Representable(unit: TimeUnit, x: int) {
    var nanos := x * NanosPer(unit);
    nanos % 1_000 == 0 && InI64(nanos / 1_000) && InI64(nanos / 1_000 - EPOCH_MICROS)
  }

  lemma {:induction false} ShiftIsExactIff(unit: TimeUnit, x: int)
    requires InI64(x)
    ensures PgMicros(unit, x) * 1_000 == x * NanosPer(unit) - EPOCH_MICROS * 1_000 <==> Representable(unit, x)
  {
    ShiftedMicros(unit, x);
  }

  /** A timestamp of any unit is shown as the exact instant if and only if it is a whole number of
      microseconds, scaling and shifting stay within 64 bits, and PostgreSQL has the instant. */
  lemma {:induction false} TimestampExactIff(lim: Limits, unit: TimeUnit, tz: bool, x: int)
    requires InI64(x)
    ensures var c := ShownTimestamp(lim, unit, tz, x);
            c.Ok? && c.value.micros * 1_000 == x * NanosPer(unit) - EPOCH_MICROS * 1_000 <==>
            Representable(unit, x) && Within(x * NanosPer(unit) / 1_000 - EPOCH_MICROS, lim.pgMicros)
  {
    ShiftIsExactIff(unit, x);
  }

  /** A scan shows a timestamp as another instant than its microseconds if and only if the shift
      wraps and the wrapped value is one that PostgreSQL has; it fails if and only if
      PostgreSQL lacks the shifted value. */
  lemma {:induction false} TimestampShownWrongIff(lim: Limits, unit: TimeUnit, tz: bool, x: int)
    requires InI64(x)
    ensures var c := ShownTimestamp(lim, unit, tz, x);
            && (c.Ok? && c.value.micros != UnixMicros(unit, x) - EPOCH_MICROS <==>
                Wraps(unit, x) && Within(UnixMicros(unit, x) - EPOCH_MICROS + TWO_64, lim.pgMicros))
            && (c == Err(ValueOutOfRange) <==> !Within(PgMicros(unit, x), lim.pgMicros))
            && (c.Ok? || c == Err(ValueOutOfRange))
  {
    ShiftedMicros(unit, x);
  }

  /** With PostgreSQL's range, these are the instants of the first 30 years that 64 bits of
      microseconds can express, short of the last days: they come out in the distant future. */
  lemma {:induction false} AncientTimestampsIff(lim: Limits, unit: TimeUnit, tz: bool, x: int)
    requires InI64(x) && lim.pgMicros == PG_TIMESTAMPS
    ensures var c := ShownTimestamp(lim, unit, tz, x);
            && (c.Ok? && c.value.micros != UnixMicros(unit, x) - EPOCH_MICROS <==>
                UnixMicros(unit, x) < I64_MIN + 945_979_145_224_192)
            && (c.Ok? && c.value.micros != UnixMicros(unit, x) - EPOCH_MICROS ==>
              c.value.micros > I64_MAX - EPOCH_MICROS)
  {
    TimestampShownWrongIff(lim, unit, tz, x);
    ShiftedMicros(unit, x);
  }

  /** The earliest timestamp in seconds is shown as an instant 292 thousand years ahead. */
  lemma {:induction false} EarliestSecondIsShownWrong(lim: Limits)
    requires lim.pgMicros == PG_TIMESTAMPS
    ensures ShownTimestamp(lim, Second, false, I64_MIN) == Ok(DTimestamp(false, 9_222_425_352_054_775_808))
  {
    ShiftedMicros(Second, I64_MIN);
  }
}
