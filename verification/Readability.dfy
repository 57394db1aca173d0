/** Which values a scan can show, and why the others fail (src/fdw/convert.rs:208-879, 1105-1163). */
module Readability {
  import opened Wrappers
  import opened Machine
  import opened Arrow
  import opened Convert
  import opened JsonMeaning
  import opened TypeSafety

  // ----- primitive values -----

  /** The microseconds since 1970 that a timestamp stands for: cut towards zero, and held within 64 bits. */
  predicate IsUnixMicros(unit: TimeUnit, x: int, micros: int) {
    var nanos := x * NanosPer(unit);
    if nanos < I64_MIN * 1_000 then micros == I64_MIN
    else if nanos > I64_MAX * 1_000 + 999 then micros == I64_MAX
    else if nanos >= 0 then micros * 1_000 <= nanos < (micros + 1) * 1_000
    else (micros - 1) * 1_000 < nanos <= micros * 1_000
  }

  lemma {:induction false} UnixMicrosIs(unit: TimeUnit, x: int)
    requires InI64(x)
    ensures IsUnixMicros(unit, x, UnixMicros(unit, x))
  {
  }

  /** The microseconds since 2000 that a scan makes of it, wrapped into 64 bits. */
  ghost predicate IsPgMicros(unit: TimeUnit, x: int, micros: int)
  {
    InI64(micros) && exists unix :: IsUnixMicros(unit, x, unix) && (unix - EPOCH_MICROS - micros) % TWO_64 == 0
  }

  lemma {:induction false} PgMicrosIs(unit: TimeUnit, x: int)
    requires InI64(x)
    ensures IsPgMicros(unit, x, PgMicros(unit, x))
  {
    UnixMicrosIs(unit, x);
    var unix := UnixMicros(unit, x);
    assert IsUnixMicros(unit, x, unix) && (unix - EPOCH_MICROS - PgMicros(unit, x)) % TWO_64 == 0;
  }

  lemma {:induction false} PgMicrosAreUnique(unit: TimeUnit, x: int, a: int, b: int)
    requires IsPgMicros(unit, x, a) && IsPgMicros(unit, x, b)
    ensures a == b
  {
    var u :| IsUnixMicros(unit, x, u) && (u - EPOCH_MICROS - a) % TWO_64 == 0;
    var v :| IsUnixMicros(unit, x, v) && (v - EPOCH_MICROS - b) % TWO_64 == 0;
    assert u == v;
    SameResidue(u - EPOCH_MICROS, a, b);
  }

  /** The value is within the reader's range. */
  ghost predicate PrimReadable(lim: Limits, p: Primitive, v: Value)
  {
    match p
    case UInt64 => v.Int? && v.i < 0x8000_0000_0000_0000
    case Date32 => v.Int? && Within(v.i, lim.chronoDays) && Within(v.i, lim.pgDays)
    case Date64 =>
      && v.Int? && Within(v.i, lim.chronoMillis)
      && lim.pgDays.0 * 86_400_000 <= v.i < (lim.pgDays.1 + 1) * 86_400_000
    case Timestamp(unit, _) => v.Int? && forall m | IsPgMicros(unit, v.i, m) :: Within(m, lim.pgMicros)
    case _ => true
  }

  /** Out of range, except for dates that chrono has and PostgreSQL lacks, which are internal errors. */
  ghost predicate PrimFlawed(lim: Limits, p: Primitive, v: Value, e: ErrorKind)
  {
    && !PrimReadable(lim, p, v)
    && (e == Internal <==> v.Int? && ((p.Date32? && Within(v.i, lim.chronoDays))
                                      || (p.Date64? && Within(v.i, lim.chronoMillis))))
    && (e == Internal || e == ValueOutOfRange)
  }

  lemma {:induction false} PrimReads(lim: Limits, p: Primitive, v: Value)
    requires PrimTyped(p, v)
    ensures PrimToCell(lim, p, v).Ok? <==> PrimReadable(lim, p, v)
    ensures forall e :: PrimToCell(lim, p, v) == Err(e) <==> PrimFlawed(lim, p, v, e)
  {
    match p
    case Timestamp(unit, _) => TimestampReads(lim, unit, v.i);
    case _ =>
  }

  lemma {:induction false} TimestampReads(lim: Limits, unit: TimeUnit, x: int)
    requires InI64(x)
    ensures Within(PgMicros(unit, x), lim.pgMicros) <==>
            forall m | IsPgMicros(unit, x, m) :: Within(m, lim.pgMicros)
  {
    PgMicrosIs(unit, x);
    forall m | IsPgMicros(unit, x, m) ensures m == PgMicros(unit, x) {
      PgMicrosAreUnique(unit, x, m, PgMicros(unit, x));
    }
  }

  // ----- values of any type -----

  /** Every value met on the way is within range, and every dictionary key points to an entry. */
  ghost predicate Readable(lim: Limits, t: ArrowType, v: Value, target: PgType)
    decreases t
  {
    v.Null? ||
    match t
    case Prim(p) => PrimReadable(lim, p, v)
    case Dictionary(_, value) =>
      v.DictValue? && 0 <= v.key < |v.values| && Readable(lim, value, v.values[v.key], target)
    case List(_, elem) =>
      if target.ArrayOf? then
        v.ListValue? && forall i | 0 <= i < |v.items| :: Readable(lim, elem.dataType, v.items[i], target.elem)
      else JsonReadable(t, v)
    case Struct(fields) =>
      && v.StructValue? && |v.fields| == |fields| && target.Composite?
      && forall k | 0 <= k < |target.attrs| :: ReadableAttr(lim, fields, v.fields, target.attrs[k])
    case _ => true
  }

  ghost predicate ReadableAttr(lim: Limits, fields: seq<Field>, vals: seq<Value>, a: Attribute)
    requires |fields| == |vals|
    decreases fields
  {
    a.dropped ||
    var i := FindField(fields, a.name);
    i.Some? && Readable(lim, fields[i.value].dataType, vals[i.value], a.typ)
  }

  /** The first obstacle, in the order of the items and attributes, is of kind `e`. */
  ghost predicate Flawed(lim: Limits, t: ArrowType, v: Value, target: PgType, e: ErrorKind)
    decreases t
  {
    !v.Null? &&
    match t
    case Prim(p) => PrimFlawed(lim, p, v, e)
    case Dictionary(_, value) =>
      v.DictValue? &&
      if 0 <= v.key < |v.values| then Flawed(lim, value, v.values[v.key], target, e) else e == Internal
    case List(_, elem) =>
      if target.ArrayOf? then
        v.ListValue? && exists i :: (0 <= i < |v.items| && Flawed(lim, elem.dataType, v.items[i], target.elem, e)
                                     && forall j | 0 <= j < i :: Readable(lim, elem.dataType, v.items[j], target.elem))
      else e == Internal && !JsonReadable(t, v)
    case Struct(fields) =>
      && v.StructValue? && |v.fields| == |fields| && target.Composite?
      && exists k :: (0 <= k < |target.attrs| && FlawedAttr(lim, fields, v.fields, target.attrs[k], e)
                      && forall j | 0 <= j < k :: ReadableAttr(lim, fields, v.fields, target.attrs[j]))
    case _ => false
  }

  ghost predicate FlawedAttr(lim: Limits, fields: seq<Field>, vals: seq<Value>, a: Attribute, e: ErrorKind)
    requires |fields| == |vals|
    decreases fields
  {
    !a.dropped &&
    var i := FindField(fields, a.name);
    i.Some? && Flawed(lim, fields[i.value].dataType, vals[i.value], a.typ, e)
  }

  /** A value of a convertible type is converted exactly if it is readable, and fails with the kind of its
      first obstacle if it is not: what is shown is never lost for another reason. */
  lemma {:induction false} ReadsIff(lim: Limits, t: ArrowType, v: Value, target: PgType)
    requires Convertible(t, target) && WellTyped(v, t)
    ensures ToCell(lim, t, v, target).Ok? <==> Readable(lim, t, v, target)
    ensures forall e :: ToCell(lim, t, v, target) == Err(e) <==> Flawed(lim, t, v, target, e)
    decreases t, 0, 0
  {
    if !v.Null? {
      match t
      case Prim(p) => PrimReads(lim, p, v);
      case Dictionary(key, value) =>
        if 0 <= v.key < |v.values| {
          ReadsIff(lim, value, v.values[v.key], target);
        }
      case List(_, elem) =>
        if target.ArrayOf? {
          ItemsReadIff(lim, elem.dataType, v.items, |v.items|, target.elem);
        } else {
          JsonIsMeant(t, v);
        }
      case Struct(fields) => AttrsReadIff(lim, fields, v.fields, target.attrs, |target.attrs|);
      case Map(_) => JsonIsMeant(t, v);
      case Other(_) => JsonIsMeant(t, v);
    }
  }

  lemma {:induction false} ItemsReadIff(lim: Limits, elem: ArrowType, items: seq<Value>, n: nat, target: PgType)
    requires n <= |items| && (n > 0 ==> Convertible(elem, target))
    requires forall i | 0 <= i < |items| :: WellTyped(items[i], elem)
    ensures ItemsRead(lim, elem, items, n, target, ItemsToCells(lim, elem, items, n, target))
    decreases elem, 1, n
  {
    if n > 0 {
      ItemsReadIff(lim, elem, items, n - 1, target);
      ReadsIff(lim, elem, items[n - 1], target);
      OneMoreItem(lim, elem, items, n, target, ItemsToCells(lim, elem, items, n - 1, target),
                  ToCell(lim, elem, items[n - 1], target));
    }
  }

  ghost predicate ItemsRead(lim: Limits, elem: ArrowType, items: seq<Value>, n: nat, target: PgType,
                            r: Result<seq<Cell>, ErrorKind>)
    requires n <= |items|
  {
    && (r.Ok? <==> ItemsReadable(lim, elem, items, n, target))
    && (forall e :: r == Err(e) <==> ItemsFlawed(lim, elem, items, n, target, e))
  }

  lemma {:induction false} OneMoreItem(lim: Limits, elem: ArrowType, items: seq<Value>, n: nat, target: PgType,
                                       before: Result<seq<Cell>, ErrorKind>, c: Result<Cell, ErrorKind>)
    requires 0 < n <= |items| && ItemsRead(lim, elem, items, n - 1, target, before)
    requires c.Ok? <==> Readable(lim, elem, items[n - 1], target)
    requires forall e :: c == Err(e) <==> Flawed(lim, elem, items[n - 1], target, e)
    ensures ItemsRead(lim, elem, items, n, target,
                      if before.Err? then before else if c.Ok? then Ok(before.value + [c.value]) else Err(c.error))
  {
    ItemsStep(lim, elem, items, n, target);
  }

  ghost predicate ItemsReadable(lim: Limits, elem: ArrowType, items: seq<Value>, n: nat, target: PgType)
    requires n <= |items|
  {
    forall i | 0 <= i < n :: Readable(lim, elem, items[i], target)
  }

  ghost predicate ItemsFlawed(lim: Limits, elem: ArrowType, items: seq<Value>, n: nat, target: PgType, e: ErrorKind)
    requires n <= |items|
  {
    exists i :: 0 <= i < n && Flawed(lim, elem, items[i], target, e) && ItemsReadable(lim, elem, items, i, target)
  }

  lemma {:induction false} ItemsStep(lim: Limits, elem: ArrowType, items: seq<Value>, n: nat, target: PgType)
    requires 0 < n <= |items|
    ensures ItemsReadable(lim, elem, items, n, target) <==>
            ItemsReadable(lim, elem, items, n - 1, target) && Readable(lim, elem, items[n - 1], target)
    ensures forall e :: ItemsFlawed(lim, elem, items, n, target, e) <==>
              || ItemsFlawed(lim, elem, items, n - 1, target, e)
              || (ItemsReadable(lim, elem, items, n - 1, target) && Flawed(lim, elem, items[n - 1], target, e))
  {
  }

  lemma {:induction false} AttrsReadIff(lim: Limits, fields: seq<Field>, vals: seq<Value>, attrs: seq<Attribute>,
                                        n: nat)
    requires |fields| == |vals| && n <= |attrs| && ConvertibleAttrs(fields, attrs, n)
    requires forall i | 0 <= i < |fields| :: WellTyped(vals[i], fields[i].dataType)
    ensures var r := FieldsToCells(lim, fields, vals, attrs, n);
            && (r.Ok? <==> AttrsReadable(lim, fields, vals, attrs, n))
            && (forall e :: r == Err(e) <==> AttrsFlawed(lim, fields, vals, attrs, n, e))
    decreases fields, 1, n
  {
    if n > 0 {
      AttrsReadIff(lim, fields, vals, attrs, n - 1);
      var i := FindField(fields, attrs[n - 1].name);
      if !attrs[n - 1].dropped {
        ReadsIff(lim, fields[i.value].dataType, vals[i.value], attrs[n - 1].typ);
      }
      AttrsStep(lim, fields, vals, attrs, n);
    }
  }

  ghost predicate AttrsReadable(lim: Limits, fields: seq<Field>, vals: seq<Value>, attrs: seq<Attribute>, n: nat)
    requires |fields| == |vals| && n <= |attrs|
  {
    forall k | 0 <= k < n :: ReadableAttr(lim, fields, vals, attrs[k])
  }

  ghost predicate AttrsFlawed(lim: Limits, fields: seq<Field>, vals: seq<Value>, attrs: seq<Attribute>, n: nat,
                              e: ErrorKind)
    requires |fields| == |vals| && n <= |attrs|
  {
    exists k :: 0 <= k < n && FlawedAttr(lim, fields, vals, attrs[k], e) && AttrsReadable(lim, fields, vals, attrs, k)
  }

  lemma {:induction false} AttrsStep(lim: Limits, fields: seq<Field>, vals: seq<Value>, attrs: seq<Attribute>, n: nat)
    requires |fields| == |vals| && 0 < n <= |attrs|
    ensures AttrsReadable(lim, fields, vals, attrs, n) <==>
            AttrsReadable(lim, fields, vals, attrs, n - 1) && ReadableAttr(lim, fields, vals, attrs[n - 1])
    ensures forall e :: AttrsFlawed(lim, fields, vals, attrs, n, e) <==>
              || AttrsFlawed(lim, fields, vals, attrs, n - 1, e)
              || (AttrsReadable(lim, fields, vals, attrs, n - 1) && FlawedAttr(lim, fields, vals, attrs[n - 1], e))
  {
  }
}
