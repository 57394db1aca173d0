/** Well-formed Arrow values, and what their JSON form means (src/fdw/convert.rs:881-1163). */
module JsonMeaning {
  import opened Wrappers
  import opened Machine
  import opened Arrow
  import opened Convert

  // ----- well-formed Arrow values -----

  predicate IsKeyType(t: ArrowType) {
    t.Prim? && (t.prim.Int8? || t.prim.Int16? || t.prim.Int32? || t.prim.Int64?
                || t.prim.UInt8? || t.prim.UInt16? || t.prim.UInt32? || t.prim.UInt64?)
  }

  /** The values a primitive Arrow array can hold. */
  predicate PrimTyped(p: Primitive, v: Value) {
    match p
    case Boolean => v.Bool?
    case Int8 => v.Int? && -0x80 <= v.i < 0x80
    case Int16 => v.Int? && -0x8000 <= v.i < 0x8000
    case Int32 | Date32 => v.Int? && -0x8000_0000 <= v.i < 0x8000_0000
    case Int64 | Date64 | Timestamp(_, _) => v.Int? && InI64(v.i)
    case UInt8 => v.Int? && 0 <= v.i < 0x100
    case UInt16 => v.Int? && 0 <= v.i < 0x1_0000
    case UInt32 => v.Int? && 0 <= v.i < 0x1_0000_0000
    case UInt64 => v.Int? && 0 <= v.i < TWO_64
    case Float16 | Float32 | Float64 => v.Flt?
    case Utf8 | LargeUtf8 => v.Text?
    case Binary | LargeBinary => v.Bytes?
    case FixedSizeBinary(w) => v.Bytes? && |v.bytes| == w
    case Decimal128(_, _) | Decimal256(_, _) => v.Int?
  }

  predicate WellTyped(v: Value, t: ArrowType)
    decreases t
  {
    v.Null? ||
    match t
    case Prim(p) => PrimTyped(p, v)
    case List(kind, elem) =>
      && v.ListValue?
      && (kind.Fixed? ==> |v.items| == kind.size)
      && forall i | 0 <= i < |v.items| :: WellTyped(v.items[i], elem.dataType)
    case Struct(fields) =>
      && v.StructValue? && |v.fields| == |fields|
      && forall i | 0 <= i < |fields| :: WellTyped(v.fields[i], fields[i].dataType)
    case Dictionary(key, value) =>
      && IsKeyType(key) && v.DictValue?
      && forall i | 0 <= i < |v.values| :: WellTyped(v.values[i], value)
    case Map(_) => v.OtherValue?
    case Other(_) => v.OtherValue?
  }

  // ----- what a JSON value means -----

  predicate JsonPrimDenotes(p: Primitive, v: Value, j: Json) {
    match p
    case Boolean => v.Bool? && j == JBool(v.b)
    case Float16 | Float32 | Float64 => v.Flt? && (if v.f.Finite? then j == JFloat(v.f) else j == JNull)
    case Utf8 | LargeUtf8 => v.Text? && j == JString(v.s)
    case Binary | LargeBinary | FixedSizeBinary(_) => v.Bytes? && j == JBase64(v.bytes)
    case Decimal128(_, scale) => v.Int? && j == JDecimal(v.i, scale)
    case Decimal256(_, scale) => v.Int? && j == JDecimal(v.i, scale)
    case Date32 | Date64 | Timestamp(_, _) => j == JUnsupported(Prim(p))
    case _ => v.Int? && j.JInt? && InI64(j.i) && (v.i - j.i) % TWO_64 == 0
  }

  /** No later field has the name of field `k`. */
  predicate LastOfName(fields: seq<Field>, k: nat)
    requires k < |fields|
  {
    forall m | k < m < |fields| :: fields[m].name != fields[k].name
  }

  /** `j` stands for `v`: integers agree modulo 2^64, lists match item by item, a member of an object is
      the last field of its name, and a dictionary value is its entry. */
  predicate JsonDenotes(t: ArrowType, v: Value, j: Json)
    decreases t
  {
    if v.Null? then j == JNull
    else
      match t
      case Prim(p) => JsonPrimDenotes(p, v, j)
      case List(_, elem) =>
        && v.ListValue? && j.JArray? && |j.items| == |v.items|
        && forall i | 0 <= i < |v.items| :: JsonDenotes(elem.dataType, v.items[i], j.items[i])
      case Struct(fields) =>
        && v.StructValue? && |v.fields| == |fields| && j.JObject?
        && (forall name | name in j.members :: exists k :: 0 <= k < |fields| && fields[k].name == name)
        && forall k | 0 <= k < |fields| :: fields[k].name in j.members &&
             (LastOfName(fields, k) ==> JsonDenotes(fields[k].dataType, v.fields[k], j.members[fields[k].name]))
      case Dictionary(_, value) =>
        v.DictValue? && 0 <= v.key < |v.values| && JsonDenotes(value, v.values[v.key], j)
      case _ => j == JUnsupported(t)
  }

  /** All dictionary keys met on the way point to an entry. */
  predicate JsonReadable(t: ArrowType, v: Value)
    decreases t
  {
    v.Null? ||
    match t
    case List(_, elem) => v.ListValue? && forall i | 0 <= i < |v.items| :: JsonReadable(elem.dataType, v.items[i])
    case Struct(fields) =>
      && v.StructValue? && |v.fields| == |fields|
      && forall k | 0 <= k < |fields| :: JsonReadable(fields[k].dataType, v.fields[k])
    case Dictionary(_, value) => v.DictValue? && 0 <= v.key < |v.values| && JsonReadable(value, v.values[v.key])
    case _ => true
  }

  ghost predicate NotATypeError<T>(r: Result<T, ErrorKind>)
  {
    r.Err? ==> r.error == ValueOutOfRange || r.error == Internal
  }

  /** What the conversion to JSON yields: a value that denotes the Arrow value, or an internal error. */
  ghost predicate JsonMeant(t: ArrowType, v: Value, r: Result<Json, ErrorKind>)
  {
    && (r.Ok? <==> JsonReadable(t, v))
    && (r.Ok? ==> JsonDenotes(t, v, r.value))
    && (r.Err? ==> r.error == Internal)
  }

  /** The JSON form of a well-formed value denotes the value; it exists exactly if all dictionary keys met
      on the way point to an entry, and there is no other error, whatever the type. */
  lemma {:induction false} JsonIsMeant(t: ArrowType, v: Value)
    requires WellTyped(v, t)
    ensures JsonMeant(t, v, ToJson(t, v))
    decreases t, 0, 0
  {
    if !v.Null? {
      match t
      case Prim(p) => PrimIsMeant(p, v);
      case List(_, elem) => ItemsAreMeant(elem.dataType, v.items, |v.items|);
      case Struct(fields) =>
        FieldsAreMeant(fields, v.fields, |fields|);
        if FieldsToJson(fields, v.fields, |fields|).Ok? {
          AllMembers(fields, v.fields, FieldsToJson(fields, v.fields, |fields|).value);
        }
      case Dictionary(key, value) =>
        if 0 <= v.key < |v.values| {
          JsonIsMeant(value, v.values[v.key]);
        }
      case _ =>
    }
  }

  lemma {:induction false} PrimIsMeant(p: Primitive, v: Value)
    requires PrimTyped(p, v)
    ensures JsonMeant(Prim(p), v, PrimToJson(p, v))
  {
  }

  predicate ItemsReadable(elem: ArrowType, items: seq<Value>, n: nat)
    requires n <= |items|
  {
    forall i | 0 <= i < n :: JsonReadable(elem, items[i])
  }

  predicate ItemsDenoted(elem: ArrowType, items: seq<Value>, n: nat, js: seq<Json>)
    requires n <= |items|
  {
    |js| == n && forall i | 0 <= i < n :: JsonDenotes(elem, items[i], js[i])
  }

  ghost predicate ItemsMeant(elem: ArrowType, items: seq<Value>, n: nat, r: Result<seq<Json>, ErrorKind>)
    requires n <= |items|
  {
    && (r.Ok? <==> ItemsReadable(elem, items, n))
    && (r.Ok? ==> ItemsDenoted(elem, items, n, r.value))
    && (r.Err? ==> r.error == Internal)
  }

  lemma {:induction false} NoItems(elem: ArrowType, items: seq<Value>)
    ensures ItemsMeant(elem, items, 0, ItemsToJson(elem, items, 0))
  {
  }

  lemma {:induction false} ItemsAreMeant(elem: ArrowType, items: seq<Value>, n: nat)
    requires n <= |items| && forall i | 0 <= i < |items| :: WellTyped(items[i], elem)
    ensures ItemsMeant(elem, items, n, ItemsToJson(elem, items, n))
    decreases elem, 1, n
  {
    if n == 0 {
      NoItems(elem, items);
    } else {
      ItemsAreMeant(elem, items, n - 1);
      JsonIsMeant(elem, items[n - 1]);
      OneMoreItem(elem, items, n, ItemsToJson(elem, items, n - 1), ToJson(elem, items[n - 1]));
    }
  }

  lemma {:induction false} OneMoreItem(elem: ArrowType, items: seq<Value>, n: nat,
                                       before: Result<seq<Json>, ErrorKind>, j: Result<Json, ErrorKind>)
    requires 0 < n <= |items| && ItemsMeant(elem, items, n - 1, before) && JsonMeant(elem, items[n - 1], j)
    ensures ItemsMeant(elem, items, n, if before.Err? then before
                                       else if j.Ok? then Ok(before.value + [j.value]) else Err(j.error))
  {
    assert ItemsReadable(elem, items, n) <==> ItemsReadable(elem, items, n - 1) && JsonReadable(elem, items[n - 1]);
  }

  /** No field behind `k` and before `n` has the name of field `k`. */
  predicate LastBefore(fields: seq<Field>, k: nat, n: nat)
    requires k < n <= |fields|
  {
    forall m | k < m < n :: fields[m].name != fields[k].name
  }

  /** The members that the first `n` fields give have their names. */
  ghost predicate MemberNames(fields: seq<Field>, n: nat, members: map<string, Json>)
    requires n <= |fields|
  {
    && (forall name | name in members :: exists k :: 0 <= k < n && fields[k].name == name)
    && (forall k | 0 <= k < n :: fields[k].name in members)
  }

  /** Field `k` gives the member of its name, unless one behind it and before `n` does. */
  ghost predicate MemberIs(fields: seq<Field>, vals: seq<Value>, k: nat, n: nat, members: map<string, Json>)
    requires k < n <= |fields| == |vals|
  {
    fields[k].name in members && LastBefore(fields, k, n) ==>
      JsonDenotes(fields[k].dataType, vals[k], members[fields[k].name])
  }

  ghost predicate Members(fields: seq<Field>, vals: seq<Value>, n: nat, members: map<string, Json>)
    requires n <= |fields| == |vals|
  {
    MemberNames(fields, n, members) && forall k | 0 <= k < n :: MemberIs(fields, vals, k, n, members)
  }

  predicate FieldsReadable(fields: seq<Field>, vals: seq<Value>, n: nat)
    requires n <= |fields| == |vals|
  {
    forall k | 0 <= k < n :: JsonReadable(fields[k].dataType, vals[k])
  }

  ghost predicate FieldsMeant(fields: seq<Field>, vals: seq<Value>, n: nat, r: Result<map<string, Json>, ErrorKind>)
    requires n <= |fields| == |vals|
  {
    && (r.Ok? <==> FieldsReadable(fields, vals, n))
    && (r.Ok? ==> Members(fields, vals, n, r.value))
    && (r.Err? ==> r.error == Internal)
  }

  lemma {:induction false} FieldsAreMeant(fields: seq<Field>, vals: seq<Value>, n: nat)
    requires n <= |fields| == |vals| && forall i | 0 <= i < |fields| :: WellTyped(vals[i], fields[i].dataType)
    ensures FieldsMeant(fields, vals, n, FieldsToJson(fields, vals, n))
    decreases fields, 1, n
  {
    if n > 0 {
      FieldsAreMeant(fields, vals, n - 1);
      JsonIsMeant(fields[n - 1].dataType, vals[n - 1]);
      OneMoreField(fields, vals, n, FieldsToJson(fields, vals, n - 1), ToJson(fields[n - 1].dataType, vals[n - 1]));
    }
  }

  lemma {:induction false} OneMoreField(fields: seq<Field>, vals: seq<Value>, n: nat,
                                        before: Result<map<string, Json>, ErrorKind>, j: Result<Json, ErrorKind>)
    requires 0 < n <= |fields| == |vals| && FieldsMeant(fields, vals, n - 1, before)
    requires JsonMeant(fields[n - 1].dataType, vals[n - 1], j)
    ensures FieldsMeant(fields, vals, n,
                        if before.Err? then before
                        else if j.Err? then Err(j.error)
                        else Ok(before.value[fields[n - 1].name := j.value]))
  {
    assert FieldsReadable(fields, vals, n) <==>
           FieldsReadable(fields, vals, n - 1) && JsonReadable(fields[n - 1].dataType, vals[n - 1]);
    if before.Ok? && j.Ok? {
      OneMoreName(fields, n, before.value, j.value);
      OneMoreMember(fields, vals, n, before.value, j.value, before.value[fields[n - 1].name := j.value]);
    }
  }

  lemma {:induction false} OneMoreName(fields: seq<Field>, n: nat, before: map<string, Json>, j: Json)
    requires 0 < n <= |fields| && MemberNames(fields, n - 1, before)
    ensures MemberNames(fields, n, before[fields[n - 1].name := j])
  {
    var members := before[fields[n - 1].name := j];
    forall name | name in members ensures exists k :: 0 <= k < n && fields[k].name == name {
      if name != fields[n - 1].name {
        var k :| 0 <= k < n - 1 && fields[k].name == name;
      }
    }
  }

  lemma {:induction false} OneMoreMember(fields: seq<Field>, vals: seq<Value>, n: nat, before: map<string, Json>,
                                         j: Json, members: map<string, Json>)
    requires 0 < n <= |fields| == |vals| && Members(fields, vals, n - 1, before)
    requires JsonDenotes(fields[n - 1].dataType, vals[n - 1], j) && members == before[fields[n - 1].name := j]
    ensures forall k | 0 <= k < n :: MemberIs(fields, vals, k, n, members)
  {
    forall k | 0 <= k < n ensures MemberIs(fields, vals, k, n, members) {
      if k < n - 1 && LastBefore(fields, k, n) {
        assert fields[n - 1].name != fields[k].name;
        assert MemberIs(fields, vals, k, n - 1, before);
      }
    }
  }

  lemma {:induction false} AllMembers(fields: seq<Field>, vals: seq<Value>, members: map<string, Json>)
    requires |fields| == |vals| && Members(fields, vals, |fields|, members)
    ensures JsonDenotes(Struct(fields), StructValue(vals), JObject(members))
  {
    forall k | 0 <= k < |fields| && LastOfName(fields, k)
      ensures JsonDenotes(fields[k].dataType, vals[k], members[fields[k].name])
    {
      assert MemberIs(fields, vals, k, |fields|, members);
    }
  }

  /** A value that denotes the Arrow value is the only one. */
  lemma {:induction false} JsonIsUnique(t: ArrowType, v: Value, a: Json, b: Json)
    requires JsonDenotes(t, v, a) && JsonDenotes(t, v, b)
    ensures a == b
    decreases t, 1
  {
    if !v.Null? {
      match t
      case Prim(p) => PrimJsonIsUnique(p, v, a, b);
      case List(_, elem) =>
        ItemsAreUnique(elem.dataType, v.items, a.items, b.items);
      case Struct(fields) => MembersAreUnique(fields, v.fields, a.members, b.members);
      case Dictionary(_, value) => JsonIsUnique(value, v.values[v.key], a, b);
      case _ =>
    }
  }

  lemma {:induction false} ItemsAreUnique(elem: ArrowType, items: seq<Value>, a: seq<Json>, b: seq<Json>)
    requires |a| == |b| == |items|
    requires forall i | 0 <= i < |items| :: JsonDenotes(elem, items[i], a[i]) && JsonDenotes(elem, items[i], b[i])
    ensures a == b
    decreases elem, 2
  {
    forall i | 0 <= i < |items| ensures a[i] == b[i] {
      JsonIsUnique(elem, items[i], a[i], b[i]);
    }
  }

  lemma {:induction false} MembersAreUnique(fields: seq<Field>, vals: seq<Value>, a: map<string, Json>,
                                            b: map<string, Json>)
    requires |fields| == |vals|
    requires JsonDenotes(Struct(fields), StructValue(vals), JObject(a))
    requires JsonDenotes(Struct(fields), StructValue(vals), JObject(b))
    ensures a == b
    decreases fields, 2
  {
    forall k | 0 <= k < |fields| ensures a[fields[k].name] == b[fields[k].name] {
      var m := LastWithName(fields, k);
      JsonIsUnique(fields[m].dataType, vals[m], a[fields[m].name], b[fields[m].name]);
    }
  }

  lemma {:induction false} PrimJsonIsUnique(p: Primitive, v: Value, a: Json, b: Json)
    requires JsonPrimDenotes(p, v, a) && JsonPrimDenotes(p, v, b)
    ensures a == b
  {
    if a.JInt? {
      SameResidue(v.i, a.i, b.i);
    }
  }

  lemma {:induction false} SameResidue(x: int, a: int, b: int)
    requires InI64(a) && InI64(b) && (x - a) % TWO_64 == 0 && (x - b) % TWO_64 == 0
    ensures a == b
  {
    var k, m := (x - a) / TWO_64, (x - b) / TWO_64;
    assert a - b == (m - k) * TWO_64;
  }

  /** The last field with the name of field `k`. */
  lemma {:induction false} LastWithName(fields: seq<Field>, k: nat) returns (m: nat)
    requires k < |fields|
    ensures k <= m < |fields| && fields[m].name == fields[k].name && LastOfName(fields, m)
    decreases |fields| - k
  {
    if LastOfName(fields, k) {
      m := k;
    } else {
      var next :| k < next < |fields| && fields[next].name == fields[k].name;
      m := LastWithName(fields, next);
    }
  }
}
