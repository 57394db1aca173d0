/** Arrow data types, grouped the way the source's matches group them. */
module Arrow {

  datatype TimeUnit = Second | Millisecond | Microsecond | Nanosecond

  datatype Primitive =
    | Boolean
    | Int8 | Int16 | Int32 | Int64
    | UInt8 | UInt16 | UInt32 | UInt64
    | Float16 | Float32 | Float64
    | Utf8 | LargeUtf8
    | Binary | LargeBinary | FixedSizeBinary(width: nat)
    | Date32 | Date64
    | Timestamp(unit: TimeUnit, hasTz: bool)
    | Decimal128(precision: nat, scale: int) | Decimal256(precision: nat, scale: int)

  /** List, LargeList and FixedSizeList. */
  datatype ListKind = Small | Large | Fixed(size: nat)

  datatype Field = Field(name: string, dataType: ArrowType)

  datatype ArrowType =
    | Prim(prim: Primitive)
    | List(kind: ListKind, elem: Field)
    | Struct(fields: seq<Field>)
    | Map(entries: Field)
    | Dictionary(key: ArrowType, value: ArrowType)
    | Other(tag: nat) // any type the source's matches leave to their default arm
}
