/** The decoded query-result value tree that the printer walks.

    The tree is closed: one constructor per kind of result value the
    protocol decoder can produce. Scalars whose text comes from a foreign
    `Display`/`Debug` implementation (uuids, machine integers, floats,
    temporal values, JSON) carry that text as an opaque payload.
 */
module Values {

  datatype Option<+T> = None | Some(value: T)

  /** An unsigned 8-bit integer, as in a Rust `&[u8]`. */
  type Byte = b: int | 0 <= b < 256

  /** One element of an object or named-tuple shape. */
  datatype Field = Field(name: string, implicit: bool, linkProperty: bool)

  datatype Value =
    | Nothing
    | Uuid(text: string)
    | Str(text: string)
    | Bytes(bytes: seq<Byte>)
    | Int16(text: string)
    | Int32(text: string)
    | Int64(text: string)
    | Float32(text: string)
    | Float64(text: string)
      /** `digits` is the base-10 text of the arbitrary-precision integer. */
    | BigInt(digits: string)
      /** `digits` is the base-10 text of the arbitrary-precision decimal. */
    | Decimal(digits: string)
    | Bool(flag: bool)
    | Datetime(text: string)
    | LocalDatetime(text: string)
    | LocalDate(text: string)
    | LocalTime(text: string)
    | Duration(text: string)
    | Json(text: string)
    | Set(items: seq<Value>)
      /** Shape elements are paired with `fields` positionally; a missing
          value (`None`) is distinct from the `Nothing` scalar. */
    | Object(shape: seq<Field>, fields: seq<Option<Value>>)
    | Tuple(items: seq<Value>)
    | NamedTuple(shape: seq<Field>, values: seq<Value>)
    | Array(items: seq<Value>)
    | Enum(text: string)

  function Min(a: nat, b: nat): nat {
    if a <= b then a else b
  }
}
