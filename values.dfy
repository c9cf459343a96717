/** The serde data model as the serializer receives it. The application
    type's own serialization code is not part of this model; the sequence
    of calls it makes on the serializer is given here as a `Value`, one
    constructor per call shape of src/ser.rs. Names that the serializer
    ignores (type names, variant indices, length hints) are left out. */
module Values {

  newtype i8 = x: int | -0x80 <= x < 0x80
  newtype i16 = x: int | -0x8000 <= x < 0x8000
  newtype i32 = x: int | -0x8000_0000 <= x < 0x8000_0000
  newtype i64 = x: int | -0x8000_0000_0000_0000 <= x < 0x8000_0000_0000_0000
  newtype u8 = x: int | 0 <= x < 0x100
  newtype u16 = x: int | 0 <= x < 0x1_0000
  newtype u32 = x: int | 0 <= x < 0x1_0000_0000
  newtype u64 = x: int | 0 <= x < 0x1_0000_0000_0000_0000

  datatype Value =
    | Bool(b: bool)
    | I8(x8: i8) | I16(x16: i16) | I32(x32: i32) | I64(x64: i64)
    | U8(n8: u8) | U16(n16: u16) | U32(n32: u32) | U64(n64: u64)
      /** `serialize_f32`/`serialize_f64`: `text` is the `f64` display form of
          the number, supplied from outside the model. */
    | Float(text: string)
    | Char(c: char)
    | Str(s: string)
    | Bytes(bytes: seq<u8>)
    | None
    | Some(inner: Value)
    | Unit
    | UnitStruct
    | UnitVariant(variant: string)
    | NewtypeStruct(inner: Value)
    | NewtypeVariant(variant: string, inner: Value)
    | Seq(elems: seq<Value>)
    | Tuple(elems: seq<Value>)
    | TupleStruct(elems: seq<Value>)
    | TupleVariant(variant: string, elems: seq<Value>)
    | Map(entries: seq<Entry>)
    | Struct(fields: seq<Field>)
    | StructVariant(variant: string, fields: seq<Field>)
      /** The application's code fails with `Error::custom(msg)` instead of
          making a call. */
    | Custom(msg: string)

  /** One `serialize_key`/`serialize_value` pair of a map. */
  datatype Entry = Entry(key: Value, value: Value)

  /** One `serialize_field` of a struct or struct variant. */
  datatype Field = Field(name: string, value: Value)

  /** The elements `serialize_bytes` passes to `serialize_element`, one `u8` each. */
  function ByteElements(bs: seq<u8>): (es: seq<Value>)
    ensures |es| == |bs| && forall i :: 0 <= i < |bs| ==> es[i] == U8(bs[i])
  {
    if bs == [] then [] else ByteElements(bs[..|bs| - 1]) + [U8(bs[|bs| - 1])]
  }

  /** The entries `serialize_field` produces: each field name as a string key. */
  function FieldEntries(fs: seq<Field>): (en: seq<Entry>)
    ensures |en| == |fs| && forall i :: 0 <= i < |fs| ==> en[i] == Entry(Str(fs[i].name), fs[i].value)
  {
    if fs == [] then [] else FieldEntries(fs[..|fs| - 1]) + [Entry(Str(fs[|fs| - 1].name), fs[|fs| - 1].value)]
  }
}
