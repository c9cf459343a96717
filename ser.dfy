/** The streaming serializer of src/ser.rs. A `Serializer` owns the output
    written so far and the single `start` flag shared by every nesting
    level; each data-model call appends to the output. Every method is
    proved against `SerSpec.Emit`: it appends exactly the text `Emit`
    gives and leaves `start` as `Emit` says. */
module Ser {
  import opened Errors
  import opened Values
  import opened DecimalText
  import opened SerSpec

  /** `v.chars().map(escape).collect::<String>()` (src/ser.rs:87). */
  method CollectEscaped(s: string) returns (escaped: string)
    ensures escaped == Escaped(s)
  {
    escaped := [];
    var i := 0;
    while i < |s|
      invariant 0 <= i <= |s|
      invariant escaped == Escaped(s[..i])
    {
      assert s[..i + 1][..i] == s[..i];
      escaped := escaped + Escape(s[i]);
      i := i + 1;
    }
    assert s[..i] == s;
  }

  lemma AroundWritten(o: string, before: string, inner: Emission, after: string)
    ensures o + Around(before, inner, after).text
            == if inner.result.Pass? then o + before + inner.text + after else o + before + inner.text
  {
    Assoc3(o, before, inner.text, after);
    Assoc(o, before, inner.text);
  }

  /** One turn of the elements loop: the item's text, written after
      `o` and the text so far, is the text of one more item; and a failing
      item ends the aggregate. */
  lemma ElementsWritten(o: string, es: seq<Value>, i: nat, start: bool)
    requires i < |es|
    requires EmitElements(es[..i], start).result == Pass
    ensures var prior := EmitElements(es[..i], start);
            var e := Emit(es[i], false);
            var next := EmitElements(es[..i + 1], start);
            && o + prior.text + Sep(prior.start) + e.text == o + next.text
            && next.start == e.start && next.result == e.result
            && (e.result.Fail? ==> EmitElements(es, start) == next)
  {
    var prior := EmitElements(es[..i], start);
    ElementsStep(es, i, start);
    Assoc3(o, prior.text, Sep(prior.start), Emit(es[i], false).text);
    if Emit(es[i], false).result.Fail? {
      ElementsStop(es, i + 1, start);
    }
  }

  /** One turn of the entries loop: the item's text, written after
      `o` and the text so far, is the text of one more item; and a failing
      item ends the aggregate. */
  lemma EntriesWritten(o: string, en: seq<Entry>, i: nat, start: bool)
    requires i < |en|
    requires EmitEntries(en[..i], start).result == Pass
    ensures var prior := EmitEntries(en[..i], start);
            var e := EmitEntry(en[i]);
            var next := EmitEntries(en[..i + 1], start);
            && o + prior.text + Sep(prior.start) + e.text == o + next.text
            && next.start == e.start && next.result == e.result
            && (e.result.Fail? ==> EmitEntries(en, start) == next)
  {
    var prior := EmitEntries(en[..i], start);
    EntriesStep(en, i, start);
    Assoc3(o, prior.text, Sep(prior.start), EmitEntry(en[i]).text);
    if EmitEntry(en[i]).result.Fail? {
      EntriesStop(en, i + 1, start);
    }
  }

  /** One turn of the fields loop: the item's text, written after
      `o` and the text so far, is the text of one more item; and a failing
      item ends the aggregate. */
  lemma FieldsWritten(o: string, fs: seq<Field>, i: nat, start: bool)
    requires i < |fs|
    requires EmitFields(fs[..i], start).result == Pass
    ensures var prior := EmitFields(fs[..i], start);
            var e := EmitField(fs[i]);
            var next := EmitFields(fs[..i + 1], start);
            && o + prior.text + Sep(prior.start) + e.text == o + next.text
            && next.start == e.start && next.result == e.result
            && (e.result.Fail? ==> EmitFields(fs, start) == next)
  {
    var prior := EmitFields(fs[..i], start);
    FieldsStep(fs, i, start);
    Assoc3(o, prior.text, Sep(prior.start), EmitField(fs[i]).text);
    if EmitField(fs[i]).result.Fail? {
      FieldsStop(fs, i + 1, start);
    }
  }

  class Serializer {
    var output: string
    var start: bool

    /** `Serializer::new(output)`, and the `Serializer { start: false, output }`
        literal the key serializer builds: the flag starts clear. */
    constructor (output: string)
      ensures this.output == output && !start
    {
      this.output := output;
      start := false;
    }

    /** `write_all`: the sink only ever grows at its end. */
    method WriteAll(text: string)
      modifies this`output
      ensures output == old(output) + text
    {
      output := output + text;
    }

    method SerializeBool(v: bool)
      modifies this`output
      ensures output == old(output) + ScalarText(Bool(v))
    {
      WriteAll(if v then "true" else "false");
    }

    method SerializeI8(v: i8)
      modifies this`output
      ensures output == old(output) + ScalarText(I8(v))
    {
      SerializeI64(v as int as i64);
    }

    method SerializeI16(v: i16)
      modifies this`output
      ensures output == old(output) + ScalarText(I16(v))
    {
      SerializeI64(v as int as i64);
    }

    method SerializeI32(v: i32)
      modifies this`output
      ensures output == old(output) + ScalarText(I32(v))
    {
      SerializeI64(v as int as i64);
    }

    method SerializeI64(v: i64)
      modifies this`output
      ensures output == old(output) + ScalarText(I64(v))
    {
      WriteAll(Decimal(v as int));
    }

    method SerializeU8(v: u8)
      modifies this`output
      ensures output == old(output) + ScalarText(U8(v))
    {
      SerializeU64(v as int as u64);
    }

    method SerializeU16(v: u16)
      modifies this`output
      ensures output == old(output) + ScalarText(U16(v))
    {
      SerializeU64(v as int as u64);
    }

    method SerializeU32(v: u32)
      modifies this`output
      ensures output == old(output) + ScalarText(U32(v))
    {
      SerializeU64(v as int as u64);
    }

    method SerializeU64(v: u64)
      modifies this`output
      ensures output == old(output) + ScalarText(U64(v))
    {
      WriteAll(Decimal(v as int));
    }

    /** `serialize_f32`/`serialize_f64` with the number's display text given. */
    method SerializeFloat(text: string)
      modifies this`output
      ensures output == old(output) + ScalarText(Float(text))
    {
      WriteAll(text);
    }

    method SerializeChar(c: char)
      modifies this`output
      ensures output == old(output) + ScalarText(Char(c))
    {
      SerializeStr([c]);
    }

    method SerializeStr(s: string)
      modifies this`output
      ensures output == old(output) + ScalarText(Str(s))
    {
      WriteAll("\"");
      var escaped := CollectEscaped(s);
      WriteAll(escaped);
      WriteAll("\"");
      Assoc3(old(output), "\"", escaped, "\"");
    }

    /** `serialize_bytes`: a sequence whose elements are the bytes, each
        written by `serialize_element` and `serialize_u8`. */
    method SerializeBytes(bs: seq<u8>)
      modifies this
      ensures output == old(output) + Emit(Bytes(bs), old(start)).text
      ensures start == Emit(Bytes(bs), old(start)).start
    {
      SerializeSeq();
      SerializeByteElements(bs);
      EndSeq();
      assert Emit(Bytes(bs), old(start)) == Around("[", EmitBytes(bs, true), "]");
      AroundWritten(old(output), "[", EmitBytes(bs, true), "]");
    }

    /** The loop of `serialize_bytes`: `serialize_element` of each byte. */
    method SerializeByteElements(bs: seq<u8>)
      modifies this
      ensures output == old(output) + EmitBytes(bs, old(start)).text
      ensures start == EmitBytes(bs, old(start)).start
    {
      var i := 0;
      while i < |bs|
        invariant 0 <= i <= |bs|
        invariant output == old(output) + EmitBytes(bs[..i], old(start)).text
        invariant start == EmitBytes(bs[..i], old(start)).start
      {
        ghost var prior := EmitBytes(bs[..i], old(start));
        BytesStep(bs, i, old(start));
        BeginElement();
        SerializeU8(bs[i]);
        assert ScalarText(U8(bs[i])) == Decimal(bs[i] as int);
        Assoc3(old(output), prior.text, Sep(prior.start), Decimal(bs[i] as int));
        i := i + 1;
      }
      assert bs[..i] == bs;
    }

    method SerializeNone()
      modifies this`output
      ensures output == old(output) + ScalarText(None)
    {
      SerializeUnit();
    }

    method SerializeSome(x: Value) returns (r: Outcome)
      modifies this
      decreases x, 2
      ensures output == old(output) + Emit(Some(x), old(start)).text
      ensures start == Emit(Some(x), old(start)).start
      ensures r == Emit(Some(x), old(start)).result
    {
      r := Serialize(x);
    }

    method SerializeUnit()
      modifies this`output
      ensures output == old(output) + ScalarText(Unit)
    {
      WriteAll("null");
    }

    method SerializeUnitStruct()
      modifies this`output
      ensures output == old(output) + ScalarText(UnitStruct)
    {
      SerializeUnit();
    }

    method SerializeUnitVariant(variant: string)
      modifies this`output
      ensures output == old(output) + ScalarText(UnitVariant(variant))
    {
      SerializeStr(variant);
    }

    method SerializeNewtypeStruct(x: Value) returns (r: Outcome)
      modifies this
      decreases x, 2
      ensures output == old(output) + Emit(NewtypeStruct(x), old(start)).text
      ensures start == Emit(NewtypeStruct(x), old(start)).start
      ensures r == Emit(NewtypeStruct(x), old(start)).result
    {
      r := Serialize(x);
    }

    method SerializeNewtypeVariant(variant: string, x: Value) returns (r: Outcome)
      modifies this
      decreases x, 2
      ensures output == old(output) + Emit(NewtypeVariant(variant, x), old(start)).text
      ensures start == Emit(NewtypeVariant(variant, x), old(start)).start
      ensures r == Emit(NewtypeVariant(variant, x), old(start)).result
    {
      ghost var o, e := output, Emit(x, start);
      assert Emit(NewtypeVariant(variant, x), start) == Around("{" + Quoted(variant) + ":", e, "}");
      WriteAll("{");
      SerializeStr(variant);
      WriteAll(":");
      Assoc3(o, "{", Quoted(variant), ":");
      r := Serialize(x);
      if r.Pass? { WriteAll("}"); }
      AroundWritten(o, "{" + Quoted(variant) + ":", e, "}");
    }

    /** `serialize_seq`, and through it `serialize_tuple` and `serialize_tuple_struct`. */
    method SerializeSeq()
      modifies this
      ensures start && output == old(output) + "["
    {
      start := true;
      WriteAll("[");
    }

    method SerializeTupleVariant(variant: string)
      modifies this
      ensures start && output == old(output) + ("{" + Quoted(variant) + ":[")
    {
      ghost var o := output;
      WriteAll("{");
      SerializeStr(variant);
      WriteAll(":");
      Assoc3(o, "{", Quoted(variant), ":");
      SerializeSeq();
      Assoc(o, "{" + Quoted(variant) + ":", "[");
      Assoc("{" + Quoted(variant), ":", "[");
    }

    /** `serialize_map`, and through it `serialize_struct`. */
    method SerializeMap()
      modifies this
      ensures start && output == old(output) + "{"
    {
      start := true;
      WriteAll("{");
    }

    method SerializeStructVariant(variant: string)
      modifies this
      ensures start && output == old(output) + ("{" + Quoted(variant) + ":{")
    {
      ghost var o := output;
      WriteAll("{");
      SerializeStr(variant);
      WriteAll(":");
      Assoc3(o, "{", Quoted(variant), ":");
      SerializeMap();
      Assoc(o, "{" + Quoted(variant) + ":", "{");
      Assoc("{" + Quoted(variant), ":", "{");
    }

    /** The separator step that opens every element and key: a `,` when
        the flag is clear, otherwise the flag is cleared. */
    method BeginElement()
      modifies this
      ensures output == old(output) + Sep(old(start)) && !start
    {
      if !start {
        WriteAll(",");
      } else {
        start := false;
      }
    }

    /** `SerializeSeq::serialize_element`, shared by tuples, tuple structs
        and tuple variants. */
    method SerializeElement(x: Value) returns (r: Outcome)
      modifies this
      decreases x, 2
      ensures output == old(output) + Sep(old(start)) + Emit(x, false).text
      ensures start == Emit(x, false).start
      ensures r == Emit(x, false).result
    {
      BeginElement();
      r := Serialize(x);
    }

    /** `SerializeSeq::end` (also the `end` of tuples and tuple structs). */
    method EndSeq()
      modifies this`output
      ensures output == old(output) + "]"
    {
      WriteAll("]");
    }

    method EndTupleVariant()
      modifies this`output
      ensures output == old(output) + "]}"
    {
      WriteAll("]}");
    }

    /** `serialize_key`: the separator step, the key through a key
        serializer borrowing the output, then `:`. The `,` stays written
        when the key is rejected. */
    method SerializeKey(key: Value) returns (r: Outcome)
      modifies this
      ensures output == old(output) + Sep(old(start)) + KeyWritten(EmitKey(key))
                        + (if EmitKey(key).Ok? then ":" else "")
      ensures !start
      ensures r == KeyStatus(EmitKey(key))
    {
      BeginElement();
      var keys := new KeySerializer(output);
      r := keys.Serialize(key);
      output := keys.output;
      if r.Fail? {
        return;
      }
      WriteAll(":");
    }

    method SerializeValue(x: Value) returns (r: Outcome)
      modifies this
      decreases x, 2
      ensures output == old(output) + Emit(x, old(start)).text
      ensures start == Emit(x, old(start)).start
      ensures r == Emit(x, old(start)).result
    {
      r := Serialize(x);
    }

    /** `serialize_entry`: `serialize_key` then, if it succeeded, `serialize_value`. */
    method SerializeEntry(e: Entry) returns (r: Outcome)
      modifies this
      decreases e, 0
      ensures output == old(output) + Sep(old(start)) + EmitEntry(e).text
      ensures start == EmitEntry(e).start
      ensures r == EmitEntry(e).result
    {
      ghost var o := output + Sep(start);
      r := SerializeKey(e.key);
      if r.Fail? {
        assert output == o;
        return;
      }
      ghost var k := EmitKey(e.key).value;
      ghost var v := Emit(e.value, false);
      assert output == o + k + ":";
      r := SerializeValue(e.value);
      Assoc3(o, k, ":", v.text);
      assert k + ":" + v.text + "" == k + ":" + v.text;
    }

    /** `serialize_field` of structs and struct variants: `serialize_entry`
        with the field name as a `&str` key, which the key serializer
        always accepts. */
    method SerializeField(f: Field) returns (r: Outcome)
      modifies this
      decreases f, 0
      ensures output == old(output) + Sep(old(start)) + EmitField(f).text
      ensures start == EmitField(f).start
      ensures r == EmitField(f).result
    {
      ghost var o := output + Sep(start);
      ghost var e := Emit(f.value, false);
      r := SerializeKey(Str(f.name));
      assert output == o + Quoted(f.name) + ":";
      r := SerializeValue(f.value);
      Assoc3(o, Quoted(f.name), ":", e.text);
      assert Quoted(f.name) + ":" + e.text + "" == Quoted(f.name) + ":" + e.text;
    }

    /** `SerializeMap::end` and `SerializeStruct::end`. */
    method EndMap()
      modifies this`output
      ensures output == old(output) + "}"
    {
      WriteAll("}");
    }

    method EndStructVariant()
      modifies this`output
      ensures output == old(output) + "}}"
    {
      WriteAll("}}");
    }

    /** The elements of a sequence, tuple, tuple struct or tuple variant,
        one `serialize_element` each, stopping at the first error. */
    method SerializeElements(es: seq<Value>) returns (r: Outcome)
      modifies this
      decreases es, 0
      ensures output == old(output) + EmitElements(es, old(start)).text
      ensures start == EmitElements(es, old(start)).start
      ensures r == EmitElements(es, old(start)).result
    {
      ghost var o, s0 := output, start;
      r := Pass;
      var i := 0;
      while i < |es|
        invariant 0 <= i <= |es|
        invariant output == o + EmitElements(es[..i], s0).text
        invariant start == EmitElements(es[..i], s0).start
        invariant EmitElements(es[..i], s0).result == Pass
        invariant r == Pass
      {
        r := SerializeElement(es[i]);
        ElementsWritten(o, es, i, s0);
        if r.Fail? {
          return;
        }
        i := i + 1;
      }
      assert es[..i] == es;
    }

    /** The entries of a map, one `serialize_entry` each. */
    method SerializeEntries(en: seq<Entry>) returns (r: Outcome)
      modifies this
      decreases en, 0
      ensures output == old(output) + EmitEntries(en, old(start)).text
      ensures start == EmitEntries(en, old(start)).start
      ensures r == EmitEntries(en, old(start)).result
    {
      ghost var o, s0 := output, start;
      r := Pass;
      var i := 0;
      while i < |en|
        invariant 0 <= i <= |en|
        invariant output == o + EmitEntries(en[..i], s0).text
        invariant start == EmitEntries(en[..i], s0).start
        invariant EmitEntries(en[..i], s0).result == Pass
        invariant r == Pass
      {
        r := SerializeEntry(en[i]);
        EntriesWritten(o, en, i, s0);
        if r.Fail? {
          return;
        }
        i := i + 1;
      }
      assert en[..i] == en;
    }

    /** The fields of a struct or struct variant, one `serialize_field` each. */
    method SerializeFields(fs: seq<Field>) returns (r: Outcome)
      modifies this
      decreases fs, 0
      ensures output == old(output) + EmitFields(fs, old(start)).text
      ensures start == EmitFields(fs, old(start)).start
      ensures r == EmitFields(fs, old(start)).result
    {
      ghost var o, s0 := output, start;
      r := Pass;
      var i := 0;
      while i < |fs|
        invariant 0 <= i <= |fs|
        invariant output == o + EmitFields(fs[..i], s0).text
        invariant start == EmitFields(fs[..i], s0).start
        invariant EmitFields(fs[..i], s0).result == Pass
        invariant r == Pass
      {
        r := SerializeField(fs[i]);
        FieldsWritten(o, fs, i, s0);
        if r.Fail? {
          return;
        }
        i := i + 1;
      }
      assert fs[..i] == fs;
    }

    /** `value.serialize(&mut serializer)` for a value that makes one
        scalar call. */
    method SerializeScalar(v: Value)
      requires IsScalar(v)
      modifies this`output
      ensures output == old(output) + ScalarText(v)
    {
      match v
      case Bool(b) => SerializeBool(b);
      case I8(x) => SerializeI8(x);
      case I16(x) => SerializeI16(x);
      case I32(x) => SerializeI32(x);
      case I64(x) => SerializeI64(x);
      case U8(x) => SerializeU8(x);
      case U16(x) => SerializeU16(x);
      case U32(x) => SerializeU32(x);
      case U64(x) => SerializeU64(x);
      case Float(t) => SerializeFloat(t);
      case Char(c) => SerializeChar(c);
      case Str(s) => SerializeStr(s);
      case None => SerializeNone();
      case Unit => SerializeUnit();
      case UnitStruct => SerializeUnitStruct();
      case UnitVariant(name) => SerializeUnitVariant(name);
    }

    /** The calls a `Serialize` impl makes for a sequence: `serialize_seq`,
        one `serialize_element` per item, then `end`. */
    method WriteSeq(es: seq<Value>) returns (r: Outcome)
      modifies this
      decreases es, 1
      ensures output == old(output) + Emit(Seq(es), old(start)).text
      ensures start == Emit(Seq(es), old(start)).start
      ensures r == Emit(Seq(es), old(start)).result
    {
      ghost var o := output;
      assert Emit(Seq(es), start) == Around("[", EmitElements(es, true), "]");
      SerializeSeq();
      r := SerializeElements(es);
      if r.Pass? { EndSeq(); }
      AroundWritten(o, "[", EmitElements(es, true), "]");
    }

    /** The same through `serialize_tuple`, which is `serialize_seq`. */
    method WriteTuple(es: seq<Value>) returns (r: Outcome)
      modifies this
      decreases es, 1
      ensures output == old(output) + Emit(Tuple(es), old(start)).text
      ensures start == Emit(Tuple(es), old(start)).start
      ensures r == Emit(Tuple(es), old(start)).result
    {
      ghost var o := output;
      assert Emit(Tuple(es), start) == Around("[", EmitElements(es, true), "]");
      SerializeSeq();
      r := SerializeElements(es);
      if r.Pass? { EndSeq(); }
      AroundWritten(o, "[", EmitElements(es, true), "]");
    }

    /** The same through `serialize_tuple_struct`, which is `serialize_seq`. */
    method WriteTupleStruct(es: seq<Value>) returns (r: Outcome)
      modifies this
      decreases es, 1
      ensures output == old(output) + Emit(TupleStruct(es), old(start)).text
      ensures start == Emit(TupleStruct(es), old(start)).start
      ensures r == Emit(TupleStruct(es), old(start)).result
    {
      ghost var o := output;
      assert Emit(TupleStruct(es), start) == Around("[", EmitElements(es, true), "]");
      SerializeSeq();
      r := SerializeElements(es);
      if r.Pass? { EndSeq(); }
      AroundWritten(o, "[", EmitElements(es, true), "]");
    }

    /** `serialize_tuple_variant`, one `serialize_field` per item, `end`. */
    method WriteTupleVariant(variant: string, es: seq<Value>) returns (r: Outcome)
      modifies this
      decreases es, 1
      ensures output == old(output) + Emit(TupleVariant(variant, es), old(start)).text
      ensures start == Emit(TupleVariant(variant, es), old(start)).start
      ensures r == Emit(TupleVariant(variant, es), old(start)).result
    {
      ghost var o := output;
      assert Emit(TupleVariant(variant, es), start) == Around("{" + Quoted(variant) + ":[", EmitElements(es, true), "]}");
      SerializeTupleVariant(variant);
      r := SerializeElements(es);
      if r.Pass? { EndTupleVariant(); }
      AroundWritten(o, "{" + Quoted(variant) + ":[", EmitElements(es, true), "]}");
    }

    /** `serialize_map`, one `serialize_entry` per entry, `end`. */
    method WriteMap(en: seq<Entry>) returns (r: Outcome)
      modifies this
      decreases en, 1
      ensures output == old(output) + Emit(Map(en), old(start)).text
      ensures start == Emit(Map(en), old(start)).start
      ensures r == Emit(Map(en), old(start)).result
    {
      ghost var o := output;
      assert Emit(Map(en), start) == Around("{", EmitEntries(en, true), "}");
      SerializeMap();
      r := SerializeEntries(en);
      if r.Pass? { EndMap(); }
      AroundWritten(o, "{", EmitEntries(en, true), "}");
    }

    /** `serialize_struct`, which is `serialize_map`, one `serialize_field`
        per field, then `end`. */
    method WriteStruct(fs: seq<Field>) returns (r: Outcome)
      modifies this
      decreases fs, 1
      ensures output == old(output) + Emit(Struct(fs), old(start)).text
      ensures start == Emit(Struct(fs), old(start)).start
      ensures r == Emit(Struct(fs), old(start)).result
    {
      ghost var o := output;
      assert Emit(Struct(fs), start) == Around("{", EmitFields(fs, true), "}");
      SerializeMap();
      r := SerializeFields(fs);
      if r.Pass? { EndMap(); }
      AroundWritten(o, "{", EmitFields(fs, true), "}");
    }

    /** `serialize_struct_variant`, one `serialize_field` per field, then `end`. */
    method WriteStructVariant(variant: string, fs: seq<Field>) returns (r: Outcome)
      modifies this
      decreases fs, 1
      ensures output == old(output) + Emit(StructVariant(variant, fs), old(start)).text
      ensures start == Emit(StructVariant(variant, fs), old(start)).start
      ensures r == Emit(StructVariant(variant, fs), old(start)).result
    {
      ghost var o := output;
      assert Emit(StructVariant(variant, fs), start) == Around("{" + Quoted(variant) + ":{", EmitFields(fs, true), "}}");
      SerializeStructVariant(variant);
      r := SerializeFields(fs);
      if r.Pass? { EndStructVariant(); }
      AroundWritten(o, "{" + Quoted(variant) + ":{", EmitFields(fs, true), "}}");
    }

    /** `value.serialize(&mut serializer)`: the calls the application
        type's code makes for `v`, each `?` returning the first error. */
    method Serialize(v: Value) returns (r: Outcome)
      modifies this
      decreases v, 1
      ensures output == old(output) + Emit(v, old(start)).text
      ensures start == Emit(v, old(start)).start
      ensures r == Emit(v, old(start)).result
    {
      r := Pass;
      if IsScalar(v) {
        SerializeScalar(v);
        return;
      }
      match v
      case Bytes(bs) => SerializeBytes(bs);
      case Some(x) => r := SerializeSome(x);
      case NewtypeStruct(x) => r := SerializeNewtypeStruct(x);
      case NewtypeVariant(name, x) => r := SerializeNewtypeVariant(name, x);
      case Seq(es) => r := WriteSeq(es);
      case Tuple(es) => r := WriteTuple(es);
      case TupleStruct(es) => r := WriteTupleStruct(es);
      case TupleVariant(name, es) => r := WriteTupleVariant(name, es);
      case Map(en) => r := WriteMap(en);
      case Struct(fs) => r := WriteStruct(fs);
      case StructVariant(name, fs) => r := WriteStructVariant(name, fs);
      case Custom(m) => r := Fail(Message(m));
    }
  }

  /** `KeySerializer` (src/ser.rs:372-551): a serializer for map keys that
      writes string and char keys through a fresh `Serializer` and rejects
      every other shape without writing anything. */
  class KeySerializer {
    var output: string

    constructor (output: string)
      ensures this.output == output
    {
      this.output := output;
    }

    method SerializeStr(s: string)
      modifies this
      ensures output == old(output) + Quoted(s)
    {
      var inner := new Serializer(output);
      inner.SerializeStr(s);
      output := inner.output;
    }

    method Serialize(k: Value) returns (r: Outcome)
      modifies this
      decreases k
      ensures output == old(output) + KeyWritten(EmitKey(k))
      ensures r == KeyStatus(EmitKey(k))
    {
      match k
      case Str(s) =>
        SerializeStr(s);
        r := Pass;
      case Char(c) =>
        SerializeStr([c]);
        r := Pass;
      case Some(x) => r := Serialize(x);
      case NewtypeStruct(x) => r := Serialize(x);
      case Custom(m) => r := Fail(Message(m));
      case _ => r := Fail(KeyNotString);
    }
  }

  /** `to_string`: the whole text, or the first error. */
  method ToString(v: Value) returns (r: Result<string>)
    ensures r.Ok? <==> Emit(v, false).result.Pass?
    ensures r.Ok? ==> r.value == Emit(v, false).text
    ensures r.Err? ==> r.error == Emit(v, false).result.error
  {
    var serializer := new Serializer([]);
    var res := serializer.Serialize(v);
    if res.Fail? {
      return Err(res.error);
    }
    r := Ok(serializer.output);
  }

  /** `to_writer`: appends to what the writer already holds; on an error
      the text written before it stays in the writer. */
  method ToWriter(v: Value, writer: string) returns (r: Outcome, written: string)
    ensures written == writer + Emit(v, false).text
    ensures r == Emit(v, false).result
  {
    var serializer := new Serializer(writer);
    r := serializer.Serialize(v);
    written := serializer.output;
  }
}
