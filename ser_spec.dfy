/** What the serializer of src/ser.rs writes, as functions of the value and
    of the shared `start` flag. `Emit(v, start)` is exactly the text one
    `serialize` call appends for `v` when the flag holds `start`, the flag
    it leaves behind, and the call's result; the methods of module `Ser`
    are proved against it. `Json` is the independent reference: the JSON
    text of a value written with comma-joined elements and no whitespace. */
module SerSpec {
  import opened Errors
  import opened Values
  import opened DecimalText
  import Parse

  /** `escape` (src/ser.rs:574-586), the serializer's own copy of the
      character escaper; `SerProperties.EscapeAgrees` shows that it agrees
      with `Parse.Escape` on every character. */
  function Escape(c: char): string
  {
    match c
    case '"' => "\\\""
    case '\\' => "\\\\"
    case '\U{0008}' => "\\b"
    case '\U{000C}' => "\\f"
    case '\n' => "\\n"
    case '\r' => "\\r"
    case '\t' => "\\t"
    case _ =>
      if c <= '\U{001F}' then
        var n := c as int;
        "\\u00" + [Parse.HexDigit(n / 16), Parse.HexDigit(n % 16)]
      else [c]
  }

  /** `v.chars().map(escape).collect::<String>()`. */
  function Escaped(s: string): string
  {
    if s == [] then [] else Escaped(s[..|s| - 1]) + Escape(s[|s| - 1])
  }

  /** The text `serialize_str` writes. */
  function Quoted(s: string): string
  {
    "\"" + Escaped(s) + "\""
  }

  /** The effect of one serializer call: the text it appended, the value it
      left in `start`, and its result. On an error, `text` is what had been
      written before the error; nothing is written after it. */
  datatype Emission = Emission(text: string, start: bool, result: Outcome)

  function Wrote(text: string, start: bool): Emission
  {
    Emission(text, start, Pass)
  }

  /** `before` is written, then `inner` runs; `after` is written only if it succeeded. */
  function Around(before: string, inner: Emission, after: string): Emission
  {
    if inner.result.Pass? then Emission(before + inner.text + after, inner.start, inner.result)
    else Emission(before + inner.text, inner.start, inner.result)
  }

  /** The `,` an element or key writes: only when the flag is clear. */
  function Sep(start: bool): string
  {
    if start then "" else ","
  }

  /** The calls that write one token and leave the flag alone. */
  predicate IsScalar(v: Value)
  {
    v.Bool? || v.I8? || v.I16? || v.I32? || v.I64? || v.U8? || v.U16? || v.U32? || v.U64?
    || v.Float? || v.Char? || v.Str? || v.None? || v.Unit? || v.UnitStruct? || v.UnitVariant?
  }

  /** The scalars written as a decimal integer. */
  predicate IsInteger(v: Value)
  {
    v.I8? || v.I16? || v.I32? || v.I64? || v.U8? || v.U16? || v.U32? || v.U64?
  }

  /** The integer written: the narrower integers are widened to 64 bits
      first (src/ser.rs:43-51, 58-66), which keeps the value. */
  function IntegerValue(v: Value): int
    requires IsInteger(v)
  {
    match v
    case I8(x) => (x as int) as i64 as int
    case I16(x) => (x as int) as i64 as int
    case I32(x) => (x as int) as i64 as int
    case I64(x) => x as int
    case U8(x) => (x as int) as u64 as int
    case U16(x) => (x as int) as u64 as int
    case U32(x) => (x as int) as u64 as int
    case U64(x) => x as int
  }

  /** The scalars written as a quoted string: a `char` as a one-character
      string, a unit variant as its name. */
  predicate IsStringLike(v: Value)
  {
    v.Char? || v.Str? || v.UnitVariant?
  }

  function StringText(v: Value): string
    requires IsStringLike(v)
  {
    match v
    case Char(c) => [c]
    case Str(s) => s
    case UnitVariant(name) => name
  }

  /** The token a scalar call writes; `None`, `()` and unit structs are `null`. */
  function ScalarText(v: Value): string
    requires IsScalar(v)
  {
    if v.Bool? then (if v.b then "true" else "false")
    else if IsInteger(v) then Decimal(IntegerValue(v))
    else if v.Float? then v.text
    else if IsStringLike(v) then Quoted(StringText(v))
    else "null"
  }

  /** `value.serialize(&mut serializer)` with the flag holding `start`. */
  function Emit(v: Value, start: bool): Emission
    decreases v
  {
    if IsScalar(v) then Wrote(ScalarText(v), start)
    else
      match v
      case Bytes(bs) => Around("[", EmitBytes(bs, true), "]")
      case Some(x) => Emit(x, start)
      case NewtypeStruct(x) => Emit(x, start)
      case NewtypeVariant(name, x) => Around("{" + Quoted(name) + ":", Emit(x, start), "}")
      case Seq(es) => Around("[", EmitElements(es, true), "]")
      case Tuple(es) => Around("[", EmitElements(es, true), "]")
      case TupleStruct(es) => Around("[", EmitElements(es, true), "]")
      case TupleVariant(name, es) => Around("{" + Quoted(name) + ":[", EmitElements(es, true), "]}")
      case Map(en) => Around("{", EmitEntries(en, true), "}")
      case Struct(fs) => Around("{", EmitFields(fs, true), "}")
      case StructVariant(name, fs) => Around("{" + Quoted(name) + ":{", EmitFields(fs, true), "}}")
      case Custom(m) => Emission([], start, Fail(Message(m)))
  }

  /** `serialize_element` for each of `es` in turn, stopping at the first
      error; `start` is the flag before the first element. */
  function EmitElements(es: seq<Value>, start: bool): Emission
    decreases es
  {
    if es == [] then Wrote([], start)
    else
      var prior := EmitElements(es[..|es| - 1], start);
      if prior.result.Fail? then prior
      else
        var e := Emit(es[|es| - 1], false);
        Emission(prior.text + Sep(prior.start) + e.text, e.start, e.result)
  }

  /** The loop of `serialize_bytes`: each byte is an element written by `serialize_u8`. */
  function EmitBytes(bs: seq<u8>, start: bool): Emission
  {
    if bs == [] then Wrote([], start)
    else
      var prior := EmitBytes(bs[..|bs| - 1], start);
      Wrote(prior.text + Sep(prior.start) + Decimal(bs[|bs| - 1] as int), false)
  }

  /** `serialize_key` then `serialize_value` for each entry in turn. */
  function EmitEntries(en: seq<Entry>, start: bool): Emission
    decreases en
  {
    if en == [] then Wrote([], start)
    else
      var prior := EmitEntries(en[..|en| - 1], start);
      if prior.result.Fail? then prior
      else
        var e := EmitEntry(en[|en| - 1]);
        Emission(prior.text + Sep(prior.start) + e.text, e.start, e.result)
  }

  /** One entry after its `,`: the key through the key serializer, `:`, and
      the value with the flag already cleared. */
  function EmitEntry(e: Entry): Emission
    decreases e
  {
    match EmitKey(e.key)
    case Err(err) => Emission([], false, Fail(err))
    case Ok(k) => Around(k + ":", Emit(e.value, false), "")
  }

  /** `serialize_field` for each field in turn: `serialize_entry` with the
      field name as a `&str` key. */
  function EmitFields(fs: seq<Field>, start: bool): Emission
    decreases fs
  {
    if fs == [] then Wrote([], start)
    else
      var prior := EmitFields(fs[..|fs| - 1], start);
      if prior.result.Fail? then prior
      else
        var e := EmitField(fs[|fs| - 1]);
        Emission(prior.text + Sep(prior.start) + e.text, e.start, e.result)
  }

  function EmitField(f: Field): Emission
    decreases f
  {
    Around(Quoted(f.name) + ":", Emit(f.value, false), "")
  }

  /** `key.serialize(&mut KeySerializer { .. })`: the text written for a
      map key, or the error. A rejected key writes nothing. */
  function EmitKey(k: Value): Result<string>
  {
    match k
    case Str(s) => Ok(Quoted(s))
    case Char(c) => Ok(Quoted([c]))
    case Some(x) => EmitKey(x)
    case NewtypeStruct(x) => EmitKey(x)
    case Custom(m) => Err(Message(m))
    case _ => Err(KeyNotString)
  }

  /** The result of the key serializer as a call's result, and the text it wrote. */
  function KeyStatus(r: Result<string>): Outcome
  {
    if r.Ok? then Pass else Fail(r.error)
  }

  function KeyWritten(r: Result<string>): string
  {
    if r.Ok? then r.value else []
  }

  /** Regrouping concatenations, stated once so that proofs can name it. */
  lemma Assoc(a: string, b: string, c: string)
    ensures a + b + c == a + (b + c)
  {
  }

  lemma Assoc3(a: string, b: string, c: string, d: string)
    ensures a + b + c + d == a + (b + c + d)
  {
  }

  // ----- one more item -----

  lemma ElementsStep(es: seq<Value>, i: nat, start: bool)
    requires i < |es|
    requires EmitElements(es[..i], start).result.Pass?
    ensures var prior := EmitElements(es[..i], start);
            var e := Emit(es[i], false);
            EmitElements(es[..i + 1], start) == Emission(prior.text + Sep(prior.start) + e.text, e.start, e.result)
  {
    assert es[..i + 1][..i] == es[..i];
  }

  lemma EntriesStep(en: seq<Entry>, i: nat, start: bool)
    requires i < |en|
    requires EmitEntries(en[..i], start).result.Pass?
    ensures var prior := EmitEntries(en[..i], start);
            var e := EmitEntry(en[i]);
            EmitEntries(en[..i + 1], start) == Emission(prior.text + Sep(prior.start) + e.text, e.start, e.result)
  {
    assert en[..i + 1][..i] == en[..i];
  }

  lemma FieldsStep(fs: seq<Field>, i: nat, start: bool)
    requires i < |fs|
    requires EmitFields(fs[..i], start).result.Pass?
    ensures var prior := EmitFields(fs[..i], start);
            var e := EmitField(fs[i]);
            EmitFields(fs[..i + 1], start) == Emission(prior.text + Sep(prior.start) + e.text, e.start, e.result)
  {
    assert fs[..i + 1][..i] == fs[..i];
  }

  lemma BytesStep(bs: seq<u8>, i: nat, start: bool)
    requires i < |bs|
    ensures var prior := EmitBytes(bs[..i], start);
            EmitBytes(bs[..i + 1], start) == Wrote(prior.text + Sep(prior.start) + Decimal(bs[i] as int), false)
  {
    assert bs[..i + 1][..i] == bs[..i];
  }

  // ----- an aggregate stops at its first failing item -----

  lemma {:induction false} ElementsStop(es: seq<Value>, k: nat, start: bool)
    requires k <= |es|
    requires EmitElements(es[..k], start).result.Fail?
    ensures EmitElements(es, start) == EmitElements(es[..k], start)
    decreases |es| - k
  {
    if k < |es| {
      assert es[..k + 1][..k] == es[..k];
      ElementsStop(es, k + 1, start);
    } else {
      assert es[..k] == es;
    }
  }

  lemma {:induction false} EntriesStop(en: seq<Entry>, k: nat, start: bool)
    requires k <= |en|
    requires EmitEntries(en[..k], start).result.Fail?
    ensures EmitEntries(en, start) == EmitEntries(en[..k], start)
    decreases |en| - k
  {
    if k < |en| {
      assert en[..k + 1][..k] == en[..k];
      EntriesStop(en, k + 1, start);
    } else {
      assert en[..k] == en;
    }
  }

  lemma {:induction false} FieldsStop(fs: seq<Field>, k: nat, start: bool)
    requires k <= |fs|
    requires EmitFields(fs[..k], start).result.Fail?
    ensures EmitFields(fs, start) == EmitFields(fs[..k], start)
    decreases |fs| - k
  {
    if k < |fs| {
      assert fs[..k + 1][..k] == fs[..k];
      FieldsStop(fs, k + 1, start);
    } else {
      assert fs[..k] == fs;
    }
  }

  // ----- shapes of values -----

  /** A key the key serializer accepts: a string or char, possibly inside
      `Some` and newtype structs. */
  predicate IsStringKey(k: Value)
  {
    match k
    case Str(_) => true
    case Char(_) => true
    case Some(x) => IsStringKey(x)
    case NewtypeStruct(x) => IsStringKey(x)
    case _ => false
  }

  /** No `Custom` failure anywhere in `v`. */
  predicate NoCustom(v: Value)
    decreases v
  {
    match v
    case Custom(_) => false
    case Some(x) => NoCustom(x)
    case NewtypeStruct(x) => NoCustom(x)
    case NewtypeVariant(_, x) => NoCustom(x)
    case Seq(es) => forall i :: 0 <= i < |es| ==> NoCustom(es[i])
    case Tuple(es) => forall i :: 0 <= i < |es| ==> NoCustom(es[i])
    case TupleStruct(es) => forall i :: 0 <= i < |es| ==> NoCustom(es[i])
    case TupleVariant(_, es) => forall i :: 0 <= i < |es| ==> NoCustom(es[i])
    case Map(en) => forall i :: 0 <= i < |en| ==> NoCustom(en[i].key) && NoCustom(en[i].value)
    case Struct(fs) => forall i :: 0 <= i < |fs| ==> NoCustom(fs[i].value)
    case StructVariant(_, fs) => forall i :: 0 <= i < |fs| ==> NoCustom(fs[i].value)
    case _ => true
  }

  /** `v` serializes without error: no `Custom` failure and every map key a string key. */
  predicate Renderable(v: Value)
    decreases v
  {
    match v
    case Custom(_) => false
    case Some(x) => Renderable(x)
    case NewtypeStruct(x) => Renderable(x)
    case NewtypeVariant(_, x) => Renderable(x)
    case Seq(es) => forall i :: 0 <= i < |es| ==> Renderable(es[i])
    case Tuple(es) => forall i :: 0 <= i < |es| ==> Renderable(es[i])
    case TupleStruct(es) => forall i :: 0 <= i < |es| ==> Renderable(es[i])
    case TupleVariant(_, es) => forall i :: 0 <= i < |es| ==> Renderable(es[i])
    case Map(en) => forall i :: 0 <= i < |en| ==> IsStringKey(en[i].key) && Renderable(en[i].value)
    case Struct(fs) => forall i :: 0 <= i < |fs| ==> Renderable(fs[i].value)
    case StructVariant(_, fs) => forall i :: 0 <= i < |fs| ==> Renderable(fs[i].value)
    case _ => true
  }

  /** The last aggregate `v` opens is empty: the flag is still set when `v` is done. */
  predicate EndsEmpty(v: Value)
    decreases v
  {
    match v
    case Some(x) => EndsEmpty(x)
    case NewtypeStruct(x) => EndsEmpty(x)
    case NewtypeVariant(_, x) => EndsEmpty(x)
    case Bytes(bs) => bs == []
    case Seq(es) => es == [] || EndsEmpty(es[|es| - 1])
    case Tuple(es) => es == [] || EndsEmpty(es[|es| - 1])
    case TupleStruct(es) => es == [] || EndsEmpty(es[|es| - 1])
    case TupleVariant(_, es) => es == [] || EndsEmpty(es[|es| - 1])
    case Map(en) => en == [] || EndsEmpty(en[|en| - 1].value)
    case Struct(fs) => fs == [] || EndsEmpty(fs[|fs| - 1].value)
    case StructVariant(_, fs) => fs == [] || EndsEmpty(fs[|fs| - 1].value)
    case _ => false
  }

  /** No aggregate anywhere in `v`, `v` included, is empty. */
  predicate Solid(v: Value)
    decreases v
  {
    match v
    case Some(x) => Solid(x)
    case NewtypeStruct(x) => Solid(x)
    case NewtypeVariant(_, x) => Solid(x)
    case Bytes(bs) => bs != []
    case Seq(es) => es != [] && forall i :: 0 <= i < |es| ==> Solid(es[i])
    case Tuple(es) => es != [] && forall i :: 0 <= i < |es| ==> Solid(es[i])
    case TupleStruct(es) => es != [] && forall i :: 0 <= i < |es| ==> Solid(es[i])
    case TupleVariant(_, es) => es != [] && forall i :: 0 <= i < |es| ==> Solid(es[i])
    case Map(en) => en != [] && forall i :: 0 <= i < |en| ==> Solid(en[i].value)
    case Struct(fs) => fs != [] && forall i :: 0 <= i < |fs| ==> Solid(fs[i].value)
    case StructVariant(_, fs) => fs != [] && forall i :: 0 <= i < |fs| ==> Solid(fs[i].value)
    case _ => true
  }

  /** No empty aggregate nested inside `v` (`v` itself may be empty). */
  predicate NoEmptyNested(v: Value)
    decreases v
  {
    match v
    case Some(x) => NoEmptyNested(x)
    case NewtypeStruct(x) => NoEmptyNested(x)
    case NewtypeVariant(_, x) => NoEmptyNested(x)
    case Seq(es) => forall i :: 0 <= i < |es| ==> Solid(es[i])
    case Tuple(es) => forall i :: 0 <= i < |es| ==> Solid(es[i])
    case TupleStruct(es) => forall i :: 0 <= i < |es| ==> Solid(es[i])
    case TupleVariant(_, es) => forall i :: 0 <= i < |es| ==> Solid(es[i])
    case Map(en) => forall i :: 0 <= i < |en| ==> Solid(en[i].value)
    case Struct(fs) => forall i :: 0 <= i < |fs| ==> Solid(fs[i].value)
    case StructVariant(_, fs) => forall i :: 0 <= i < |fs| ==> Solid(fs[i].value)
    case _ => true
  }

  // ----- the reference rendering -----

  /** `items` joined by `,`. */
  function Join(items: seq<string>): string
  {
    if items == [] then []
    else if |items| == 1 then items[0]
    else Join(items[..|items| - 1]) + "," + items[|items| - 1]
  }

  /** The JSON text of a string key. */
  function KeyJson(k: Value): string
    requires IsStringKey(k)
  {
    match k
    case Str(s) => Quoted(s)
    case Char(c) => Quoted([c])
    case Some(x) => KeyJson(x)
    case NewtypeStruct(x) => KeyJson(x)
  }

  /** The JSON text of `v`: scalars in their canonical form, aggregates with
      their items comma-joined, variants as single-entry objects. */
  function Json(v: Value): string
    requires Renderable(v)
    decreases v
  {
    match v
    case Bool(b) => if b then "true" else "false"
    case I8(x) => Decimal(x as int)
    case I16(x) => Decimal(x as int)
    case I32(x) => Decimal(x as int)
    case I64(x) => Decimal(x as int)
    case U8(x) => Decimal(x as int)
    case U16(x) => Decimal(x as int)
    case U32(x) => Decimal(x as int)
    case U64(x) => Decimal(x as int)
    case Float(t) => t
    case Char(c) => Quoted([c])
    case Str(s) => Quoted(s)
    case Bytes(bs) => "[" + Join(seq(|bs|, i requires 0 <= i < |bs| => Decimal(bs[i] as int))) + "]"
    case None => "null"
    case Some(x) => Json(x)
    case Unit => "null"
    case UnitStruct => "null"
    case UnitVariant(name) => Quoted(name)
    case NewtypeStruct(x) => Json(x)
    case NewtypeVariant(name, x) => "{" + Quoted(name) + ":" + Json(x) + "}"
    case Seq(es) => "[" + JsonElements(es) + "]"
    case Tuple(es) => "[" + JsonElements(es) + "]"
    case TupleStruct(es) => "[" + JsonElements(es) + "]"
    case TupleVariant(name, es) => "{" + Quoted(name) + ":[" + JsonElements(es) + "]}"
    case Map(en) => "{" + JsonEntries(en) + "}"
    case Struct(fs) => "{" + JsonFields(fs) + "}"
    case StructVariant(name, fs) => "{" + Quoted(name) + ":{" + JsonFields(fs) + "}}"
  }

  function JsonElements(es: seq<Value>): string
    requires forall i :: 0 <= i < |es| ==> Renderable(es[i])
    decreases es
  {
    Join(seq(|es|, i requires 0 <= i < |es| => Json(es[i])))
  }

  function JsonEntries(en: seq<Entry>): string
    requires forall i :: 0 <= i < |en| ==> IsStringKey(en[i].key) && Renderable(en[i].value)
    decreases en
  {
    Join(seq(|en|, i requires 0 <= i < |en| => JsonEntry(en[i])))
  }

  function JsonEntry(e: Entry): string
    requires IsStringKey(e.key) && Renderable(e.value)
    decreases e
  {
    KeyJson(e.key) + ":" + Json(e.value)
  }

  function JsonFields(fs: seq<Field>): string
    requires forall i :: 0 <= i < |fs| ==> Renderable(fs[i].value)
    decreases fs
  {
    Join(seq(|fs|, i requires 0 <= i < |fs| => JsonField(fs[i])))
  }

  function JsonField(f: Field): string
    requires Renderable(f.value)
    decreases f
  {
    Quoted(f.name) + ":" + Json(f.value)
  }
}
