/** What the serializer of src/ser.rs promises, proved about the functions
    of `SerSpec` that its methods are proved against: the two copies of
    `escape` agree and lose nothing, a value serializes without error
    exactly when every key is a string and no custom error is raised, the
    shared `start` flag is left set exactly by a value that ends with an
    empty aggregate, and, when no nested aggregate is empty, the text is
    the JSON rendering `Json` with comma-joined items. */
module SerProperties {
  import opened Errors
  import opened Values
  import opened DecimalText
  import opened SerSpec
  import Parse

  // ----- the two escapers -----

  /** `escape` of src/ser.rs and `escape` of src/parse.rs agree on every character. */
  lemma EscapeAgrees(c: char)
    ensures Escape(c) == Parse.Escape(c)
  {
    if c <= '\U{001F}' && c !in {'\U{0008}', '\U{000C}', '\n', '\r', '\t'} {
      Parse.EscapeControl(c);
    }
  }

  /** Escaping a string character by character, as `serialize_str` does,
      is `Parse.EscapeAll`. */
  lemma {:induction false} EscapedAgrees(s: string)
    ensures Escaped(s) == Parse.EscapeAll(s)
    decreases |s|
  {
    if s != [] {
      var init, last := s[..|s| - 1], s[|s| - 1];
      EscapedAgrees(init);
      EscapeAgrees(last);
      assert s == init + [last];
      Parse.EscapeAllAppend(init, [last]);
      assert Parse.EscapeAll([last]) == Parse.Escape(last) + Parse.EscapeAll([]);
    }
  }

  /** The content between the quotes `serialize_str` writes decodes back to
      the string, so distinct strings are written differently. */
  lemma StrRoundTrip(s: string, t: string)
    ensures Parse.Unescape(Escaped(s)) == Parse.Some(s)
    ensures Quoted(s) == Quoted(t) ==> s == t
  {
    EscapedAgrees(s);
    EscapedAgrees(t);
    Parse.UnescapeEscapeAll(s);
    if Quoted(s) == Quoted(t) {
      assert Escaped(s) == Quoted(s)[1..|Quoted(s)| - 1];
      assert Escaped(t) == Quoted(t)[1..|Quoted(t)| - 1];
      Parse.EscapeAllInjective(s, t);
    }
  }

  /** No raw control character reaches the output of `serialize_str`. */
  lemma {:induction false} QuotedNoControl(s: string)
    ensures forall i :: 0 <= i < |Quoted(s)| ==> Quoted(s)[i] > '\U{001F}'
  {
    EscapedNoControl(s);
  }

  lemma {:induction false} EscapedNoControl(s: string)
    ensures forall i :: 0 <= i < |Escaped(s)| ==> Escaped(s)[i] > '\U{001F}'
    decreases |s|
  {
    if s != [] {
      var init, last := s[..|s| - 1], s[|s| - 1];
      EscapedNoControl(init);
      EscapeAgrees(last);
      Parse.EscapeShape(last);
      assert Escaped(s) == Escaped(init) + Escape(last);
    }
  }

  /** Escaping works character by character, so it distributes over
      concatenation, and text with nothing to escape is written as it is. */
  lemma {:induction false} EscapedAppend(a: string, b: string)
    ensures Escaped(a + b) == Escaped(a) + Escaped(b)
    decreases |b|
  {
    if b == [] {
      assert a + b == a;
    } else {
      var init, last := b[..|b| - 1], b[|b| - 1];
      EscapedAppend(a, init);
      assert (a + b)[..|a + b| - 1] == a + init;
      assert (a + b)[|a + b| - 1] == last;
      Assoc(Escaped(a), Escaped(init), Escape(last));
    }
  }

  lemma {:induction false} EscapedPlain(s: string)
    requires forall i :: 0 <= i < |s| ==> s[i] > '\U{001F}' && s[i] != '"' && s[i] != '\\'
    ensures Escaped(s) == s
    decreases |s|
  {
    if s != [] {
      var init, last := s[..|s| - 1], s[|s| - 1];
      EscapedPlain(init);
      PlainEscape(last);
      assert s == init + [last];
    }
  }

  /** A character that needs no escape is written as it is. */
  lemma PlainEscape(c: char)
    requires c > '\U{001F}' && c != '"' && c != '\\'
    ensures Escape(c) == [c]
  {
  }

  // ----- scalars -----

  /** The scalar calls write exactly their token and leave the flag alone:
      booleans `true`/`false`, integers their value in minimal decimal
      (the widening to 64 bits keeps it), `None`, `()` and unit structs
      `null`, and chars and unit variant names as strings. */
  lemma ScalarWrites(v: Value, start: bool)
    requires IsScalar(v)
    ensures Emit(v, start) == Wrote(ScalarText(v), start)
    ensures v.Bool? ==> ScalarText(v) == (if v.b then "true" else "false")
    ensures v.I8? ==> ScalarText(v) == Decimal(v.x8 as int)
    ensures v.I16? ==> ScalarText(v) == Decimal(v.x16 as int)
    ensures v.I32? ==> ScalarText(v) == Decimal(v.x32 as int)
    ensures v.I64? ==> ScalarText(v) == Decimal(v.x64 as int)
    ensures v.U8? ==> ScalarText(v) == Decimal(v.n8 as int)
    ensures v.U16? ==> ScalarText(v) == Decimal(v.n16 as int)
    ensures v.U32? ==> ScalarText(v) == Decimal(v.n32 as int)
    ensures v.U64? ==> ScalarText(v) == Decimal(v.n64 as int)
    ensures v.None? || v.Unit? || v.UnitStruct? ==> ScalarText(v) == "null"
    ensures v.Char? ==> ScalarText(v) == ScalarText(Str([v.c]))
    ensures v.UnitVariant? ==> ScalarText(v) == ScalarText(Str(v.variant))
    ensures v.Str? ==> ScalarText(v) == "\"" + Parse.EscapeAll(v.s) + "\""
  {
    if v.Str? {
      EscapedAgrees(v.s);
    }
  }

  /** `Some(x)` and a newtype struct write exactly what `x` writes. */
  lemma WrappersTransparent(x: Value, start: bool)
    ensures Emit(Some(x), start) == Emit(x, start)
    ensures Emit(NewtypeStruct(x), start) == Emit(x, start)
  {
  }

  // ----- success and failure -----

  /** The key serializer accepts exactly the string keys, writes them as
      `serialize_str` would, and otherwise fails with `KeyNotString` unless
      the key's own code raised a custom error first. */
  lemma {:induction false} KeyAccepts(k: Value)
    ensures EmitKey(k).Ok? <==> IsStringKey(k)
    ensures EmitKey(k).Ok? ==> EmitKey(k).value == KeyJson(k) == Emit(k, false).text
    ensures NoCustom(k) && !IsStringKey(k) ==> EmitKey(k) == Err(KeyNotString)
    decreases k, 1
  {
    KeyWrapperAccepts(k);
  }

  lemma {:induction false} KeyWrapperAccepts(k: Value)
    ensures k.Some? || k.NewtypeStruct? ==> (EmitKey(k).Ok? <==> IsStringKey(k))
    ensures k.Some? || k.NewtypeStruct? ==> (EmitKey(k).Ok? ==> EmitKey(k).value == KeyJson(k) == Emit(k, false).text)
    ensures k.Some? || k.NewtypeStruct? ==> (NoCustom(k) && !IsStringKey(k) ==> EmitKey(k) == Err(KeyNotString))
    decreases k, 0
  {
    if k.Some? || k.NewtypeStruct? {
      KeyAccepts(k.inner);
    }
  }

  /** A value serializes without error exactly when it is `Renderable`,
      whatever the flag; and when its own code raises no custom error,
      the only error is `KeyNotString`. */
  lemma {:induction false} EmitSucceeds(v: Value, start: bool)
    ensures Emit(v, start).result.Pass? <==> Renderable(v)
    ensures NoCustom(v) && Emit(v, start).result.Fail? ==> Emit(v, start).result.error == KeyNotString
    decreases v, 1
  {
    WrapperSucceeds(v, start);
    SeqSucceeds(v, start);
    TupleSucceeds(v, start);
    TupleStructSucceeds(v, start);
    TupleVariantSucceeds(v, start);
    MapSucceeds(v, start);
    StructSucceeds(v, start);
    StructVariantSucceeds(v, start);
  }

  lemma {:induction false} WrapperSucceeds(v: Value, start: bool)
    ensures v.Some? || v.NewtypeStruct? || v.NewtypeVariant? ==> (Emit(v, start).result.Pass? <==> Renderable(v))
    ensures v.Some? || v.NewtypeStruct? || v.NewtypeVariant? ==> (NoCustom(v) && Emit(v, start).result.Fail? ==> Emit(v, start).result.error == KeyNotString)
    decreases v, 0
  {
    if v.Some? || v.NewtypeStruct? || v.NewtypeVariant? {
      EmitSucceeds(v.inner, start);
    }
  }

  lemma {:induction false} SeqSucceeds(v: Value, start: bool)
    ensures v.Seq? ==> (Emit(v, start).result.Pass? <==> Renderable(v))
    ensures v.Seq? ==> (NoCustom(v) && Emit(v, start).result.Fail? ==> Emit(v, start).result.error == KeyNotString)
    decreases v, 0
  {
    if v.Seq? {
      ElementsSucceed(v.elems, true);
    }
  }

  lemma {:induction false} TupleSucceeds(v: Value, start: bool)
    ensures v.Tuple? ==> (Emit(v, start).result.Pass? <==> Renderable(v))
    ensures v.Tuple? ==> (NoCustom(v) && Emit(v, start).result.Fail? ==> Emit(v, start).result.error == KeyNotString)
    decreases v, 0
  {
    if v.Tuple? {
      ElementsSucceed(v.elems, true);
    }
  }

  lemma {:induction false} TupleStructSucceeds(v: Value, start: bool)
    ensures v.TupleStruct? ==> (Emit(v, start).result.Pass? <==> Renderable(v))
    ensures v.TupleStruct? ==> (NoCustom(v) && Emit(v, start).result.Fail? ==> Emit(v, start).result.error == KeyNotString)
    decreases v, 0
  {
    if v.TupleStruct? {
      ElementsSucceed(v.elems, true);
    }
  }

  lemma {:induction false} TupleVariantSucceeds(v: Value, start: bool)
    ensures v.TupleVariant? ==> (Emit(v, start).result.Pass? <==> Renderable(v))
    ensures v.TupleVariant? ==> (NoCustom(v) && Emit(v, start).result.Fail? ==> Emit(v, start).result.error == KeyNotString)
    decreases v, 0
  {
    if v.TupleVariant? {
      ElementsSucceed(v.elems, true);
    }
  }

  lemma {:induction false} MapSucceeds(v: Value, start: bool)
    ensures v.Map? ==> (Emit(v, start).result.Pass? <==> Renderable(v))
    ensures v.Map? ==> (NoCustom(v) && Emit(v, start).result.Fail? ==> Emit(v, start).result.error == KeyNotString)
    decreases v, 0
  {
    if v.Map? {
      EntriesSucceed(v.entries, true);
    }
  }

  lemma {:induction false} StructSucceeds(v: Value, start: bool)
    ensures v.Struct? ==> (Emit(v, start).result.Pass? <==> Renderable(v))
    ensures v.Struct? ==> (NoCustom(v) && Emit(v, start).result.Fail? ==> Emit(v, start).result.error == KeyNotString)
    decreases v, 0
  {
    if v.Struct? {
      FieldsSucceed(v.fields, true);
    }
  }

  lemma {:induction false} StructVariantSucceeds(v: Value, start: bool)
    ensures v.StructVariant? ==> (Emit(v, start).result.Pass? <==> Renderable(v))
    ensures v.StructVariant? ==> (NoCustom(v) && Emit(v, start).result.Fail? ==> Emit(v, start).result.error == KeyNotString)
    decreases v, 0
  {
    if v.StructVariant? {
      FieldsSucceed(v.fields, true);
    }
  }

  lemma ElementsSplit(es: seq<Value>, init: seq<Value>)
    requires es != [] && init == es[..|es| - 1]
    ensures (forall i :: 0 <= i < |es| ==> Renderable(es[i]))
            <==> (forall i :: 0 <= i < |init| ==> Renderable(init[i])) && Renderable(es[|es| - 1])
    ensures (forall i :: 0 <= i < |es| ==> NoCustom(es[i]))
            <==> (forall i :: 0 <= i < |init| ==> NoCustom(init[i])) && NoCustom(es[|es| - 1])
  {
    assert forall i :: 0 <= i < |es| - 1 ==> init[i] == es[i];
  }

  lemma {:induction false} ElementsSucceed(es: seq<Value>, start: bool)
    ensures EmitElements(es, start).result.Pass? <==> forall i :: 0 <= i < |es| ==> Renderable(es[i])
    ensures (forall i :: 0 <= i < |es| ==> NoCustom(es[i])) && EmitElements(es, start).result.Fail?
            ==> EmitElements(es, start).result.error == KeyNotString
    decreases es
  {
    if es != [] {
      var init, last := es[..|es| - 1], es[|es| - 1];
      ElementsSucceed(init, start);
      EmitSucceeds(last, false);
      ElementsSplit(es, init);
    }
  }

  lemma EntriesSplit(en: seq<Entry>, init: seq<Entry>)
    requires en != [] && init == en[..|en| - 1]
    ensures (forall i :: 0 <= i < |en| ==> IsStringKey(en[i].key) && Renderable(en[i].value))
            <==> (forall i :: 0 <= i < |init| ==> IsStringKey(init[i].key) && Renderable(init[i].value)) && IsStringKey(en[|en| - 1].key) && Renderable(en[|en| - 1].value)
    ensures (forall i :: 0 <= i < |en| ==> NoCustom(en[i].key) && NoCustom(en[i].value))
            <==> (forall i :: 0 <= i < |init| ==> NoCustom(init[i].key) && NoCustom(init[i].value)) && NoCustom(en[|en| - 1].key) && NoCustom(en[|en| - 1].value)
  {
    assert forall i :: 0 <= i < |en| - 1 ==> init[i] == en[i];
  }

  lemma {:induction false} EntriesSucceed(en: seq<Entry>, start: bool)
    ensures EmitEntries(en, start).result.Pass?
            <==> forall i :: 0 <= i < |en| ==> IsStringKey(en[i].key) && Renderable(en[i].value)
    ensures (forall i :: 0 <= i < |en| ==> NoCustom(en[i].key) && NoCustom(en[i].value))
            && EmitEntries(en, start).result.Fail?
            ==> EmitEntries(en, start).result.error == KeyNotString
    decreases en
  {
    if en != [] {
      var init, last := en[..|en| - 1], en[|en| - 1];
      EntriesSucceed(init, start);
      EntrySucceeds(last);
      EntriesSplit(en, init);
    }
  }

  lemma {:induction false} EntrySucceeds(e: Entry)
    ensures EmitEntry(e).result.Pass? <==> IsStringKey(e.key) && Renderable(e.value)
    ensures NoCustom(e.key) && NoCustom(e.value) && EmitEntry(e).result.Fail?
            ==> EmitEntry(e).result.error == KeyNotString
    decreases e
  {
    KeyAccepts(e.key);
    EmitSucceeds(e.value, false);
  }

  lemma FieldsSplit(fs: seq<Field>, init: seq<Field>)
    requires fs != [] && init == fs[..|fs| - 1]
    ensures (forall i :: 0 <= i < |fs| ==> Renderable(fs[i].value))
            <==> (forall i :: 0 <= i < |init| ==> Renderable(init[i].value)) && Renderable(fs[|fs| - 1].value)
    ensures (forall i :: 0 <= i < |fs| ==> NoCustom(fs[i].value))
            <==> (forall i :: 0 <= i < |init| ==> NoCustom(init[i].value)) && NoCustom(fs[|fs| - 1].value)
  {
    assert forall i :: 0 <= i < |fs| - 1 ==> init[i] == fs[i];
  }

  lemma {:induction false} FieldsSucceed(fs: seq<Field>, start: bool)
    ensures EmitFields(fs, start).result.Pass? <==> forall i :: 0 <= i < |fs| ==> Renderable(fs[i].value)
    ensures (forall i :: 0 <= i < |fs| ==> NoCustom(fs[i].value)) && EmitFields(fs, start).result.Fail?
            ==> EmitFields(fs, start).result.error == KeyNotString
    decreases fs
  {
    if fs != [] {
      var init, last := fs[..|fs| - 1], fs[|fs| - 1];
      FieldsSucceed(init, start);
      FieldSucceeds(last);
      FieldsSplit(fs, init);
    }
  }

  lemma {:induction false} FieldSucceeds(f: Field)
    ensures EmitField(f).result.Pass? <==> Renderable(f.value)
    ensures NoCustom(f.value) && EmitField(f).result.Fail? ==> EmitField(f).result.error == KeyNotString
    decreases f
  {
    EmitSucceeds(f.value, false);
  }

  // ----- the shared flag -----

  /** After a value that serialized without error, starting from a clear
      flag, the flag is set exactly when the last aggregate the value opened
      is empty: `serialize_seq`/`serialize_map` set it and only an element
      or key clears it. */
  lemma {:induction false} FlagAfter(v: Value)
    requires Renderable(v)
    ensures Emit(v, false).start == EndsEmpty(v)
    decreases v, 1
  {
    ScalarFlag(v);
    WrapperFlag(v);
    SeqFlag(v);
    TupleFlag(v);
    TupleStructFlag(v);
    TupleVariantFlag(v);
    MapFlag(v);
    StructFlag(v);
    StructVariantFlag(v);
  }

  lemma ScalarFlag(v: Value)
    ensures IsScalar(v) || v.Bytes? ==> Emit(v, false).start == EndsEmpty(v)
  {
    if IsScalar(v) {
      ScalarWrites(v, false);
    }
  }

  lemma {:induction false} WrapperFlag(v: Value)
    requires Renderable(v)
    ensures v.Some? || v.NewtypeStruct? || v.NewtypeVariant? ==> Emit(v, false).start == EndsEmpty(v)
    decreases v, 0
  {
    if v.Some? || v.NewtypeStruct? || v.NewtypeVariant? {
      FlagAfter(v.inner);
    }
  }

  lemma {:induction false} SeqFlag(v: Value)
    requires Renderable(v)
    ensures v.Seq? ==> Emit(v, false).start == EndsEmpty(v)
    decreases v, 0
  {
    if v.Seq? {
      ElementsFlag(v.elems);
    }
  }

  lemma {:induction false} TupleFlag(v: Value)
    requires Renderable(v)
    ensures v.Tuple? ==> Emit(v, false).start == EndsEmpty(v)
    decreases v, 0
  {
    if v.Tuple? {
      ElementsFlag(v.elems);
    }
  }

  lemma {:induction false} TupleStructFlag(v: Value)
    requires Renderable(v)
    ensures v.TupleStruct? ==> Emit(v, false).start == EndsEmpty(v)
    decreases v, 0
  {
    if v.TupleStruct? {
      ElementsFlag(v.elems);
    }
  }

  lemma {:induction false} TupleVariantFlag(v: Value)
    requires Renderable(v)
    ensures v.TupleVariant? ==> Emit(v, false).start == EndsEmpty(v)
    decreases v, 0
  {
    if v.TupleVariant? {
      ElementsFlag(v.elems);
    }
  }

  lemma {:induction false} MapFlag(v: Value)
    requires Renderable(v)
    ensures v.Map? ==> Emit(v, false).start == EndsEmpty(v)
    decreases v, 0
  {
    if v.Map? {
      EntriesFlag(v.entries);
    }
  }

  lemma {:induction false} StructFlag(v: Value)
    requires Renderable(v)
    ensures v.Struct? ==> Emit(v, false).start == EndsEmpty(v)
    decreases v, 0
  {
    if v.Struct? {
      FieldsFlag(v.fields);
    }
  }

  lemma {:induction false} StructVariantFlag(v: Value)
    requires Renderable(v)
    ensures v.StructVariant? ==> Emit(v, false).start == EndsEmpty(v)
    decreases v, 0
  {
    if v.StructVariant? {
      FieldsFlag(v.fields);
    }
  }

  lemma {:induction false} ElementsFlag(es: seq<Value>)
    requires forall i :: 0 <= i < |es| ==> Renderable(es[i])
    ensures EmitElements(es, true).start == (es == [] || EndsEmpty(es[|es| - 1]))
    decreases es
  {
    if es != [] {
      ElementsSucceed(es[..|es| - 1], true);
      FlagAfter(es[|es| - 1]);
    }
  }

  lemma {:induction false} EntriesFlag(en: seq<Entry>)
    requires forall i :: 0 <= i < |en| ==> IsStringKey(en[i].key) && Renderable(en[i].value)
    ensures EmitEntries(en, true).start == (en == [] || EndsEmpty(en[|en| - 1].value))
    decreases en
  {
    if en != [] {
      EntriesSucceed(en[..|en| - 1], true);
      EntryFlag(en[|en| - 1]);
    }
  }

  lemma {:induction false} EntryFlag(e: Entry)
    requires IsStringKey(e.key) && Renderable(e.value)
    ensures EmitEntry(e).start == EndsEmpty(e.value)
    decreases e
  {
    KeyAccepts(e.key);
    FlagAfter(e.value);
  }

  lemma {:induction false} FieldsFlag(fs: seq<Field>)
    requires forall i :: 0 <= i < |fs| ==> Renderable(fs[i].value)
    ensures EmitFields(fs, true).start == (fs == [] || EndsEmpty(fs[|fs| - 1].value))
    decreases fs
  {
    if fs != [] {
      FieldsSucceed(fs[..|fs| - 1], true);
      FieldFlag(fs[|fs| - 1]);
    }
  }

  lemma {:induction false} FieldFlag(f: Field)
    requires Renderable(f.value)
    ensures EmitField(f).start == EndsEmpty(f.value)
    decreases f
  {
    FlagAfter(f.value);
  }

  /** A value with no empty aggregate anywhere has none nested either, and
      leaves the flag clear. */
  lemma {:induction false} SolidClearsFlag(v: Value)
    requires Solid(v)
    ensures NoEmptyNested(v) && !EndsEmpty(v)
    decreases v, 1
  {
    match v
    case Some(x) => SolidClearsFlag(x);
    case NewtypeStruct(x) => SolidClearsFlag(x);
    case NewtypeVariant(_, x) => SolidClearsFlag(x);
    case Seq(_) => SolidElements(v);
    case Tuple(_) => SolidElements(v);
    case TupleStruct(_) => SolidElements(v);
    case TupleVariant(_, _) => SolidElements(v);
    case Map(en) => SolidClearsFlag(en[|en| - 1].value);
    case Struct(fs) => SolidClearsFlag(fs[|fs| - 1].value);
    case StructVariant(_, fs) => SolidClearsFlag(fs[|fs| - 1].value);
    case _ =>
  }

  lemma {:induction false} SolidElements(v: Value)
    requires (v.Seq? || v.Tuple? || v.TupleStruct? || v.TupleVariant?) && Solid(v)
    ensures NoEmptyNested(v) && !EndsEmpty(v)
    decreases v, 0
  {
    SolidClearsFlag(v.elems[|v.elems| - 1]);
  }

  // ----- the text is JSON when no nested aggregate is empty -----

  /** With no empty aggregate nested inside it, a value that serializes
      without error writes its JSON text: brackets and braces around
      comma-joined items, `key:value` entries, variants as one-entry
      objects. */
  lemma {:induction false} EmitIsJson(v: Value, start: bool)
    requires Renderable(v) && NoEmptyNested(v)
    ensures Emit(v, start).text == Json(v)
    decreases v, 1
  {
    ScalarJson(v, start);
    BytesValueJson(v, start);
    WrapperJson(v, start);
    SeqJson(v, start);
    TupleJson(v, start);
    TupleStructJson(v, start);
    TupleVariantJson(v, start);
    MapJson(v, start);
    StructJson(v, start);
    StructVariantJson(v, start);
  }

  lemma ScalarJson(v: Value, start: bool)
    requires Renderable(v)
    ensures IsScalar(v) ==> Emit(v, start).text == Json(v)
  {
    if IsInteger(v) {
      IntegerJson(v, start);
    } else if IsStringLike(v) {
      StringJson(v, start);
    }
  }

  lemma IntegerJson(v: Value, start: bool)
    requires IsInteger(v)
    ensures Emit(v, start).text == Json(v)
  {
  }

  lemma StringJson(v: Value, start: bool)
    requires IsStringLike(v)
    ensures Emit(v, start).text == Json(v)
  {
  }

  lemma BytesValueJson(v: Value, start: bool)
    requires Renderable(v)
    ensures v.Bytes? ==> Emit(v, start).text == Json(v)
  {
    if v.Bytes? {
      BytesJson(v.bytes);
    }
  }

  lemma {:induction false} WrapperJson(v: Value, start: bool)
    requires Renderable(v) && NoEmptyNested(v)
    ensures v.Some? || v.NewtypeStruct? || v.NewtypeVariant? ==> Emit(v, start).text == Json(v)
    decreases v, 0
  {
    if v.Some? || v.NewtypeStruct? || v.NewtypeVariant? {
      EmitIsJson(v.inner, start);
      EmitSucceeds(v.inner, start);
    }
  }

  lemma {:induction false} SeqJson(v: Value, start: bool)
    requires Renderable(v) && NoEmptyNested(v)
    ensures v.Seq? ==> Emit(v, start).text == Json(v)
    decreases v, 0
  {
    if v.Seq? {
      ElementsJson(v.elems);
    }
  }

  lemma {:induction false} TupleJson(v: Value, start: bool)
    requires Renderable(v) && NoEmptyNested(v)
    ensures v.Tuple? ==> Emit(v, start).text == Json(v)
    decreases v, 0
  {
    if v.Tuple? {
      ElementsJson(v.elems);
    }
  }

  lemma {:induction false} TupleStructJson(v: Value, start: bool)
    requires Renderable(v) && NoEmptyNested(v)
    ensures v.TupleStruct? ==> Emit(v, start).text == Json(v)
    decreases v, 0
  {
    if v.TupleStruct? {
      ElementsJson(v.elems);
    }
  }

  lemma {:induction false} TupleVariantJson(v: Value, start: bool)
    requires Renderable(v) && NoEmptyNested(v)
    ensures v.TupleVariant? ==> Emit(v, start).text == Json(v)
    decreases v, 0
  {
    if v.TupleVariant? {
      ElementsJson(v.elems);
    }
  }

  lemma {:induction false} MapJson(v: Value, start: bool)
    requires Renderable(v) && NoEmptyNested(v)
    ensures v.Map? ==> Emit(v, start).text == Json(v)
    decreases v, 0
  {
    if v.Map? {
      EntriesJson(v.entries);
    }
  }

  lemma {:induction false} StructJson(v: Value, start: bool)
    requires Renderable(v) && NoEmptyNested(v)
    ensures v.Struct? ==> Emit(v, start).text == Json(v)
    decreases v, 0
  {
    if v.Struct? {
      FieldsJson(v.fields);
    }
  }

  lemma {:induction false} StructVariantJson(v: Value, start: bool)
    requires Renderable(v) && NoEmptyNested(v)
    ensures v.StructVariant? ==> Emit(v, start).text == Json(v)
    decreases v, 0
  {
    if v.StructVariant? {
      FieldsJson(v.fields);
    }
  }

  lemma {:induction false} BytesJson(bs: seq<u8>)
    ensures EmitBytes(bs, true).text == Join(seq(|bs|, i requires 0 <= i < |bs| => Decimal(bs[i] as int)))
    ensures EmitBytes(bs, true).start == (bs == [])
    decreases bs
  {
    if bs != [] {
      var init := bs[..|bs| - 1];
      BytesJson(init);
      var items := seq(|bs|, i requires 0 <= i < |bs| => Decimal(bs[i] as int));
      assert items[..|init|] == seq(|init|, i requires 0 <= i < |init| => Decimal(init[i] as int));
      if init == [] {
        assert EmitBytes(bs, true).text == [] + "" + items[0];
      }
    }
  }

  lemma {:induction false} ElementsJson(es: seq<Value>)
    requires forall i :: 0 <= i < |es| ==> Renderable(es[i]) && Solid(es[i])
    ensures EmitElements(es, true).result == Pass
    ensures EmitElements(es, true).text == JsonElements(es)
    ensures EmitElements(es, true).start == (es == [])
    decreases es
  {
    if es != [] {
      var init, last := es[..|es| - 1], es[|es| - 1];
      ElementsJson(init);
      SolidClearsFlag(last);
      EmitIsJson(last, false);
      EmitSucceeds(last, false);
      FlagAfter(last);
      var items := seq(|es|, i requires 0 <= i < |es| => Json(es[i]));
      assert items[..|init|] == seq(|init|, i requires 0 <= i < |init| => Json(init[i]));
      if init == [] {
        assert EmitElements(es, true).text == [] + "" + items[0];
      }
    }
  }

  lemma {:induction false} EntriesJson(en: seq<Entry>)
    requires forall i :: 0 <= i < |en| ==> IsStringKey(en[i].key) && Renderable(en[i].value) && Solid(en[i].value)
    ensures EmitEntries(en, true).result == Pass
    ensures EmitEntries(en, true).text == JsonEntries(en)
    ensures EmitEntries(en, true).start == (en == [])
    decreases en
  {
    if en != [] {
      var init, last := en[..|en| - 1], en[|en| - 1];
      EntriesJson(init);
      EntryJson(last);
      EntriesJoin(en, init);
      if init == [] {
        assert EmitEntries(en, true).text == [] + "" + JsonEntry(last);
      }
    }
  }

  /** `JsonEntries` of a non-empty sequence, from that of all but its last entry. */
  lemma EntriesJoin(en: seq<Entry>, init: seq<Entry>)
    requires en != [] && init == en[..|en| - 1]
    requires forall i :: 0 <= i < |en| ==> IsStringKey(en[i].key) && Renderable(en[i].value)
    ensures init == [] ==> JsonEntries(en) == JsonEntry(en[0])
    ensures init != [] ==> JsonEntries(en) == JsonEntries(init) + "," + JsonEntry(en[|en| - 1])
  {
    var items := seq(|en|, i requires 0 <= i < |en| => JsonEntry(en[i]));
    assert items[..|init|] == seq(|init|, i requires 0 <= i < |init| => JsonEntry(init[i]));
  }

  lemma {:induction false} EntryJson(e: Entry)
    requires IsStringKey(e.key) && Renderable(e.value) && Solid(e.value)
    ensures EmitEntry(e) == Wrote(JsonEntry(e), false)
    decreases e
  {
    KeyAccepts(e.key);
    SolidClearsFlag(e.value);
    EmitIsJson(e.value, false);
    EmitSucceeds(e.value, false);
    FlagAfter(e.value);
    assert KeyJson(e.key) + ":" + Json(e.value) + "" == JsonEntry(e);
  }

  lemma {:induction false} FieldsJson(fs: seq<Field>)
    requires forall i :: 0 <= i < |fs| ==> Renderable(fs[i].value) && Solid(fs[i].value)
    ensures EmitFields(fs, true).result == Pass
    ensures EmitFields(fs, true).text == JsonFields(fs)
    ensures EmitFields(fs, true).start == (fs == [])
    decreases fs
  {
    if fs != [] {
      var init, last := fs[..|fs| - 1], fs[|fs| - 1];
      FieldsJson(init);
      FieldJson(last);
      var items := seq(|fs|, i requires 0 <= i < |fs| => JsonField(fs[i]));
      assert items[..|init|] == seq(|init|, i requires 0 <= i < |init| => JsonField(init[i]));
      if init == [] {
        assert EmitFields(fs, true).text == [] + "" + items[0];
      }
    }
  }

  lemma {:induction false} FieldJson(f: Field)
    requires Renderable(f.value) && Solid(f.value)
    ensures EmitField(f) == Wrote(JsonField(f), false)
    decreases f
  {
    SolidClearsFlag(f.value);
    EmitIsJson(f.value, false);
    EmitSucceeds(f.value, false);
    FlagAfter(f.value);
    assert Quoted(f.name) + ":" + Json(f.value) + "" == JsonField(f);
  }

  // ----- equivalent call sequences -----

  /** `serialize_bytes` writes what a sequence of the bytes as `u8`
      elements writes. */
  lemma BytesAsSeq(bs: seq<u8>, start: bool)
    ensures Emit(Bytes(bs), start) == Emit(Seq(ByteElements(bs)), start)
  {
    BytesAsElements(bs, true);
    AggregateShapes(Bytes(bs), start);
    AggregateShapes(Seq(ByteElements(bs)), start);
  }

  /** How `Emit` opens the aggregates, one unfolding at a time. */
  lemma AggregateShapes(v: Value, start: bool)
    ensures v.Bytes? ==> Emit(v, start) == Around("[", EmitBytes(v.bytes, true), "]")
    ensures v.Seq? ==> Emit(v, start) == Around("[", EmitElements(v.elems, true), "]")
    ensures v.Tuple? ==> Emit(v, start) == Around("[", EmitElements(v.elems, true), "]")
    ensures v.TupleStruct? ==> Emit(v, start) == Around("[", EmitElements(v.elems, true), "]")
    ensures v.Map? ==> Emit(v, start) == Around("{", EmitEntries(v.entries, true), "}")
    ensures v.Struct? ==> Emit(v, start) == Around("{", EmitFields(v.fields, true), "}")
  {
  }

  /** How `Emit` opens the enum variants that carry items. */
  lemma VariantShapes(v: Value, start: bool)
    ensures v.TupleVariant? ==> Emit(v, start) == Around("{" + Quoted(v.variant) + ":[", EmitElements(v.elems, true), "]}")
    ensures v.StructVariant? ==> Emit(v, start) == Around("{" + Quoted(v.variant) + ":{", EmitFields(v.fields, true), "}}")
  {
  }

  lemma {:induction false} BytesAsElements(bs: seq<u8>, start: bool)
    ensures EmitBytes(bs, start) == EmitElements(ByteElements(bs), start)
    decreases bs
  {
    if bs != [] {
      var init, b := bs[..|bs| - 1], bs[|bs| - 1];
      BytesAsElements(init, start);
      assert ByteElements(bs) == ByteElements(init) + [U8(b)];
      assert EmitElements(ByteElements(init), start) == Wrote(EmitBytes(init, start).text, EmitBytes(init, start).start);
      ElementsSnoc(ByteElements(init), U8(b), start);
      ScalarWrites(U8(b), false);
    }
  }

  /** A struct's `serialize_field` is `serialize_entry` with the field name
      as a string key, so a struct writes what the map of its fields writes. */
  lemma StructAsMap(fs: seq<Field>, start: bool)
    ensures Emit(Struct(fs), start) == Emit(Map(FieldEntries(fs)), start)
  {
    FieldsAsEntries(fs, true);
    AggregateShapes(Struct(fs), start);
    AggregateShapes(Map(FieldEntries(fs)), start);
  }

  lemma {:induction false} FieldsAsEntries(fs: seq<Field>, start: bool)
    ensures EmitFields(fs, start) == EmitEntries(FieldEntries(fs), start)
    decreases fs
  {
    if fs != [] {
      var en := FieldEntries(fs);
      var init := fs[..|fs| - 1];
      FieldsAsEntries(init, start);
      assert en[..|en| - 1] == FieldEntries(init);
      assert EmitKey(Str(fs[|fs| - 1].name)) == Ok(Quoted(fs[|fs| - 1].name));
    }
  }

  // ----- small aggregates, item by item -----

  /** One more element after a run that succeeded. */
  lemma ElementsSnoc(init: seq<Value>, x: Value, start: bool)
    requires EmitElements(init, start).result == Pass
    ensures var prior, e := EmitElements(init, start), Emit(x, false);
            EmitElements(init + [x], start) == Emission(prior.text + Sep(prior.start) + e.text, e.start, e.result)
  {
    assert (init + [x])[..|init|] == init;
  }

  lemma EntriesSnoc(init: seq<Entry>, a: Entry, start: bool)
    requires EmitEntries(init, start).result == Pass
    ensures var prior, e := EmitEntries(init, start), EmitEntry(a);
            EmitEntries(init + [a], start) == Emission(prior.text + Sep(prior.start) + e.text, e.start, e.result)
  {
    assert (init + [a])[..|init|] == init;
  }

  lemma FieldsSnoc(init: seq<Field>, f: Field, start: bool)
    requires EmitFields(init, start).result == Pass
    ensures var prior, e := EmitFields(init, start), EmitField(f);
            EmitFields(init + [f], start) == Emission(prior.text + Sep(prior.start) + e.text, e.start, e.result)
  {
    assert (init + [f])[..|init|] == init;
  }

  /** Two elements: the second gets a `,` only if the first cleared the flag. */
  lemma ElementsPair(x: Value, y: Value)
    requires Emit(x, false).result == Pass
    ensures var ex, ey := Emit(x, false), Emit(y, false);
            EmitElements([x, y], true) == Emission(ex.text + Sep(ex.start) + ey.text, ey.start, ey.result)
  {
    var ex := Emit(x, false);
    assert [x, y][..1] == [x];
    assert [x][..0] == [];
    assert [] + Sep(true) + ex.text == ex.text;
    assert EmitElements([x], true) == ex;
  }

  /** Three elements that each write a token and clear the flag. */
  lemma ElementsTriple(x: Value, y: Value, z: Value, tx: string, ty: string, tz: string)
    requires Emit(x, false) == Wrote(tx, false) && Emit(y, false) == Wrote(ty, false)
    requires Emit(z, false) == Wrote(tz, false)
    ensures EmitElements([x, y, z], true) == Wrote(tx + "," + ty + "," + tz, false)
  {
    ElementsPair(x, y);
    assert EmitElements([x, y], true) == Wrote(tx + "," + ty, false);
    ElementsSnoc([x, y], z, true);
    assert [x, y] + [z] == [x, y, z];
  }

  lemma EntriesPair(a: Entry, b: Entry)
    requires EmitEntry(a).result == Pass
    ensures var ea, eb := EmitEntry(a), EmitEntry(b);
            EmitEntries([a, b], true) == Emission(ea.text + Sep(ea.start) + eb.text, eb.start, eb.result)
  {
    var ea := EmitEntry(a);
    assert [a, b][..1] == [a];
    assert [a][..0] == [];
    assert [] + Sep(true) + ea.text == ea.text;
    assert EmitEntries([a], true) == ea;
  }

  lemma FieldsPair(f: Field, g: Field)
    requires EmitField(f).result == Pass
    ensures var ef, eg := EmitField(f), EmitField(g);
            EmitFields([f, g], true) == Emission(ef.text + Sep(ef.start) + eg.text, eg.start, eg.result)
  {
    var ef := EmitField(f);
    assert [f, g][..1] == [f];
    assert [f][..0] == [];
    assert [] + Sep(true) + ef.text == ef.text;
    assert EmitFields([f], true) == ef;
  }

  lemma FieldsTriple(f: Field, g: Field, h: Field, tf: string, tg: string, th: string)
    requires EmitField(f) == Wrote(tf, false) && EmitField(g) == Wrote(tg, false)
    requires EmitField(h) == Wrote(th, false)
    ensures EmitFields([f, g, h], true) == Wrote(tf + "," + tg + "," + th, false)
  {
    FieldsPair(f, g);
    assert EmitFields([f, g], true) == Wrote(tf + "," + tg, false);
    FieldsSnoc([f, g], h, true);
    assert [f, g] + [h] == [f, g, h];
  }

  /** The aggregates of the examples below, from the text of their items. */
  lemma SeqOfTwo(x: Value, y: Value, tx: string, fx: bool, ty: string)
    requires Emit(x, false) == Emission(tx, fx, Pass) && Emit(y, false) == Wrote(ty, false)
    ensures Emit(Seq([x, y]), false) == Wrote("[" + (tx + Sep(fx) + ty) + "]", false)
  {
    ElementsPair(x, y);
    AggregateShapes(Seq([x, y]), false);
  }

  lemma TupleStructOfTwo(x: Value, y: Value, tx: string, ty: string)
    requires Emit(x, false) == Wrote(tx, false) && Emit(y, false) == Wrote(ty, false)
    ensures Emit(TupleStruct([x, y]), false) == Wrote("[" + (tx + "," + ty) + "]", false)
  {
    ElementsPair(x, y);
    AggregateShapes(TupleStruct([x, y]), false);
  }

  lemma TupleOfThree(x: Value, y: Value, z: Value, tx: string, ty: string, tz: string)
    requires Emit(x, false) == Wrote(tx, false) && Emit(y, false) == Wrote(ty, false)
    requires Emit(z, false) == Wrote(tz, false)
    ensures Emit(Tuple([x, y, z]), false) == Wrote("[" + (tx + "," + ty + "," + tz) + "]", false)
  {
    ElementsTriple(x, y, z, tx, ty, tz);
    AggregateShapes(Tuple([x, y, z]), false);
  }

  lemma MapOfTwo(a: Entry, b: Entry, ta: string, fa: bool, eb: Emission)
    requires EmitEntry(a) == Emission(ta, fa, Pass) && EmitEntry(b) == eb
    ensures Emit(Map([a, b]), false) == Around("{", Emission(ta + Sep(fa) + eb.text, eb.start, eb.result), "}")
  {
    EntriesPair(a, b);
    AggregateShapes(Map([a, b]), false);
  }

  lemma NewtypeVariantOf(name: string, x: Value, tx: string)
    requires Emit(x, false) == Wrote(tx, false)
    ensures Emit(NewtypeVariant(name, x), false) == Wrote("{" + Quoted(name) + ":" + tx + "}", false)
  {
  }

  lemma TupleVariantOfThree(name: string, x: Value, y: Value, z: Value, tx: string, ty: string, tz: string)
    requires Emit(x, false) == Wrote(tx, false) && Emit(y, false) == Wrote(ty, false)
    requires Emit(z, false) == Wrote(tz, false)
    ensures Emit(TupleVariant(name, [x, y, z]), false)
            == Wrote("{" + Quoted(name) + ":[" + (tx + "," + ty + "," + tz) + "]}", false)
  {
    ElementsTriple(x, y, z, tx, ty, tz);
    VariantShapes(TupleVariant(name, [x, y, z]), false);
  }

  lemma StructVariantOfThree(name: string, f: Field, g: Field, h: Field, tf: string, tg: string, th: string)
    requires EmitField(f) == Wrote(tf, false) && EmitField(g) == Wrote(tg, false)
    requires EmitField(h) == Wrote(th, false)
    ensures Emit(StructVariant(name, [f, g, h]), false)
            == Wrote("{" + Quoted(name) + ":{" + (tf + "," + tg + "," + th) + "}}", false)
  {
    FieldsTriple(f, g, h, tf, tg, th);
    VariantShapes(StructVariant(name, [f, g, h]), false);
  }

  /** A name with nothing to escape is quoted as it is. */
  lemma PlainQuoted(s: string)
    requires forall i :: 0 <= i < |s| ==> s[i] > '\U{001F}' && s[i] != '"' && s[i] != '\\'
    ensures Quoted(s) == "\"" + s + "\""
  {
    EscapedPlain(s);
  }

  /** An entry with a plain string key. */
  lemma StringKeyEntry(e: Entry, k: string, t: string, f: bool)
    requires e.key == Str(k) && Emit(e.value, false) == Emission(t, f, Pass)
    requires forall i :: 0 <= i < |k| ==> k[i] > '\U{001F}' && k[i] != '"' && k[i] != '\\'
    ensures EmitEntry(e) == Emission("\"" + k + "\":" + t, f, Pass)
  {
    PlainQuoted(k);
  }

  /** A field with a plain name. */
  lemma PlainField(fd: Field, t: string)
    requires Emit(fd.value, false) == Wrote(t, false)
    requires forall i :: 0 <= i < |fd.name| ==> fd.name[i] > '\U{001F}' && fd.name[i] != '"' && fd.name[i] != '\\'
    ensures EmitField(fd) == Wrote("\"" + fd.name + "\":" + t, false)
  {
    PlainQuoted(fd.name);
  }

  /** An empty sequence writes `[]` and leaves the flag set. */
  lemma EmptySeq(start: bool)
    ensures Emit(Seq([]), start) == Emission("[]", true, Pass)
  {
    assert "[" + [] + "]" == "[]";
  }

  /** An integer writes its decimal text. */
  lemma SmallInteger(v: Value, n: int, t: string)
    requires IsInteger(v) && IntegerValue(v) == n && Decimal(n) == t
    ensures Emit(v, false) == Wrote(t, false)
  {
    ScalarWrites(v, false);
  }

  // ----- the shared flag, as written -----

  // The concrete lemmas below take their literal values as parameters fixed
  // by `requires`, and state the expected text split along the items, as
  // the shape lemmas above produce it. Written with literal arguments and one
  // flat string, each such proof makes the verifier unfold `Emit` on the
  // literal far beyond what is needed and exceeds its resource limit.

  /** An empty nested sequence leaves the flag set, so the next element
      gets no comma: `[[],1]` is written `[[]1]`. */
  lemma EmptyNestedSeq(empty: Value, one: Value)
    requires empty == Seq([]) && one == U64(1)
    ensures Emit(Seq([empty, one]), false) == Wrote("[" + ("[]" + "1") + "]", false)
  {
    EmptySeq(false);
    SmallInteger(one, 1, "1");
    SeqOfTwo(empty, one, "[]", true, "1");
  }

  /** The same inside a map: `{"a":[],"b":1}` is written `{"a":[]"b":1}`. */
  lemma EmptyNestedMap(a: Entry, b: Entry)
    requires a == Entry(Str("a"), Seq([])) && b == Entry(Str("b"), U64(1))
    ensures Emit(Map([a, b]), false) == Wrote("{" + ("\"a\":[]" + "\"b\":1") + "}", false)
  {
    EmptyNestedEntries(a, b);
    MapOfTwo(a, b, "\"a\":[]", true, Wrote("\"b\":1", false));
    assert "\"a\":[]" + Sep(true) + "\"b\":1" == "\"a\":[]" + "\"b\":1";
  }

  /** The two entries of the case above, one at a time. */
  lemma EmptyNestedEntries(a: Entry, b: Entry)
    requires a == Entry(Str("a"), Seq([])) && b == Entry(Str("b"), U64(1))
    ensures EmitEntry(a) == Emission("\"a\":[]", true, Pass) && EmitEntry(b) == Wrote("\"b\":1", false)
  {
    EmptySeq(false);
    SmallInteger(b.value, 1, "1");
    StringKeyEntry(a, "a", "[]", true);
    StringKeyEntry(b, "b", "1", false);
  }

  /** A rejected key fails after its `,` has been written. */
  lemma BadKeyAfterComma(a: Entry, b: Entry)
    requires a == Entry(Str("a"), I32(1)) && b == Entry(I32(2), I32(2))
    ensures Emit(Map([a, b]), false) == Emission("{" + ("\"a\":1" + ","), false, Fail(KeyNotString))
  {
    SmallInteger(a.value, 1, "1");
    StringKeyEntry(a, "a", "1", false);
    MapOfTwo(a, b, "\"a\":1", false, Emission([], false, Fail(KeyNotString)));
  }

  // ----- the cases of tests/ser.rs -----

  /** The string `droddyrox`. */
  lemma PlainStringCase(s: string)
    requires s == "droddyrox"
    ensures Emit(Str(s), false).text == "\"" + s + "\""
  {
    PlainStr(s);
  }

  /** A string with nothing to escape is written between quotes as it is. */
  lemma PlainStr(s: string)
    requires forall i :: 0 <= i < |s| ==> s[i] > '\U{001F}' && s[i] != '"' && s[i] != '\\'
    ensures Emit(Str(s), false) == Wrote("\"" + s + "\"", false)
  {
    EscapedPlain(s);
  }

  /** The string `droddy"rox"`: each `"` is written `\"`. */
  lemma QuoteStringCase(d: string, q: string, r: string)
    requires d == "droddy" && q == "\"" && r == "rox"
    ensures Emit(Str(d + q + r + q), false).text == q + (d + "\\\"" + r + "\\\"") + q
  {
    EscapedPlain(d);
    EscapedPlain(r);
    assert Escaped(q) == "\\\"";
    StrOfFour(d, q, r, q);
  }

  lemma StrOfFour(a: string, b: string, c: string, d: string)
    ensures Emit(Str(a + b + c + d), false).text == "\"" + (Escaped(a) + Escaped(b) + Escaped(c) + Escaped(d)) + "\""
  {
    EscapedFour(a, b, c, d);
  }

  lemma EscapedFour(a: string, b: string, c: string, d: string)
    ensures Escaped(a + b + c + d) == Escaped(a) + Escaped(b) + Escaped(c) + Escaped(d)
  {
    EscapedAppend(a + b + c, d);
    EscapedAppend(a + b, c);
    EscapedAppend(a, b);
  }

  /** The control character 0x0F is written `\u000f`. */
  lemma ControlStringCase()
    ensures Emit(Str("\U{000F}"), false).text == "\"\\u000f\""
  {
    assert Escape('\U{000F}') == "\\u000f";
    assert Escaped("\U{000F}") == Escaped([]) + Escape('\U{000F}');
  }

  /** The array `[1, 2, 3]`, which serde passes to the serializer as a
      tuple, and the tuple `(1, 2, 3)`. */
  lemma TupleCase(one: Value, two: Value, three: Value)
    requires one == I32(1) && two == I32(2) && three == I32(3)
    ensures Emit(Tuple([one, two, three]), false) == Wrote("[" + ("1" + "," + "2" + "," + "3") + "]", false)
  {
    SmallInteger(one, 1, "1");
    SmallInteger(two, 2, "2");
    SmallInteger(three, 3, "3");
    TupleOfThree(one, two, three, "1", "2", "3");
  }

  /** The tuple struct `Point(1, 2)`. */
  lemma TupleStructCase(one: Value, two: Value)
    requires one == I32(1) && two == I32(2)
    ensures Emit(TupleStruct([one, two]), false) == Wrote("[" + ("1" + "," + "2") + "]", false)
  {
    SmallInteger(one, 1, "1");
    SmallInteger(two, 2, "2");
    TupleStructOfTwo(one, two, "1", "2");
  }

  /** The map `{"a": 1, "b": 2}`, in whichever order its entries come. */
  lemma MapCase(a: Entry, b: Entry)
    requires a == Entry(Str("a"), I32(1)) && b == Entry(Str("b"), I32(2))
    ensures Emit(Map([a, b]), false) == Wrote("{" + ("\"a\":1" + "," + "\"b\":2") + "}", false)
    ensures Emit(Map([b, a]), false) == Wrote("{" + ("\"b\":2" + "," + "\"a\":1") + "}", false)
  {
    SmallInteger(a.value, 1, "1");
    SmallInteger(b.value, 2, "2");
    StringKeyEntry(a, "a", "1", false);
    StringKeyEntry(b, "b", "2", false);
    MapOfTwo(a, b, "\"a\":1", false, Wrote("\"b\":2", false));
    MapOfTwo(b, a, "\"b\":2", false, Wrote("\"a\":1", false));
  }

  /** A map with integer keys fails at its first key, after `{`. */
  lemma IntegerKeysCase(a: Entry, b: Entry)
    requires a == Entry(I32(1), I32(1)) && b == Entry(I32(2), I32(2))
    ensures Emit(Map([a, b]), false) == Emission("{", false, Fail(KeyNotString))
  {
    assert [a, b][..1] == [a];
    assert [a][..0] == [];
    assert EmitEntry(a) == Emission([], false, Fail(KeyNotString));
    assert [] + Sep(true) + [] == [];
    assert EmitEntries([a], true) == Emission([], false, Fail(KeyNotString));
    assert "{" + [] == "{";
  }

  /** The newtype variant `Name::First("droddyrox")`. */
  lemma NewtypeVariantCase(name: string, s: string)
    requires name == "First" && s == "droddyrox"
    ensures Emit(NewtypeVariant(name, Str(s)), false)
            == Wrote("{" + ("\"" + name + "\"") + ":" + ("\"" + s + "\"") + "}", false)
  {
    PlainQuoted(name);
    PlainQuoted(s);
    NewtypeVariantOf(name, Str(s), "\"" + s + "\"");
  }

  /** The tuple variant `Color::Rgb(0, 0, 0)`. */
  lemma TupleVariantCase(name: string, zero: Value)
    requires name == "Rgb" && zero == U8(0)
    ensures Emit(TupleVariant(name, [zero, zero, zero]), false)
            == Wrote("{" + ("\"" + name + "\"") + ":[" + ("0" + "," + "0" + "," + "0") + "]}", false)
  {
    PlainQuoted(name);
    SmallInteger(zero, 0, "0");
    TupleVariantOfThree(name, zero, zero, zero, "0", "0", "0");
  }

  /** The struct variant `Color::Rgb { r: 0, g: 0, b: 0 }`. */
  lemma StructVariantCase(name: string, r: Field, g: Field, b: Field)
    requires name == "Rgb" && r == Field("r", U8(0)) && g == Field("g", U8(0)) && b == Field("b", U8(0))
    ensures Emit(StructVariant(name, [r, g, b]), false)
            == Wrote("{" + ("\"" + name + "\"") + ":{" + ("\"r\":0" + "," + "\"g\":0" + "," + "\"b\":0") + "}}", false)
  {
    PlainQuoted(name);
    SmallInteger(U8(0), 0, "0");
    PlainField(r, "0");
    PlainField(g, "0");
    PlainField(b, "0");
    StructVariantOfThree(name, r, g, b, "\"r\":0", "\"g\":0", "\"b\":0");
  }

  /** The newtype struct `Age(0)`. */
  lemma NewtypeStructCase(zero: Value)
    requires zero == U8(0)
    ensures Emit(NewtypeStruct(zero), false) == Wrote("0", false)
  {
    SmallInteger(zero, 0, "0");
  }
}
