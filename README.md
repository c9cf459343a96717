# Streaming JSON serializer of serde-json-exercise, in Dafny

This project models the serializer of the Rust crate serde-json-exercise
(`src/ser.rs`) and its character escaper (`src/ser.rs` and `src/parse.rs`).

- **The serializer.** A `Serializer` owns an output sink and one `start`
  flag. Each serde data-model call appends JSON text to the sink:
  - booleans, integers, floats, chars and strings;
  - options, unit, unit structs;
  - newtype structs and newtype variants;
  - sequences, tuples, tuple structs and tuple variants;
  - maps, structs and struct variants.

  Aggregates read the `start` flag to decide whether an element or key is
  preceded by `,`.
- **Map keys.** They go through a `KeySerializer`. It accepts only strings
  and chars (looking through `Some` and newtype structs) and rejects every
  other key with `KeyNotString`.
- **Entry points.** `to_string` and `to_writer` run one `serialize` call on
  a fresh serializer.

The application type's own `Serialize` code is outside the crate. The
sequence of calls it makes is given as data: a `Value` (module `Values`)
with one constructor per call shape. A `Custom` constructor stands for that
code raising its own error.

Modules:
- `Errors`: the error kinds, `Result` and `Outcome`.
- `Values`: the data model; fixed-width integers are newtypes of their exact
  range.
- `DecimalText`: minimal decimal text of an integer, with its parsing
  partner.
- `SerSpec`: `Emit(v, start)`, the specification of one `serialize` call. It
  gives the text appended, the flag left behind and the result.
  - `Json(v)` is an independent reference rendering: comma-joined items, no
    whitespace.
  - The predicates `Renderable`, `EndsEmpty`, `Solid` and `NoEmptyNested`
    classify values.
- `Ser`: the `Serializer` and `KeySerializer` classes and the entry points.
  - They are imperative. The fields `output` and `start` are updated in
    place.
  - Byte buffers and aggregates are written by loops.
  - Every method that makes one whole `serialize` call of a value `v` is
    proved to append exactly `Emit(v, old(start)).text` and to leave `start`
    as `Emit` says.
  - The opening, separator, key and closing methods (`SerializeSeq`,
    `BeginElement`, `SerializeKey`, `EndSeq` and the like) and `WriteAll`
    are proved to append the token their `ensures` names, such as `"["`,
    `Sep(old(start))`, the key text followed by `:`, or `"]"`.
- `Parse`: `escape` of `src/parse.rs`, following section 7 of RFC 8259.
  `Unescape` is its decoding partner.
- `SerProperties`: what the serializer promises, proved about `Emit`:
  - the two escapers agree, and escaping loses nothing;
  - scalar output;
  - exactly when serialization succeeds;
  - how the flag is left;
  - the output is `Json(v)` when no nested aggregate is empty;
  - the cases of `tests/ser.rs`.

**The shared `start` flag is modelled as the code has it.** It is a single
field, not a per-aggregate local:
- An empty aggregate sets it and nothing clears it.
- So the next sibling at the enclosing level gets no `,`.

`[[],1]` is written `[[]1]`, and `{"a":[],"b":1}` is written
`{"a":[]"b":1}` (`SerProperties.EmptyNestedSeq`,
`SerProperties.EmptyNestedMap`). A flag scoped per aggregate would write
`[[],1]`; the code's single shared flag writes `[[]1]`, and the model
follows the code. The comma-joined `Json` rendering is therefore proved
only under `NoEmptyNested`.

## Model

| member | source | states |
|---|---|---|
| Parse.Escape | src/parse.rs:1-13 | the escaper; its contract is stated by `Parse.EscapeControl` and `Parse.EscapeShape`, and `Parse.DecodeEscape` is its inverse |
| Parse.Hex4 | src/parse.rs:10 | `{:04x}`: exactly four lower-case hexadecimal digits; `Parse.Hex4RoundTrip` reads them back as the number |
| SerSpec.Escape | src/ser.rs:574-586 | the serializer's copy of the escaper; `SerProperties.EscapeAgrees` shows it equals `Parse.Escape` on every character |
| SerSpec.Escaped | src/ser.rs:87 | `v.chars().map(escape).collect()`; `SerProperties.EscapedAgrees` equates it with `Parse.EscapeAll`, whose inverse is `Parse.Unescape` (`Parse.UnescapeEscapeAll`), and `SerProperties.EscapedNoControl` shows it leaves no raw control character |
| SerSpec.Quoted | src/ser.rs:85-91 | the text `serialize_str` writes: a quote, the escaped string, a quote; `SerProperties.StrRoundTrip` reads the string back from it and `SerProperties.QuotedNoControl` shows it holds no raw control character |
| SerSpec.ScalarText | src/ser.rs:38-131 | the one token each scalar call writes; `SerProperties.ScalarWrites` names it for every kind of scalar, as literals, `Decimal` text or the escaped string |
| SerSpec.IntegerValue | src/ser.rs:43-71 | the integer handed to `itoa` after each narrower integer is widened to 64 bits, which keeps its value; `SerProperties.ScalarWrites` gives each integer's token as `Decimal` of the value, which `DecimalText.DecimalRoundTrip` reads back |
| SerSpec.StringText | src/ser.rs:81-131 | the string a `char`, a `str` or a unit variant's name hands to `serialize_str`; `SerProperties.ScalarWrites` states that a `char` writes what the one-character string writes and a unit variant what its name writes |
| SerSpec.Sep | src/ser.rs:235-239 | the comma that an element, and in the same way a key (src/ser.rs:306-310), writes only when the flag is clear; `Ser.Serializer.BeginElement` is proved to append `Sep(old(start))` and leave the flag clear, and `SerProperties.ElementsFlag` and `SerProperties.EntriesFlag` follow the flag it leaves |
| DecimalText.Decimal | src/ser.rs:52-56 | the text `itoa` gives; `DecimalText.DecimalRoundTrip` shows it is minimal, signed only for negatives, and reads back as the integer |
| SerSpec.Emit | src/ser.rs:26-370 | one `serialize` call: text appended, flag left and result; `Ser.Serializer.Serialize` is proved to do exactly this, and `SerProperties.EmitSucceeds`, `SerProperties.FlagAfter` and `SerProperties.EmitIsJson` state when it succeeds, how it leaves the flag and that it is `Json` |
| SerSpec.EmitBytes | src/ser.rs:93-99 | the byte loop; `SerProperties.BytesAsElements` equates it with the elements of the bytes as `u8`, and `SerProperties.BytesJson` gives its text |
| SerSpec.EmitElements | src/ser.rs:231-246 | the element calls in turn, stopping at the first error; partners `SerProperties.ElementsSucceed`, `SerProperties.ElementsFlag`, `SerProperties.ElementsJson` |
| SerSpec.EmitEntries | src/ser.rs:298-329 | the entry calls in turn, stopping at the first error; partners `SerProperties.EntriesSucceed`, `SerProperties.EntriesFlag`, `SerProperties.EntriesJson` |
| SerSpec.EmitEntry | src/ser.rs:302-323 | key, `:` and value of one entry; partners `SerProperties.EntrySucceeds`, `SerProperties.EntryFlag`, `SerProperties.EntryJson` |
| SerSpec.EmitFields | src/ser.rs:331-370 | the field calls in turn; `SerProperties.FieldsAsEntries` equates them with the entries of the fields |
| SerSpec.EmitField | src/ser.rs:335-344 | one field as a string-keyed entry; partners `SerProperties.FieldSucceeds`, `SerProperties.FieldFlag`, `SerProperties.FieldJson` |
| SerSpec.EmitKey | src/ser.rs:376-551 | the key serializer's text or error; `SerProperties.KeyAccepts` states exactly which keys it accepts and what it writes |
| SerSpec.Json | src/ser.rs:26-370 | the independent reference: JSON text with comma-joined items and no whitespace; `SerProperties.EmitIsJson` ties `Emit` to it |
| Ser.Serializer.constructor | src/ser.rs:17-24 | `Serializer::new` keeps the given output and starts with the flag clear |
| Ser.Serializer.WriteAll | src/ser.rs:39 | `write_all` appends its text to the output and changes nothing else |
| Ser.Serializer.SerializeBool | src/ser.rs:38-41 | appends `true` or `false` |
| Ser.Serializer.SerializeI8 | src/ser.rs:43-45 | widens to `i64` and appends the value's decimal text |
| Ser.Serializer.SerializeI16 | src/ser.rs:46-48 | widens to `i64` and appends the value's decimal text |
| Ser.Serializer.SerializeI32 | src/ser.rs:49-51 | widens to `i64` and appends the value's decimal text |
| Ser.Serializer.SerializeI64 | src/ser.rs:52-56 | appends the minimal decimal text of the value |
| Ser.Serializer.SerializeU8 | src/ser.rs:58-60 | widens to `u64` and appends the value's decimal text |
| Ser.Serializer.SerializeU16 | src/ser.rs:61-63 | widens to `u64` and appends the value's decimal text |
| Ser.Serializer.SerializeU32 | src/ser.rs:64-66 | widens to `u64` and appends the value's decimal text |
| Ser.Serializer.SerializeU64 | src/ser.rs:67-71 | appends the minimal decimal text of the value |
| Ser.Serializer.SerializeFloat | src/ser.rs:73-79 | appends the number's display text, given from outside |
| Ser.Serializer.SerializeChar | src/ser.rs:81-83 | appends what `serialize_str` appends for the one-character string |
| Ser.CollectEscaped | src/ser.rs:87 | the loop over the characters yields the concatenation of `escape` of each one |
| Ser.Serializer.SerializeStr | src/ser.rs:85-91 | appends `"`, the escaped characters, `"`; the flag is untouched |
| Ser.Serializer.SerializeBytes | src/ser.rs:93-99 | appends what `Emit` gives for the byte buffer: `[`, the bytes as `u8` elements, `]` |
| Ser.Serializer.SerializeByteElements | src/ser.rs:95-97 | each byte goes through `serialize_element` and `serialize_u8`; the output and flag end as `EmitBytes` says |
| Ser.Serializer.SerializeNone | src/ser.rs:101-103 | appends `null` |
| Ser.Serializer.SerializeSome | src/ser.rs:105-110 | writes exactly what the inner value writes, flag and result included |
| Ser.Serializer.SerializeUnit | src/ser.rs:112-115 | appends `null` |
| Ser.Serializer.SerializeUnitStruct | src/ser.rs:117-122 | appends `null` |
| Ser.Serializer.SerializeUnitVariant | src/ser.rs:124-131 | appends the variant name as a string |
| Ser.Serializer.SerializeNewtypeStruct | src/ser.rs:133-142 | writes exactly what the inner value writes |
| Ser.Serializer.SerializeNewtypeVariant | src/ser.rs:144-160 | appends `{`, the quoted name, `:`, the payload, and `}` only if the payload succeeded; the result is the payload's |
| Ser.Serializer.SerializeSeq | src/ser.rs:162-169 | sets the flag and appends `[` |
| Ser.Serializer.SerializeTupleVariant | src/ser.rs:183-194 | appends `{`, the quoted name, `:[` and sets the flag |
| Ser.Serializer.SerializeMap | src/ser.rs:196-203 | sets the flag and appends `{` |
| Ser.Serializer.SerializeStructVariant | src/ser.rs:213-224 | appends `{`, the quoted name, `:{` and sets the flag |
| Ser.Serializer.BeginElement | src/ser.rs:235-239 | appends `,` exactly when the flag is clear, and leaves the flag clear |
| Ser.Serializer.SerializeElement | src/ser.rs:231-241 | the separator step, then the element written with the flag clear |
| Ser.Serializer.EndSeq | src/ser.rs:243-246 | appends `]` |
| Ser.Serializer.EndTupleVariant | src/ser.rs:292-295 | appends `]}` |
| Ser.Serializer.SerializeKey | src/ser.rs:302-316 | the separator step, then the key through a key serializer, then `:` only on success; the `,` stays when the key is rejected |
| Ser.Serializer.SerializeValue | src/ser.rs:318-323 | writes the value with the current flag |
| Ser.Serializer.SerializeEntry | src/ser.rs:302-323 | key then value; writes `EmitEntry`'s text, flag and result |
| Ser.Serializer.SerializeField | src/ser.rs:335-344 | `serialize_entry` with the field name as a string key, which is always accepted |
| Ser.Serializer.EndMap | src/ser.rs:325-328 | appends `}` |
| Ser.Serializer.EndStructVariant | src/ser.rs:366-369 | appends `}}` |
| Ser.Serializer.SerializeElements | src/ser.rs:227-296 | the loop of `serialize_element` calls appends `EmitElements`'s text and stops at the first error |
| Ser.Serializer.SerializeEntries | src/ser.rs:298-329 | the loop of `serialize_entry` calls appends `EmitEntries`'s text and stops at the first error |
| Ser.Serializer.SerializeFields | src/ser.rs:331-370 | the loop of `serialize_field` calls appends `EmitFields`'s text and stops at the first error |
| Ser.Serializer.SerializeScalar | src/ser.rs:38-131 | each scalar call appends exactly its token |
| Ser.Serializer.WriteSeq | src/ser.rs:162-169 | a sequence: `[`, the elements, `]` only on success; output, flag and result as `Emit` says |
| Ser.Serializer.WriteTuple | src/ser.rs:171-173 | the same through `serialize_tuple` |
| Ser.Serializer.WriteTupleStruct | src/ser.rs:175-181 | the same through `serialize_tuple_struct` |
| Ser.Serializer.WriteTupleVariant | src/ser.rs:281-296 | `{"name":[`, the elements, `]}` only on success |
| Ser.Serializer.WriteMap | src/ser.rs:298-329 | `{`, the entries, `}` only on success |
| Ser.Serializer.WriteStruct | src/ser.rs:331-349 | `{`, the fields, `}` only on success |
| Ser.Serializer.WriteStructVariant | src/ser.rs:351-370 | `{"name":{`, the fields, `}}` only on success |
| Ser.Serializer.Serialize | src/ser.rs:26-225 | one `serialize` call for any value appends `Emit(v, start).text`, leaves `Emit(v, start).start` and returns its result |
| Ser.KeySerializer.constructor | src/ser.rs:311-313 | the key serializer borrows the output as it stands |
| Ser.KeySerializer.SerializeStr | src/ser.rs:428-434 | writes the key through a fresh serializer whose flag is clear: exactly what `serialize_str` writes |
| Ser.KeySerializer.Serialize | src/ser.rs:376-551 | strings and chars are written and accepted; `Some` and newtype structs are looked through; every other shape fails with `KeyNotString` and writes nothing |
| Ser.ToString | src/ser.rs:553-559 | `Ok` of the whole text exactly when the value serializes without error, otherwise the first error |
| Ser.ToWriter | src/ser.rs:568-572 | the text is appended to what the writer held, and stays there on an error; the result is the serialization's |
| DecimalText.DigitsShape | src/ser.rs:52-56 | the digits of a natural number are digits, minimal (a leading `0` only for zero), and read back as the number |
| DecimalText.DecimalRoundTrip | src/ser.rs:52-56 | decimal text is non-empty, starts with `-` exactly for negatives, has no leading zero, and reads back as the integer |
| Values.ByteElements | src/ser.rs:95-97 | the elements of a byte buffer are its bytes as `u8` values, in order |
| Values.FieldEntries | src/ser.rs:335-344 | each field becomes an entry with the field name as a string key |
| Parse.HexDigit | src/parse.rs:10 | a lower-case hexadecimal digit |
| Parse.HexValue | src/parse.rs:10 | a decoded hexadecimal digit is below 16 |
| Parse.Hex4Value | src/parse.rs:10 | four decoded hexadecimal digits are below 0x10000 |
| Parse.EscapeControl | src/parse.rs:5-10 | the two-character escapes take precedence over the `\u` arm; any other control character becomes `\u00` and two lower-case hex digits |
| Parse.EscapeShape | src/parse.rs:1-13 | an escape has 1, 2 or 6 characters, starts with `\` exactly for `"`, `\` and control characters, is the character itself exactly when it has length 1, and holds no raw control character |
| Parse.HexDigitValue | src/parse.rs:10 | decoding a hex digit gives back its value |
| Parse.Hex4RoundTrip | src/parse.rs:10 | decoding `{:04x}` text gives back the number |
| Parse.DecodeEscape | src/parse.rs:1-13 | decoding the head of an escape gives back the character and consumes exactly the escape |
| Parse.EscapeAllAppend | src/parse.rs:1-13 | escaping distributes over concatenation |
| Parse.UnescapeEscapeAll | src/parse.rs:1-13 | decoding the escaped text of a string gives back the string |
| Parse.EscapeInjective | src/parse.rs:1-13 | distinct characters have distinct escapes |
| Parse.EscapeAllInjective | src/parse.rs:1-13 | distinct strings have distinct escaped texts |
| SerProperties.EscapeAgrees | src/ser.rs:574-586 | `escape` of `src/ser.rs` agrees with `escape` of `src/parse.rs` on every character |
| SerProperties.EscapedAgrees | src/ser.rs:87 | escaping a string character by character agrees with `Parse.EscapeAll` |
| SerProperties.StrRoundTrip | src/ser.rs:85-91 | the escaped content decodes back to the string, and distinct strings are quoted differently |
| SerProperties.QuotedNoControl | src/ser.rs:85-91 | no raw control character appears in the text of `serialize_str` |
| SerProperties.EscapedNoControl | src/ser.rs:87 | no raw control character appears in escaped text |
| SerProperties.EscapedAppend | src/ser.rs:87 | escaping distributes over concatenation |
| SerProperties.EscapedPlain | src/ser.rs:584 | text with nothing to escape is written as it is |
| SerProperties.PlainEscape | src/ser.rs:584 | a character with nothing to escape is written as it is |
| SerProperties.ScalarWrites | src/ser.rs:38-131 | scalars write exactly their token and leave the flag alone: `true`/`false`, minimal decimal, `null`, char and unit variant as strings |
| SerProperties.WrappersTransparent | src/ser.rs:105-110 | `Some(x)` and a newtype struct write exactly what `x` writes |
| SerProperties.KeyAccepts | src/ser.rs:376-551 | a key is accepted exactly when it is a string key and is then written as `serialize_str` writes it; otherwise it is `KeyNotString` unless the key raised its own error |
| SerProperties.EmitSucceeds | src/ser.rs:26-370 | a value serializes without error exactly when it is `Renderable`, whatever the flag; without custom errors the only error is `KeyNotString` |
| SerProperties.ElementsSucceed | src/ser.rs:231-241 | elements succeed exactly when each does |
| SerProperties.EntriesSucceed | src/ser.rs:302-323 | entries succeed exactly when each key is a string key and each value succeeds |
| SerProperties.EntrySucceeds | src/ser.rs:302-323 | one entry succeeds exactly when its key is a string key and its value succeeds |
| SerProperties.FieldsSucceed | src/ser.rs:335-344 | fields succeed exactly when each value does |
| SerProperties.FieldSucceeds | src/ser.rs:335-344 | one field succeeds exactly when its value does |
| SerProperties.FlagAfter | src/ser.rs:166 | starting with the flag clear, a successful value leaves the flag set exactly when the last aggregate it opened is empty |
| SerProperties.ElementsFlag | src/ser.rs:235-239 | after elements the flag is set exactly when there are none or the last ends empty |
| SerProperties.EntriesFlag | src/ser.rs:306-310 | after entries the flag is set exactly when there are none or the last value ends empty |
| SerProperties.EntryFlag | src/ser.rs:306-310 | after an entry the flag is set exactly when its value ends empty |
| SerProperties.FieldsFlag | src/ser.rs:335-344 | after fields the flag is set exactly when there are none or the last value ends empty |
| SerProperties.FieldFlag | src/ser.rs:335-344 | after a field the flag is set exactly when its value ends empty |
| SerProperties.SolidClearsFlag | src/ser.rs:166 | a value with no empty aggregate anywhere has none nested and does not end empty |
| SerProperties.EmitIsJson | src/ser.rs:26-370 | with no empty nested aggregate, a renderable value writes its JSON text `Json(v)` |
| SerProperties.BytesJson | src/ser.rs:93-99 | a byte buffer's items are the comma-joined decimals of its bytes |
| SerProperties.ElementsJson | src/ser.rs:231-246 | elements with no empty aggregate write their comma-joined JSON texts and clear the flag unless there are none |
| SerProperties.EntriesJson | src/ser.rs:302-328 | entries with string keys and no empty aggregate write comma-joined `key:value` texts |
| SerProperties.EntryJson | src/ser.rs:302-323 | an entry writes its quoted key, `:` and the value's JSON text, and clears the flag |
| SerProperties.FieldsJson | src/ser.rs:335-348 | fields write comma-joined `"name":value` texts |
| SerProperties.FieldJson | src/ser.rs:335-344 | a field writes its quoted name, `:` and the value's JSON text |
| SerProperties.BytesAsSeq | src/ser.rs:93-99 | a byte buffer writes what the sequence of its bytes as `u8` elements writes |
| SerProperties.BytesAsElements | src/ser.rs:95-97 | the byte loop writes what `serialize_element` of each byte writes |
| SerProperties.StructAsMap | src/ser.rs:331-349 | a struct writes what the map of its fields with string keys writes |
| SerProperties.FieldsAsEntries | src/ser.rs:335-344 | `serialize_field` writes what `serialize_entry` with the name as a string key writes |
| SerProperties.EmptySeq | src/ser.rs:162-169 | an empty sequence writes `[]` and leaves the flag set |
| SerProperties.EmptyNestedSeq | src/ser.rs:166 | `[[],1]` is written `[[]1]`: the empty inner sequence leaves the flag set, so `1` gets no comma |
| SerProperties.EmptyNestedMap | src/ser.rs:200 | `{"a":[],"b":1}` is written `{"a":[]"b":1}` |
| SerProperties.BadKeyAfterComma | src/ser.rs:306-313 | a rejected second key fails with `KeyNotString` after `{"a":1,` has been written |
| SerProperties.PlainStringCase | tests/ser.rs:4-10 | `droddyrox` is written `"droddyrox"` |
| SerProperties.QuoteStringCase | tests/ser.rs:12-17 | `droddy"rox"` is written with each `"` escaped |
| SerProperties.ControlStringCase | tests/ser.rs:19-24 | the character 0x0F is written `"\u000f"` |
| SerProperties.TupleCase | tests/ser.rs:26-32 | the array `[1, 2, 3]`, which serde passes as a tuple, and the tuple `(1, 2, 3)` are written `[1,2,3]` |
| SerProperties.TupleStructCase | tests/ser.rs:56-64 | `Point(1, 2)` is written `[1,2]` |
| SerProperties.MapCase | tests/ser.rs:34-40 | the map of `a` to 1 and `b` to 2 is written `{"a":1,"b":2}` or `{"b":2,"a":1}`, depending on the order |
| SerProperties.IntegerKeysCase | tests/ser.rs:42-46 | a map with integer keys fails with `KeyNotString` after writing `{` |
| SerProperties.NewtypeVariantCase | tests/ser.rs:66-76 | `Name::First("droddyrox")` is written `{"First":"droddyrox"}` |
| SerProperties.TupleVariantCase | tests/ser.rs:78-88 | `Color::Rgb(0, 0, 0)` is written `{"Rgb":[0,0,0]}` |
| SerProperties.StructVariantCase | tests/ser.rs:90-100 | `Color::Rgb { r: 0, g: 0, b: 0 }` is written `{"Rgb":{"r":0,"g":0,"b":0}}` |
| SerProperties.NewtypeStructCase | tests/ser.rs:102-107 | `Age(0)` is written `0` |

## Left out

- I/O errors: the sink is an in-memory character sequence whose appends cannot fail. The `Io` error kind (src/error.rs:6-10) and the early returns on a failed `write_all` are not part of this model.
- Custom errors: the application code's own error is modelled only as a whole value or a whole item (`Custom`). Code that makes some calls and then fails, writing for example `[1` and stopping, is not expressible; `Seq([U64(1), Custom(m)])` writes `[1,` before failing.
- Floating point: `serialize_f32`/`serialize_f64` write `f64::to_string`. The model takes that display text as given (`Float(text)`) and does not model float formatting. That text is not always JSON: `f64`'s `Display` writes `NaN`, `inf` and `-inf`, so for floats `SerProperties.EmitIsJson` states only that the output equals `Json`, whose `Float` arm is that same text, not that the output is valid JSON.
- `itoa`: the library is replaced by its specification `DecimalText.Decimal`, the minimal decimal text.
- Bytes versus characters: the output is modelled as characters. UTF-8 encoding and the unchecked conversion in `to_string` are not modelled.
- Ser.ToString: also stands for `to_bytes` (src/ser.rs:561-566), which returns the same output before it is read back as UTF-8.
- The application type's `Serialize` code, derive macros and the serde trait plumbing (`Impossible`, the ignored `_len`, `_name` and `_variant_index` arguments) are not modelled. Their calls are given as a `Value`.
- Error display text and the `custom` conversion (src/error.rs:18-34): the model keeps only the error kinds `KeyNotString` and `Message`.
- `src/de.rs`: every entry point is `todo!()`, so there is no deserializer to model. `src/lib.rs` only re-exports.
