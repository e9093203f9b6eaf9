# sqlite-embed-js value conversion, modelled in Dafny

The repository provides one SQLite scalar function, `js(code)`. It evaluates
`code` with an embedded JavaScript engine and writes the resulting value into
the SQL result: scalars as native SQL values, arrays and objects as JSON text.
This project models the part of that with real logic:

- the recursive converter from the engine's value type to a JSON value
  (`convert`, `jsarray_to_serdevalue`, `jsobjct_to_serdevalue` in `src/lib.rs`);
- the dispatch inside `js` that picks the SQL result kind from the value's tag;
- the surrounding call: first-argument checks, evaluation (a parameter), dispatch.

Files:

- `wrappers.dfy`: `Option` and `Result`.
- `numbers.dfy`: `Int32` (the engine's integers) and `Double`, a binary64 kept as its bit pattern, with `IsFinite`.
- `paths.dfy`: paths of array indices and object keys into nested values.
- `js_value.dfy`: the engine value `JsValue`, with `Representable`, `Unencodable` and `UndefinedAsNull`.
- `json_value.dfy`: the JSON value, with `Embeddable`.
- `converter.dfy`: the converter as pure functions, plus methods that mirror the source's loops.
- `converter_properties.dfy`: lemmas about the converter.
- `adapter.dfy`: the SQL result dispatch and the whole `js` call.

The source fails in three ways. The converter returns `None` for an unlisted
variant. The code panics on `unwrap`, `expect` and `todo!`. Reading the
argument returns an `Err` through `?` (src/lib.rs:42). The converter models its
failures as one outcome, `None`. The adapter models every failure as
`Err(Failure)`, where the failure kind names what went wrong. For example,
`ConversionError` covers a rejected float or an element or value that fails,
at any depth.

Floats are kept as IEEE 754 binary64 bit patterns. The only property the model
uses is whether a float is finite, that is, whether its exponent field is not
all ones. `serde_json::Number::from_f64` rejects exactly the non-finite floats,
because JSON has no NaN or infinities (section 6 of RFC 8259). Objects are Dafny
maps, so only the pairing of keys with values is modelled. The order of keys in
the JSON text is left out (see below).

## Model

| member | source | states |
|---|---|---|
| Converter.Convert | src/lib.rs:8-20 | On success the result is JSON null exactly when the input is Undefined or Null. It is an array exactly when the input is an array, and an object exactly when the input is an object. |
| Converter.ArrayToJson | src/lib.rs:22-29 | Array conversion succeeds exactly when every element converts. The result is an array of the same length, and element i is the conversion of input element i. |
| Converter.ObjectToJson | src/lib.rs:31-38 | Object conversion succeeds exactly when every value converts. The result has exactly the input's key set, and each key maps to the conversion of the input's value at that key. |
| Converter.ConvertByLoops | src/lib.rs:8-20 | The converter as the program runs it, with loops and early failure, agrees with the functional definition on every value. |
| Converter.ArrayToJsonByLoop | src/lib.rs:22-29 | The push loop over the elements fails exactly when some element fails. Otherwise it gives the same-length, same-order array of converted elements. |
| Converter.ObjectToJsonByLoop | src/lib.rs:31-38 | The insert loop over the entries, visited in any order, fails exactly when some value fails. Otherwise it gives an object with the same keys and converted values. |
| ConverterProperties.ScalarsConvertDirectly | src/lib.rs:10-15 | Undefined and Null become JSON null. Bool, Int and String keep their payload. A Float converts exactly when it is finite. Unlisted variants fail. |
| ConverterProperties.ConvertSucceedsIffRepresentable | src/lib.rs:8-38 | Totality, in both directions: conversion succeeds exactly on values built only from the eight listed variants with every float finite. |
| ConverterProperties.NestedFailurePropagates | src/lib.rs:14-35 | If any nested value, at any depth, fails to convert, then the whole value fails to convert. |
| ConverterProperties.FailureHasUnencodableLeaf | src/lib.rs:8-38 | Every failed conversion has a cause: a path to a non-finite float or an unlisted variant. |
| ConverterProperties.ConvertFailsIffUnencodableLeaf | src/lib.rs:8-38 | Conversion fails exactly when some path leads to a non-finite float or an unlisted variant. |
| ConverterProperties.PathsCorrespond | src/lib.rs:22-38 | A successful conversion preserves structure at every depth. A path exists in the result exactly when it exists in the input, and there the result holds the conversion of the input's nested value. |
| ConverterProperties.JsonRoundTrip | src/lib.rs:10-17 | Take any JSON value whose numbers are finite and whose integers fit in 32 bits. Its JavaScript counterpart converts back to exactly that JSON value. |
| ConverterProperties.ConvertInvertsToUndefinedAsNull | src/lib.rs:8-38 | Every conversion result is such a JSON value. Mapped back to JavaScript, it is the input with every Undefined replaced by Null. |
| ConverterProperties.ConvertInjectiveUpToUndefined | src/lib.rs:8-38 | Two values that convert to the same JSON differ at most in Undefined versus Null. |
| Adapter.Dispatch | src/lib.rs:44-54 | The NULL result is chosen only for a scripted null. Bool is written as the integer 1 or 0, Int as the same integer, and String as the same text. The text "undefined" comes only from Undefined or from that same string. JSON comes exactly from arrays and objects that convert, and is their conversion. The call fails exactly for unlisted variants, with an unhandled-variant error, and for arrays or objects that do not convert, with a conversion error. A top-level Float is written as a double with no finiteness check. |
| Adapter.DispatchIsConvertThenEncode | src/lib.rs:44-54 | Dispatch equals "convert, then encode natively", except at exactly two points. A top-level Undefined becomes the text "undefined" and not NULL. A top-level non-finite float is written although it cannot be converted. |
| Adapter.AbsentValuesDiffer | src/lib.rs:45-46 | Undefined and Null convert to the same JSON null, but at top level they reach SQL as different results. |
| Adapter.Js | src/lib.rs:40-56 | A missing first argument fails the call, and so does a NULL one. Each of these two failures happens exactly in its own case. A script that throws fails the call. Otherwise the result is the dispatch of the evaluated value. The function is registered with one argument (src/lib.rs:63), so SQL never calls it without an argument. The missing-argument case describes the Rust function only. |
| Adapter.JsDependsOnlyOnFirstArgument | src/lib.rs:40-56 | Given the same first argument and the same engine result for it, the result is the same. Arguments after the first are ignored. That describes the Rust function only, since SQL always passes exactly one argument (src/lib.rs:63). |

## Left out

- Creating the engine (`Context::new().unwrap()`, src/lib.rs:41). It is assumed to succeed, because engine start-up is foreign code.
- Evaluating the script (src/lib.rs:43). It is foreign code, so it enters the model as the parameter `eval` of `Adapter.Js`.
- The SQLite result setters and `value_text_notnull` (src/lib.rs:42, 45-52). They are foreign FFI and are replaced by the `SqlArg` and `SqlResult` datatypes.
- How SQLite turns a non-text argument into text, and how `value_text_notnull` checks it. Any non-NULL argument is modelled as the text SQLite hands over. `value_text_notnull` is not part of this model, and it may also reject arguments this model accepts, such as a BLOB that is not valid UTF-8.
- Errors that `result_text` returns. The source discards them (`let _d = ...`), and the model does not represent them.
- How `result_bool` stores a boolean. `sqlite_loadable` is not part of this model. The model assumes it writes the integers 1 and 0.
- Serialising JSON to text in `result_json`. The model's `SqlJson` carries the JSON value itself.
- Extension registration and the entry point (src/lib.rs:58-68). This is glue code.
- Floating-point arithmetic. Only finiteness is modelled.
- Adapter.Dispatch: a top-level NaN is modelled as the result `SqlDouble`, but SQLite stores a NaN double as NULL. So a script such as `0/0` yields SQL NULL, although the dispatch chose NULL only for a scripted null. SQLite's storage of doubles is not part of this model.
- Key order in objects. The engine hands objects over as a `HashMap`. The order of keys in the JSON text is then set by the `serde_json` map, which is not part of this model: sorted keys by default, or the `HashMap` iteration order when order preservation is enabled. The model uses unordered maps and says nothing about key order.
- Which failures panic and which return an error. The missing argument, the script error, the conversion error and the unhandled variant all panic in the source (`expect`, `unwrap`, `todo!`). The argument check at src/lib.rs:42 returns an error through `?`. The model records the kind of failure, not how it is raised.
- Adapter.JsDependsOnlyOnFirstArgument: isolation between calls and the engine's determinism are assumed, not modelled. The source creates a fresh engine per call (src/lib.rs:41), which the model leaves out. A script such as `Date.now()` gives a different value on each call, even though the function is registered as deterministic (src/lib.rs:65).
