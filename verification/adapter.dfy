/**
 * The SQL function `js(code)`: read the script text, evaluate it, and write
 * the resulting value into the SQL result slot. Evaluation itself belongs to
 * the embedded engine and enters as the parameter `eval`.
 */
module Adapter {
  import opened Wrappers
  import opened Numbers
  import opened JsValues
  import opened JsonValues
  import opened Converter

  /** An SQL argument as the function reads it: NULL, or any other value seen as text. */
  datatype SqlArg = ArgNull | ArgText(text: string)

  /** What the engine makes of a script: a value, or a thrown error. */
  datatype Evaluation = Evaluated(value: JsValue) | Thrown(message: string)

  /** The value written into the SQL result slot; JSON is written as JSON-typed text. */
  datatype SqlResult =
    | SqlNull
    | SqlInteger(i: int)
    | SqlDouble(f: Double)
    | SqlText(s: string)
    | SqlJson(json: Value)

  /** Why a call produced no result. */
  datatype Failure =
    | MissingArgument   // no first argument
    | NullArgument      // the first argument is SQL NULL
    | ScriptError       // the script threw or did not parse
    | ConversionError   // a returned array or object has no JSON form
    | UnhandledVariant  // the script returned a variant outside the eight handled ones

  /**
   * Chooses the SQL result for an evaluated value. Scalars are written
   * natively; only arrays and objects go through the converter.
   */
  function Dispatch(v: JsValue): (r: Result<SqlResult, Failure>)
    ensures r == Ok(SqlNull) <==> v.Null?
    ensures r == Ok(SqlText("undefined")) <==> v.Undefined? || v == String("undefined")
    ensures (r.Ok? && r.value.SqlJson?) <==> (v.Object? || v.Array?) && Convert(v).Some?
    ensures r.Ok? && r.value.SqlJson? ==> Convert(v) == Some(r.value.json)
    ensures r.Err? <==> v.Other? || ((v.Object? || v.Array?) && Convert(v).None?)
    ensures v.Other? ==> r == Err(UnhandledVariant)
    ensures (v.Object? || v.Array?) && Convert(v).None? ==> r == Err(ConversionError)
    ensures v.Bool? ==> r == Ok(SqlInteger(if v.b then 1 else 0))
    ensures v.Int? ==> r == Ok(SqlInteger(v.n as int))
    ensures v.Float? ==> r == Ok(SqlDouble(v.f))
    ensures v.String? ==> r == Ok(SqlText(v.s))
  {
    match v
    case Undefined => Ok(SqlText("undefined"))
    case Null => Ok(SqlNull)
    case Bool(b) => Ok(SqlInteger(if b then 1 else 0))
    case Int(n) => Ok(SqlInteger(n as int))
    case Float(f) => Ok(SqlDouble(f))
    case String(s) => Ok(SqlText(s))
    case Object(o) =>
      (match ObjectToJson(o)
       case Some(j) => Ok(SqlJson(j))
       case None => Err(ConversionError))
    case Array(a) =>
      (match ArrayToJson(a)
       case Some(j) => Ok(SqlJson(j))
       case None => Err(ConversionError))
    case Other(_) => Err(UnhandledVariant)
  }

  /** The whole call: argument checks, evaluation, then dispatch. */
  function Js(args: seq<SqlArg>, eval: string -> Evaluation): (r: Result<SqlResult, Failure>)
    ensures r == Err(MissingArgument) <==> |args| == 0
    ensures r == Err(NullArgument) <==> |args| > 0 && args[0].ArgNull?
    ensures |args| > 0 && args[0].ArgText? ==>
      (r == Err(ScriptError) <==> eval(args[0].text).Thrown?)
    ensures |args| > 0 && args[0].ArgText? && eval(args[0].text).Evaluated? ==>
      r == Dispatch(eval(args[0].text).value)
  {
    if |args| == 0 then Err(MissingArgument)
    else
      match args[0]
      case ArgNull => Err(NullArgument)
      case ArgText(code) =>
        match eval(code)
        case Thrown(_) => Err(ScriptError)
        case Evaluated(v) => Dispatch(v)
  }

  /**
   * The SQL-native form of a JSON value: scalars as SQL values (booleans as
   * the integers 1 and 0), arrays and objects as JSON text.
   */
  function Encode(j: Value): SqlResult {
    match j
    case JNull => SqlNull
    case JBool(b) => SqlInteger(if b then 1 else 0)
    case JNumber(IntNumber(n)) => SqlInteger(n)
    case JNumber(FloatNumber(f)) => SqlDouble(f)
    case JString(s) => SqlText(s)
    case JArray(_) => SqlJson(j)
    case JObject(_) => SqlJson(j)
  }

  /**
   * Dispatch is "convert, then encode natively", except at exactly two
   * points: a top-level `Undefined` becomes the text "undefined" rather
   * than NULL, and a top-level non-finite float is written as a double
   * although it has no JSON form.
   */
  lemma DispatchIsConvertThenEncode(v: JsValue)
    ensures !v.Undefined? && !(v.Float? && !IsFinite(v.f)) ==>
      (Dispatch(v).Ok? <==> Convert(v).Some?) &&
      (Convert(v).Some? ==> Dispatch(v) == Ok(Encode(Convert(v).value)))
    ensures v.Undefined? ==> Convert(v) == Some(JNull) && Dispatch(v) == Ok(SqlText("undefined"))
    ensures v.Float? && !IsFinite(v.f) ==> Convert(v).None? && Dispatch(v).Ok?
  {
  }

  /** The scripted null and the scripted `undefined` reach SQL differently, though both convert to JSON null. */
  lemma AbsentValuesDiffer()
    ensures Convert(Undefined) == Convert(Null) == Some(JNull)
    ensures Dispatch(Undefined) != Dispatch(Null)
  {
  }

  /**
   * Given the same first argument and the same engine result for it, the
   * result is the same; arguments after the first are ignored.
   */
  lemma JsDependsOnlyOnFirstArgument(args1: seq<SqlArg>, args2: seq<SqlArg>, eval1: string -> Evaluation, eval2: string -> Evaluation)
    requires |args1| > 0 && |args2| > 0 && args1[0] == args2[0]
    requires args1[0].ArgText? ==> eval1(args1[0].text) == eval2(args1[0].text)
    ensures Js(args1, eval1) == Js(args2, eval2)
  {
  }
}
