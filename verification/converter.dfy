/**
 * The recursive JavaScript-to-JSON value converter. `None` stands for both
 * ways the converter can fail: an explicit "no result" and a panic from
 * unwrapping a failed nested conversion or a rejected float.
 */
module Converter {
  import opened Wrappers
  import opened Numbers
  import opened JsValues
  import opened JsonValues

  /** Converts one value; composites are handed to the array and object converters. */
  function Convert(v: JsValue): (r: Option<Value>)
    ensures r.Some? ==> (r.value.JNull? <==> v.Undefined? || v.Null?)
    ensures r.Some? ==> (r.value.JArray? <==> v.Array?) && (r.value.JObject? <==> v.Object?)
    decreases v, 1
  {
    match v
    case Undefined => Some(JNull)
    case Null => Some(JNull)
    case Bool(b) => Some(JBool(b))
    case Int(n) => Some(JNumber(IntNumber(n as int)))
    case Float(f) => if IsFinite(f) then Some(JNumber(FloatNumber(f))) else None
    case String(s) => Some(JString(s))
    case Object(o) => ObjectToJson(o)
    case Array(a) => ArrayToJson(a)
    case Other(_) => None
  }

  /** Converts every element, in order; fails if any element fails. */
  function ArrayToJson(a: seq<JsValue>): (r: Option<Value>)
    ensures r.Some? <==> forall i | 0 <= i < |a| :: Convert(a[i]).Some?
    ensures r.Some? ==> r.value.JArray? && |r.value.items| == |a|
    ensures r.Some? ==> forall i | 0 <= i < |a| :: Convert(a[i]) == Some(r.value.items[i])
    decreases Array(a), 0
  {
    if forall i | 0 <= i < |a| :: Convert(a[i]).Some? then
      Some(JArray(seq(|a|, i requires 0 <= i < |a| => Convert(a[i]).value)))
    else
      None
  }

  /** Converts the value under every key, keeping the keys; fails if any value fails. */
  function ObjectToJson(o: map<string, JsValue>): (r: Option<Value>)
    ensures r.Some? <==> forall k | k in o :: Convert(o[k]).Some?
    ensures r.Some? ==> r.value.JObject? && r.value.fields.Keys == o.Keys
    ensures r.Some? ==> forall k | k in o :: Convert(o[k]) == Some(r.value.fields[k])
    decreases Object(o), 0
  {
    if forall k | k in o :: Convert(o[k]).Some? then
      Some(JObject(map k | k in o :: Convert(o[k]).value))
    else
      None
  }

  /** The converter as the program runs it: a loop per composite, stopping at the first failure. */
  method ConvertByLoops(v: JsValue) returns (r: Option<Value>)
    ensures r == Convert(v)
    decreases v, 1
  {
    match v {
      case Object(o) =>
        r := ObjectToJsonByLoop(o);
      case Array(a) =>
        r := ArrayToJsonByLoop(a);
      case _ =>
        r := Convert(v);
    }
  }

  /** Pushes the conversion of each element onto a fresh array, left to right. */
  method ArrayToJsonByLoop(a: seq<JsValue>) returns (r: Option<Value>)
    ensures r.Some? <==> forall i | 0 <= i < |a| :: Convert(a[i]).Some?
    ensures r.Some? ==> r.value.JArray? && |r.value.items| == |a|
    ensures r.Some? ==> forall i | 0 <= i < |a| :: Convert(a[i]) == Some(r.value.items[i])
    ensures r == ArrayToJson(a)
    decreases Array(a), 0
  {
    var arr: seq<Value> := [];
    var n := 0;
    while n < |a|
      invariant 0 <= n <= |a|
      invariant |arr| == n
      invariant forall i | 0 <= i < n :: Convert(a[i]) == Some(arr[i])
    {
      var c := ConvertByLoops(a[n]);
      if c.None? {
        return None;
      }
      arr := arr + [c.value];
      n := n + 1;
    }
    r := Some(JArray(arr));
    assert arr == seq(|a|, i requires 0 <= i < |a| => Convert(a[i]).value);
  }

  /** Inserts the conversion of each entry into a fresh map, in any key order. */
  method ObjectToJsonByLoop(o: map<string, JsValue>) returns (r: Option<Value>)
    ensures r.Some? <==> forall k | k in o :: Convert(o[k]).Some?
    ensures r.Some? ==> r.value.JObject? && r.value.fields.Keys == o.Keys
    ensures r.Some? ==> forall k | k in o :: Convert(o[k]) == Some(r.value.fields[k])
    ensures r == ObjectToJson(o)
    decreases Object(o), 0
  {
    var acc: map<string, Value> := map[];
    var remaining := o.Keys;
    while remaining != {}
      invariant remaining <= o.Keys
      invariant acc.Keys == o.Keys - remaining
      invariant forall k | k in acc :: Convert(o[k]) == Some(acc[k])
      decreases |remaining|
    {
      var k :| k in remaining;
      var c := ConvertByLoops(o[k]);
      if c.None? {
        return None;
      }
      acc := acc[k := c.value];
      remaining := remaining - {k};
    }
    r := Some(JObject(acc));
    assert acc == map k | k in o :: Convert(o[k]).value;
  }
}
