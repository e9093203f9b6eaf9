/** The JSON value the converter produces. */
module JsonValues {
  import opened Wrappers
  import opened Numbers
  import opened Paths

  /** A JSON number: an integer, or a float carried as its binary64 bits. */
  datatype Number = IntNumber(n: int) | FloatNumber(f: Double)

  /** A JSON document value. */
  datatype Value =
    | JNull
    | JBool(b: bool)
    | JNumber(num: Number)
    | JString(s: string)
    | JArray(items: seq<Value>)
    | JObject(fields: map<string, Value>)

  /** The value reached by following `p` from `j`, if every step exists. */
  function At(j: Value, p: Path): Option<Value>
    decreases |p|
  {
    if |p| == 0 then Some(j)
    else match (j, p[0])
      case (JArray(a), Index(i)) => if i < |a| then At(a[i], p[1..]) else None
      case (JObject(o), Key(k)) => if k in o then At(o[k], p[1..]) else None
      case _ => None
  }

  /** A number JSON can carry (section 6 of RFC 8259 rules out NaN and the infinities). */
  predicate FiniteNumber(num: Number) {
    num.FloatNumber? ==> IsFinite(num.f)
  }

  /**
   * A value whose every number is finite and whose every integer fits the
   * engine's 32-bit integers: the values the converter can produce.
   */
  predicate Embeddable(j: Value) {
    match j
    case JNumber(num) => FiniteNumber(num) && (num.IntNumber? ==> -0x8000_0000 <= num.n < 0x8000_0000)
    case JArray(a) => forall i | 0 <= i < |a| :: Embeddable(a[i])
    case JObject(o) => forall k | k in o :: Embeddable(o[k])
    case _ => true
  }
}
