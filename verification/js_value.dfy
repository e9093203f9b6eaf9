/** The engine's dynamically typed result value. */
module JsValues {
  import opened Wrappers
  import opened Numbers
  import opened Paths

  /**
   * A value produced by evaluating a script. The eight named variants are
   * the ones the converter handles; `Other` stands for every further
   * variant the engine may produce (for example dates or big integers
   * under optional engine features), named by `kind`.
   */
  datatype JsValue =
    | Undefined
    | Null
    | Bool(b: bool)
    | Int(n: Int32)
    | Float(f: Double)
    | String(s: string)
    | Object(fields: map<string, JsValue>)
    | Array(items: seq<JsValue>)
    | Other(kind: string)

  /** The value reached by following `p` from `v`, if every step exists. */
  function At(v: JsValue, p: Path): Option<JsValue>
    decreases |p|
  {
    if |p| == 0 then Some(v)
    else match (v, p[0])
      case (Array(a), Index(i)) => if i < |a| then At(a[i], p[1..]) else None
      case (Object(o), Key(k)) => if k in o then At(o[k], p[1..]) else None
      case _ => None
  }

  /** A leaf that has no JSON form: a non-finite float or an unlisted variant. */
  predicate Unencodable(v: JsValue) {
    v.Other? || (v.Float? && !IsFinite(v.f))
  }

  /**
   * The values built only from the eight listed variants, with every float
   * finite: exactly the ones that have a JSON form.
   */
  predicate Representable(v: JsValue) {
    match v
    case Float(f) => IsFinite(f)
    case Other(_) => false
    case Array(a) => forall i | 0 <= i < |a| :: Representable(a[i])
    case Object(o) => forall k | k in o :: Representable(o[k])
    case _ => true
  }

  /** `v` with every `Undefined`, at any depth, replaced by `Null`. */
  function UndefinedAsNull(v: JsValue): JsValue {
    match v
    case Undefined => Null
    case Array(a) => Array(seq(|a|, i requires 0 <= i < |a| => UndefinedAsNull(a[i])))
    case Object(o) => Object(map k | k in o :: UndefinedAsNull(o[k]))
    case _ => v
  }
}
