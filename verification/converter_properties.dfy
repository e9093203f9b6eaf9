/** What the converter guarantees: which values convert, and what shape the result has. */
module ConverterProperties {
  import opened Wrappers
  import opened Numbers
  import opened Paths
  import opened JsValues
  import opened JsonValues
  import opened Converter

  /** Scalars convert directly: both absent values to null, the rest to the same payload. */
  lemma ScalarsConvertDirectly(v: JsValue)
    ensures v.Undefined? || v.Null? ==> Convert(v) == Some(JNull)
    ensures v.Bool? ==> Convert(v) == Some(JBool(v.b))
    ensures v.Int? ==> Convert(v) == Some(JNumber(IntNumber(v.n as int)))
    ensures v.String? ==> Convert(v) == Some(JString(v.s))
    ensures v.Float? ==> (Convert(v).Some? <==> IsFinite(v.f))
    ensures v.Float? && IsFinite(v.f) ==> Convert(v) == Some(JNumber(FloatNumber(v.f)))
    ensures v.Other? ==> Convert(v) == None
  {
  }

  /** Conversion succeeds exactly on the values built from the eight listed variants with finite floats. */
  lemma {:induction false} ConvertSucceedsIffRepresentable(v: JsValue)
    ensures Convert(v).Some? <==> Representable(v)
    decreases v
  {
    match v
    case Array(a) =>
      forall i | 0 <= i < |a| ensures Convert(a[i]).Some? <==> Representable(a[i]) {
        ConvertSucceedsIffRepresentable(a[i]);
      }
    case Object(o) =>
      forall k | k in o ensures Convert(o[k]).Some? <==> Representable(o[k]) {
        ConvertSucceedsIffRepresentable(o[k]);
      }
    case _ =>
  }

  /** Stepping to an element of an array and then following `p` is following the longer path. */
  lemma IndexThenPath(a: seq<JsValue>, i: nat, p: Path)
    requires i < |a|
    ensures JsValues.At(Array(a), [Index(i)] + p) == JsValues.At(a[i], p)
  {
    assert ([Index(i)] + p)[1..] == p;
  }

  /** Stepping to a field of an object and then following `p` is following the longer path. */
  lemma KeyThenPath(o: map<string, JsValue>, k: string, p: Path)
    requires k in o
    ensures JsValues.At(Object(o), [Key(k)] + p) == JsValues.At(o[k], p)
  {
    assert ([Key(k)] + p)[1..] == p;
  }

  /** A failure anywhere inside a value makes the conversion of the whole value fail. */
  lemma {:induction false} NestedFailurePropagates(v: JsValue, p: Path)
    requires JsValues.At(v, p).Some? && Convert(JsValues.At(v, p).value).None?
    ensures Convert(v).None?
    decreases |p|
  {
    if |p| > 0 {
      match (v, p[0])
      case (Array(a), Index(i)) =>
        NestedFailurePropagates(a[i], p[1..]);
        assert !Convert(a[i]).Some?;
      case (Object(o), Key(k)) =>
        NestedFailurePropagates(o[k], p[1..]);
        assert !Convert(o[k]).Some?;
    }
  }

  /** A failed conversion always has a cause: an unencodable leaf at some path. */
  lemma {:induction false} FailureHasUnencodableLeaf(v: JsValue)
    requires Convert(v).None?
    ensures exists p :: JsValues.At(v, p).Some? && Unencodable(JsValues.At(v, p).value)
    decreases v
  {
    match v
    case Array(a) =>
      var i :| 0 <= i < |a| && Convert(a[i]).None?;
      FailureHasUnencodableLeaf(a[i]);
      var p :| JsValues.At(a[i], p).Some? && Unencodable(JsValues.At(a[i], p).value);
      IndexThenPath(a, i, p);
    case Object(o) =>
      var k :| k in o && Convert(o[k]).None?;
      FailureHasUnencodableLeaf(o[k]);
      var p :| JsValues.At(o[k], p).Some? && Unencodable(JsValues.At(o[k], p).value);
      KeyThenPath(o, k, p);
    case Float(_) | Other(_) =>
      assert JsValues.At(v, []) == Some(v);
    case _ =>
  }

  /**
   * Conversion fails exactly when some nested value, at any depth, is a
   * non-finite float or an unlisted variant.
   */
  lemma ConvertFailsIffUnencodableLeaf(v: JsValue)
    ensures Convert(v).None? <==> exists p :: JsValues.At(v, p).Some? && Unencodable(JsValues.At(v, p).value)
  {
    if Convert(v).None? {
      FailureHasUnencodableLeaf(v);
    }
    if p :| JsValues.At(v, p).Some? && Unencodable(JsValues.At(v, p).value) {
      NestedFailurePropagates(v, p);
    }
  }

  /**
   * A successful conversion preserves structure at every depth: each path
   * leads somewhere in the result exactly when it does in the input, and
   * there the result holds the conversion of the input's nested value.
   */
  lemma {:induction false} PathsCorrespond(v: JsValue, j: Value, p: Path)
    requires Convert(v) == Some(j)
    ensures JsValues.At(v, p).Some? <==> JsonValues.At(j, p).Some?
    ensures JsValues.At(v, p).Some? ==> Convert(JsValues.At(v, p).value) == JsonValues.At(j, p)
    decreases |p|
  {
    if |p| > 0 {
      match (v, p[0])
      case (Array(a), Index(i)) =>
        if i < |a| {
          PathsCorrespond(a[i], j.items[i], p[1..]);
        }
      case (Object(o), Key(k)) =>
        if k in o {
          PathsCorrespond(o[k], j.fields[k], p[1..]);
        }
      case _ =>
    }
  }

  /** The JavaScript value a JSON value stands for: the inverse of `Convert` on embeddable values. */
  function ToJs(j: Value): (v: JsValue)
    requires Embeddable(j)
    ensures Representable(v)
    ensures !v.Undefined?
  {
    match j
    case JNull => Null
    case JBool(b) => Bool(b)
    case JNumber(IntNumber(n)) => Int(n as Int32)
    case JNumber(FloatNumber(f)) => Float(f)
    case JString(s) => String(s)
    case JArray(a) => Array(seq(|a|, i requires 0 <= i < |a| => ToJs(a[i])))
    case JObject(o) => Object(map k | k in o :: ToJs(o[k]))
  }

  /** Every embeddable JSON value is the conversion of its JavaScript counterpart. */
  lemma {:induction false} JsonRoundTrip(j: Value)
    requires Embeddable(j)
    ensures Convert(ToJs(j)) == Some(j)
    decreases j
  {
    match j
    case JArray(a) =>
      var items := seq(|a|, i requires 0 <= i < |a| => ToJs(a[i]));
      forall i | 0 <= i < |a| ensures Convert(items[i]) == Some(a[i]) {
        JsonRoundTrip(a[i]);
      }
      assert ArrayToJson(items).value.items == a;
    case JObject(o) =>
      var fields := map k | k in o :: ToJs(o[k]);
      forall k | k in o ensures Convert(fields[k]) == Some(o[k]) {
        JsonRoundTrip(o[k]);
      }
      assert ObjectToJson(fields).value.fields == o;
    case _ =>
  }

  /**
   * Every conversion result is embeddable, and maps back to the input with
   * each `Undefined` turned into `Null`: conversion loses nothing else.
   */
  lemma {:induction false} ConvertInvertsToUndefinedAsNull(v: JsValue, j: Value)
    requires Convert(v) == Some(j)
    ensures Embeddable(j)
    ensures ToJs(j) == UndefinedAsNull(v)
    decreases v
  {
    match v
    case Array(a) =>
      forall i | 0 <= i < |a| ensures Embeddable(j.items[i]) && ToJs(j.items[i]) == UndefinedAsNull(a[i]) {
        ConvertInvertsToUndefinedAsNull(a[i], j.items[i]);
      }
      assert ToJs(j).items == UndefinedAsNull(v).items;
    case Object(o) =>
      forall k | k in o ensures Embeddable(j.fields[k]) && ToJs(j.fields[k]) == UndefinedAsNull(o[k]) {
        ConvertInvertsToUndefinedAsNull(o[k], j.fields[k]);
      }
      assert ToJs(j).fields == UndefinedAsNull(v).fields;
    case _ =>
  }

  /** Two values convert to the same JSON only if they differ at most in `Undefined` versus `Null`. */
  lemma {:induction false} ConvertInjectiveUpToUndefined(v1: JsValue, v2: JsValue)
    requires Convert(v1).Some? && Convert(v1) == Convert(v2)
    ensures UndefinedAsNull(v1) == UndefinedAsNull(v2)
  {
    ConvertInvertsToUndefinedAsNull(v1, Convert(v1).value);
    ConvertInvertsToUndefinedAsNull(v2, Convert(v2).value);
  }
}
