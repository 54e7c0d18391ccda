/** The JavaScript values a parsed JSON request body can hold, with the
    language's truthiness and property access. */
module Json {
  import opened JsText
  import opened Wrappers

  /** A JavaScript value as `JSON.parse` builds it; `Undefined` stands for a
      property that is absent. JSON has no NaN, so a number is a real. */
  datatype JsValue =
    | Undefined
    | Null
    | Bool(b: bool)
    | Number(n: real)
    | Str(s: JsString)
    | Array(elements: seq<JsValue>)
    | Object(properties: map<JsString, JsValue>)

  /** JavaScript truthiness: `!v` is true exactly for `undefined`, `null`,
      `false`, `0` (and `-0`) and the empty string. */
  function Truthy(v: JsValue): (r: bool)
    ensures !r <==> v.Undefined? || v.Null? || v == Bool(false) || v == Number(0.0) || v == Str([])
    ensures r ==> !IsNullish(v)
    ensures v.Str? ==> (r <==> v.s != [])
    ensures v.Array? || v.Object? ==> r
  {
    match v
    case Undefined => false
    case Null => false
    case Bool(b) => b
    case Number(n) => n != 0.0
    case Str(s) => |s| > 0
    case Array(_) => true
    case Object(_) => true
  }

  /** `typeof v === 'string'`. */
  predicate IsString(v: JsValue) { v.Str? }

  /** `undefined` or `null`: the values on which reading a property throws. */
  predicate IsNullish(v: JsValue) { v.Undefined? || v.Null? }

  /** Reading property `key` of `v`, as object destructuring does: `None`
      when `v` is nullish (JavaScript throws a TypeError), the property's
      value when `v` is an object that has it, and `undefined` otherwise.
      Only keys that no built-in prototype defines are looked up here. */
  function Property(v: JsValue, key: JsString): (r: Option<JsValue>)
    ensures r.None? <==> IsNullish(v)
    ensures v.Object? && key in v.properties ==> r == Some(v.properties[key])
    ensures v.Object? && key !in v.properties ==> r == Some(Undefined)
    ensures !v.Object? && !IsNullish(v) ==> r == Some(Undefined)
  {
    match v
    case Undefined => None
    case Null => None
    case Object(properties) =>
      if key in properties then Some(properties[key]) else Some(Undefined)
    case _ => Some(Undefined)
  }
}
