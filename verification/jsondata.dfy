/** The flat JSON records that the reply parsers hand back, as far as
    the post-parse validation can observe them. */
module JsonData {

  /** A field value. `Other` stands for numbers, `null`, arrays and nested
      objects, which the validation only ever tests for truthiness or
      passes through. */
  datatype Value = Str(s: string) | Bool(b: bool) | Other(truthy: bool)

  /** What a JSON parser returned: an object, or some other JSON value
      (a list, a string, a number, `null`) that has no `.get`. */
  datatype JsonValue = Object(fields: map<string, Value>) | NotObject

  /** Python's `dict.get(key, default)`. */
  function Get(m: map<string, Value>, key: string, default: Value): (v: Value)
    ensures key in m ==> v == m[key]
    ensures key !in m ==> v == default
  {
    if key in m then m[key] else default
  }

  /** Python truthiness: non-empty strings and `True` are truthy. */
  predicate Truthy(v: Value) {
    match v
    case Str(s) => |s| > 0
    case Bool(b) => b
    case Other(t) => t
  }
}
