/**
 * Decoded JSON values (what `response.json()` yields) and the few pieces of
 * JavaScript semantics the ingestion code applies to them.
 */
module Json {
  import opened Wrappers

  /** A decoded JSON document; numbers are kept abstract as reals. */
  datatype Json =
    | JNull
    | JBool(b: bool)
    | JNumber(n: real)
    | JString(s: string)
    | JArray(items: seq<Json>)
    | JObject(fields: map<string, Json>)

  /** JavaScript truthiness: `null`, `false`, `0` and `""` are falsy, every array and object is truthy. */
  predicate Truthy(j: Json)
  {
    match j
    case JNull => false
    case JBool(b) => b
    case JNumber(n) => n != 0.0
    case JString(s) => s != ""
    case JArray(_) => true
    case JObject(_) => true
  }

  /** The JavaScript `typeof` of a decoded JSON value (`null` and arrays report "object"). */
  function TypeOf(j: Json): string
  {
    match j
    case JNull => "object"
    case JBool(_) => "boolean"
    case JNumber(_) => "number"
    case JString(_) => "string"
    case JArray(_) => "object"
    case JObject(_) => "object"
  }

  /** The own field `name` of an object, `None` standing for `undefined`. */
  function Field(j: Json, name: string): Option<Json>
  {
    if j.JObject? && name in j.fields then Some(j.fields[name]) else None
  }

  /**
   * Property access `j.data`: only an object can carry a `data` key; arrays,
   * strings and the other primitives have no property of that name.
   */
  function DataProperty(j: Json): Option<Json>
  {
    Field(j, "data")
  }

  /** `Array.isArray` applied to a possibly undefined value. */
  predicate IsArray(v: Option<Json>)
  {
    v.Some? && v.value.JArray?
  }
}
