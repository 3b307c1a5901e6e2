/** Parsed JSON values, as the configuration files and command outputs deliver them
    to the code that inspects them with `typeof`, `Array.isArray` and property access. */
module Json {
  import opened Wrappers

  /** A parsed JSON value. Numbers are kept as integers. */
  datatype Json =
    | JNull
    | JBool(b: bool)
    | JNumber(n: int)
    | JString(s: string)
    | JArray(items: seq<Json>)
    | JObject(fields: map<string, Json>)

  /** JavaScript truthiness of a parsed value: `null`, `false`, `0` and `""` are falsy. */
  predicate Truthy(v: Json) {
    match v
    case JNull => false
    case JBool(b) => b
    case JNumber(n) => n != 0
    case JString(s) => s != []
    case _ => true
  }

  /** `v.key` on a parsed value: `None` stands for `undefined` (not an object, or no such key). */
  function Member(v: Json, key: string): (r: Option<Json>)
    ensures r.Some? <==> v.JObject? && key in v.fields
  {
    if v.JObject? && key in v.fields then Some(v.fields[key]) else None
  }

  /** `typeof v.key === "string"`, with the string. */
  function StringMember(v: Json, key: string): (r: Option<string>)
    ensures r.Some? <==> Member(v, key).Some? && Member(v, key).value.JString?
    ensures r.Some? ==> Member(v, key) == Some(JString(r.value))
  {
    match Member(v, key)
    case Some(JString(s)) => Some(s)
    case _ => None
  }
}
