// JSON values as the library sees them after parsing.
module Json {
  datatype Json =
    | JNull
    | JBool(b: bool)
    | JNumber(n: int)
    | JString(s: string)
    | JArray(items: seq<Json>)
    | JObject(fields: map<string, Json>)

  /** dict.get(key) on an object; None of Python is JNull. */
  function Get(o: Json, key: string): Json {
    if o.JObject? && key in o.fields then o.fields[key] else JNull
  }

  predicate Has(o: Json, key: string) { o.JObject? && key in o.fields }
}
