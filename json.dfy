/** Decoded JSON values, as json.loads hands them to the Python code, and the subscript
    `v[key]` that the code applies to them. */
module JsonValue {
  import opened Outcomes

  datatype Json =
    | JNull
    | JBool(b: bool)
    | JNum(n: int)
    | JStr(s: string)
    | JArr(items: seq<Json>)
    | JObj(fields: map<string, Json>)

  /** `v[key]` with a string key: a value when v is an object holding key; otherwise Python
      raises (KeyError for a missing key, TypeError for a list, string, number or None). */
  function Index(v: Json, key: string): Option<Json>
  {
    if v.JObj? && key in v.fields then Some(v.fields[key]) else None
  }
}
