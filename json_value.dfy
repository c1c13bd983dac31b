/** A decoded JSON document, as `serde_json::Value` holds it after `.json()`. */
module JsonValue {

  datatype Option<T> = None | Some(value: T)

  /** Numbers are kept as reals; nothing in the model does arithmetic on them. */
  datatype Json =
    | Null
    | Bool(b: bool)
    | Num(n: real)
    | Str(s: string)
    | Arr(elems: seq<Json>)
    | Obj(fields: map<string, Json>)

  /** `Value::get(key)` with a string key: only an object that has the key
      yields a value; every other kind of value, arrays included, yields None. */
  function Get(v: Json, key: string): (r: Option<Json>)
  {
    if v.Obj? && key in v.fields then Some(v.fields[key]) else None
  }

  /** `Value::as_str`, with the None case flattened to the empty string:
      the raw text of a string value, without quotes or escapes. */
  function AsStr(v: Json): (r: string)
  {
    if v.Str? then v.s else ""
  }
}
