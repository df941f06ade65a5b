/**
 JSON values as the request body decodes to them and as responses carry them,
 together with the Python type each one becomes after decoding (which decides
 the message of an `AttributeError` raised on it).
 */
module JsonValues {

  datatype Json =
    | JNull
    | JBool(b: bool)
    | JInt(i: int)
    | JFloat(x: real)
    | JString(s: string)
    | JArray(items: seq<Json>)
    | JObject(fields: map<string, Json>)

  /** Name of the Python type that `json.loads` builds for `v`. */
  function PyTypeName(v: Json): string {
    match v
    case JNull => "NoneType"
    case JBool(_) => "bool"
    case JInt(_) => "int"
    case JFloat(_) => "float"
    case JString(_) => "str"
    case JArray(_) => "list"
    case JObject(_) => "dict"
  }

  /** `str(e)` for the `AttributeError` raised by looking up `attr` on `v`. */
  function AttributeErrorMessage(v: Json, attr: string): string {
    "'" + PyTypeName(v) + "' object has no attribute '" + attr + "'"
  }

  /** A JSON object with the single member `key: value`. */
  function Single(key: string, value: Json): Json {
    JObject(map[key := value])
  }
}
