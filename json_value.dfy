/**
 The values `json.loads` produces: None, booleans, numbers, strings, lists
 and dicts with string keys.
 */
module JsonValue {

  datatype Json =
    | JNull
    | JBool(b: bool)
    | JInt(i: int)          // a number without fraction or exponent: Python `int`
    | JFloat(f: real)       // any other number: Python `float`
    | JString(s: string)
    | JArray(items: seq<Json>)
    | JObject(fields: map<string, Json>)

  /** What a call of `json.loads` ends in: a value, the JSONDecodeError that
      `parse_json_response` catches, or an exception it does not catch (a
      RecursionError on deep nesting, a ValueError on an over-long integer). */
  datatype Loaded =
    | Parsed(value: Json)
    | DecodeError
    | Uncaught

}
