/** A JSON token as System.Text.Json's reader and JsonElement present it: member names and strings are unescaped. */
module JsonValue {

  /** Numbers are exact rationals: System.Decimal's range and 28-digit precision are not modelled. */
  datatype Json =
    | JNull
    | JBool(b: bool)
    | JNumber(n: real)
    | JString(s: string)
    | JArray(items: seq<Json>)
    | JObject(members: seq<(string, Json)>)
}
