/** JSON values, as `serde_json::Value` holds them. */
module Json {
  datatype Json =
    | Null
    | Bool(b: bool)
    | Number(text: string)
    | String(s: string)
    | Array(items: seq<Json>)
    | Object(fields: map<string, Json>)

  /** The fields of an object, such as a whole file. */
  type Document = map<string, Json>
}
