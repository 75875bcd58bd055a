/** The values `json.loads` produces: the parsed form of a model's structured reply.
    Decoding itself is not modelled; it enters the model as a function parameter. */
module Json {
  import opened Text

  datatype Json =
    | JNull
    | JBool(b: bool)
    | JNumber(n: real)
    | JString(str: string)
    | JArray(items: seq<Json>)
    | JObject(fields: map<string, Json>)

  /** `json.loads`: `None` stands for a raised decode error. */
  type Decoder = string -> Option<Json>
}
