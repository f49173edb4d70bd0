/** The values `JSON.parse` produces and the decoder itself, which the model treats as
    an oracle: a total function that either accepts a text and yields its value or
    rejects it (JavaScript's `SyntaxError`). */
module JsonValues {
  import opened Wrappers

  /** A JSON value. Numbers are kept as integers, since no number is ever inspected;
      an object lists its entries in JavaScript's enumeration order. */
  datatype Json =
    | JNull
    | JBool(b: bool)
    | JNumber(n: int)
    | JString(s: string)
    | JArray(items: seq<Json>)
    | JObject(entries: seq<(string, Json)>)

  type Decoder = string -> Option<Json>
}
