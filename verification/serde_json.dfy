/**
 * The JSON data model that the envelope is encoded to and decoded from:
 * the shape of `serde_json::Value`, with numbers restricted to integers.
 */
module SerdeJson {

  datatype Value =
    | Null
    | Bool(b: bool)
    | Number(n: int)
    | String(s: string)
    | Array(items: seq<Value>)
    | Object(fields: map<string, Value>)

  /** Why a decode failed: the kinds of error serde's derived deserializers report. */
  datatype DecodeError =
    | UnknownVariant(variant: string)
    | MissingField(field: string)
    | InvalidType(expected: string)
    | InvalidValue(expected: string)

  /** Why an encode failed: a flattened field must serialize to a map (or to nothing). */
  datatype EncodeError = CannotFlatten
}
