/**
 * A JSON sidecar as the scripts see it once `json.load` has parsed it: a
 * dictionary from field names to JSON values. Serialisation and
 * indentation are not part of the model.
 */
module Json {

  /** A Python float. Finite values are modelled by the exact real they denote. */
  datatype Float = Finite(value: real) | Infinity(negative: bool) | NaN

  datatype JsonValue =
    | JNull
    | JBool(b: bool)
    | JInt(i: int)
    | JFloat(f: Float)
    | JStr(s: string)
    | JArray(items: seq<JsonValue>)
    | JObject(fields: map<string, JsonValue>)

  /** The top-level object of a sidecar file. */
  type JsonObject = map<string, JsonValue>
}
