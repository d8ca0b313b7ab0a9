/** JavaScript values as JSON knows them, with the two tests the core applies
    to them: truthiness (`if (body)`) and `typeof v === 'object'`. The
    built-ins `JSON.parse` and `JSON.stringify` and the entity/variable
    converters are not part of this model: they are given as functions
    supplied by the caller, with no fact assumed about them beyond their
    types. */
module Json {
  import opened Prelude

  /** An object's properties are kept in insertion order, the order in
      which `JSON.stringify` writes them. */
  datatype Json =
    | JNull
    | JBool(b: bool)
    | JNumber(n: real)
    | JString(s: string)
    | JArray(items: seq<Json>)
    | JObject(fields: seq<(string, Json)>)
  {
    /** JavaScript truthiness: `null`, `false`, `0` and `''` are false,
        everything else (every array and object included) is true. */
    predicate Truthy() {
      match this
      case JNull => false
      case JBool(b) => b
      case JNumber(n) => n != 0.0
      case JString(s) => s != ""
      case JArray(_) => true
      case JObject(_) => true
    }

    /** `typeof v === 'object'`: true for objects, arrays and also `null`. */
    predicate IsObjectType() {
      JNull? || JArray? || JObject?
    }
  }

  /** The built-in JSON codec: `parse` gives `None` where `JSON.parse`
      throws. */
  datatype JsonCodec = JsonCodec(parse: string -> Option<Json>, stringify: Json -> string)

  /** `addToEntityFromVariables({}, rows)` and
      `addToVariablesFromEntity([], value)`; the latter gives `None` where it
      throws. */
  datatype EntityConverter = EntityConverter(
    toEntity: seq<KeyValue> -> seq<(string, Json)>,
    toVariables: Json -> Option<seq<KeyValue>>)
}
