/** Small shared vocabulary: an optional value and the `{key, value}` row that
    the query-parameter, header and JSON-body editors all store. */
module Prelude {

  datatype Option<+T> = None | Some(value: T)

  /** An octet, as held by a `Uint8Array` or written `%XY` in a URI. */
  type Byte = b: int | 0 <= b < 256

  /** One editable row of a key/value editor. JavaScript treats a string as true
      exactly when it is non-empty; `HasKey` is the test `if (q.key)`. */
  datatype KeyValue = KeyValue(key: string, value: string) {
    predicate HasKey() { key != "" }
  }
}
