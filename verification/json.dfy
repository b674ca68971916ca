/** The part of a JSON document model the manifest needs (serde_json's `Value`). */
module Json {

  /** A JSON value. Objects are keyed maps: serde_json's default `Map` is ordered by key and holds
      each key once, so member order carries no information. Numbers are integers only. */
  datatype Value =
    | Null
    | Bool(b: bool)
    | Number(n: int)
    | Str(s: string)
    | Array(items: seq<Value>)
    | Object(members: map<string, Value>)
}
