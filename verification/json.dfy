/**
 A parsed JSON document. Objects keep their members in document order, as the
 parser's `LinkedHashMap` does; numbers are integral.
 */
module Json {

  datatype JsonValue =
    | Null
    | Bool(b: bool)
    | Number(n: int)
    | String(s: string)
    | Object(members: seq<Member>)
    | Array(items: seq<JsonValue>)
  {
    /** A value that is neither null nor a container. */
    predicate IsScalar() {
      Bool? || Number? || String?
    }
  }

  /** One `"key": value` pair of an object. */
  datatype Member = Member(key: string, value: JsonValue)
}
