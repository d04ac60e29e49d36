/** JSON values as JSONObjectState holds them. An object lists its members in the
    library's iteration order. */
module Json {
  import opened Assoc

  datatype JsonValue =
    | JString(str: string)
    | JNumber(num: int)
    | JBool(boolean: bool)
    | JNull
    | JObject(members: seq<(string, JsonValue)>)

  /** Member names are unique within every object, at every depth. */
  predicate WellFormed(v: JsonValue) {
    match v
    case JObject(members) =>
      DistinctKeys(members)
      && (forall i :: 0 <= i < |members| ==> WellFormed(members[i].1))
    case _ => true
  }
}
