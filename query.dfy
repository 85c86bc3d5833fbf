/**
 * The parsed query string of a page URL: each key is absent, holds one value, or
 * holds the list of values of a repeated key.
 */
module Query {
  import opened Js

  datatype QueryValue = Absent | One(s: string) | Many(values: seq<string>)

  type ParsedQuery = map<string, QueryValue>

  function QueryGet(q: ParsedQuery, key: string): (v: QueryValue)
    ensures key !in q ==> v == Absent
  {
    if key in q then q[key] else Absent
  }

  /** JavaScript truthiness of a query value: a list is an object and always truthy. */
  predicate QueryTruthy(v: QueryValue)
  {
    match v
    case Absent => false
    case One(s) => s != ""
    case Many(_) => true
  }

  /** `typeof v === "string" && v`: the value when it is a single non-empty string. */
  function NonEmptyString(v: QueryValue): (r: Option<string>)
    ensures r.Some? <==> v.One? && v.s != ""
    ensures r.Some? ==> r.value == v.s
  {
    if v.One? && v.s != "" then Some(v.s) else None
  }
}
