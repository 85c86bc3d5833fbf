/**
 * The values that records hold: a flat JavaScript object whose properties are
 * `undefined`, `null`, booleans, integers or strings, and the JSON round trip
 * (`JSON.parse(JSON.stringify(x))`) that drops the `undefined` properties.
 */
module Json {
  import opened Js

  datatype Value = Undefined | Null | Bool(b: bool) | Num(n: int) | Str(s: string)

  /** A row or a record: property name to value (a missing property reads as `undefined`). */
  type Record = map<string, Value>

  /** What a caller may hand to a store: an object, or some non-object value. */
  datatype Item = Scalar(value: Value) | Object(fields: Record)

  /** JavaScript truthiness. */
  predicate Truthy(v: Value)
  {
    match v
    case Undefined => false
    case Null => false
    case Bool(b) => b
    case Num(n) => n != 0
    case Str(s) => s != ""
  }

  /** `r[k]`. */
  function Get(r: Record, k: string): (v: Value)
    ensures k !in r ==> v == Undefined
  {
    if k in r then r[k] else Undefined
  }

  /** `v ?? d`. */
  function Coalesce(v: Value, d: Value): (r: Value)
    ensures (v.Undefined? || v.Null?) ==> r == d
    ensures !(v.Undefined? || v.Null?) ==> r == v
  {
    if v.Undefined? || v.Null? then d else v
  }

  /** `JSON.parse(JSON.stringify(r))` for a flat object: properties holding `undefined` disappear. */
  function Serialise(r: Record): (w: Record)
    ensures forall k :: k in w <==> k in r && r[k] != Undefined
    ensures forall k :: k in w ==> w[k] == r[k]
  {
    map k | k in r && r[k] != Undefined :: r[k]
  }

  /** The value read back after storing an item as JSON text. */
  function Normal(x: Item): (y: Item)
    ensures x.Object? <==> y.Object?
  {
    match x
    case Object(r) => Object(Serialise(r))
    case Scalar(v) => Scalar(v)
  }

  lemma NormalIdempotent(x: Item)
    ensures Normal(Normal(x)) == Normal(x)
  {
    if x.Object? {
      assert Serialise(Serialise(x.fields)) == Serialise(x.fields);
    }
  }
}
