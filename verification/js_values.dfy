/**
 * JavaScript values and plain objects, as far as the card tool uses them.
 *
 * Form states, Firestore documents and error maps are plain objects with
 * string keys.  A key that is not in the map reads as `undefined`; a key can
 * also be present and hold `undefined` explicitly (an object literal such as
 * `{ serialNo: data.serialNo }` does that when `data` lacks the field), which
 * matters for `Object.keys(...).length` and for Firestore's refusal of
 * `undefined` field values.
 */
module JsValues {

  datatype Option<T> = None | Some(value: T) {
    function GetOr(default: T): T {
      match this
      case Some(v) => v
      case None => default
    }
  }

  datatype Result<T, E> = Success(value: T) | Failure(error: E)

  /** The values a field can hold: text, `null`, `undefined`, or Firestore's
      `serverTimestamp()` sentinel. */
  datatype Value = Undefined | Null | Str(s: string) | ServerTimestamp

  type Record = map<string, Value>

  /** JavaScript truthiness: the empty string, `null` and `undefined` are
      falsy; a non-empty string and an object are truthy. */
  predicate Truthy(v: Value) {
    match v
    case Undefined => false
    case Null => false
    case Str(s) => s != ""
    case ServerTimestamp => true
  }

  /** Property read `obj[key]`. */
  function Get(r: Record, key: string): (v: Value)
    ensures key !in r ==> v == Undefined
    ensures key in r ==> v == r[key]
  {
    if key in r then r[key] else Undefined
  }

  /** The keys a list of field names names. */
  function KeySet(keys: seq<string>): set<string> {
    set k | k in keys
  }

  /** `{ k1: src.k1, ..., kn: src.kn }`: every listed key is present and holds
      what `src` holds there, `undefined` included. */
  function Project(src: Record, keys: seq<string>): (r: Record)
    ensures r.Keys == KeySet(keys)
    ensures forall k :: k in r ==> r[k] == Get(src, k)
  {
    map k | k in keys :: Get(src, k)
  }

  /** Some field holds `undefined` explicitly. */
  predicate HasUndefined(r: Record) {
    exists k :: k in r && r[k] == Undefined
  }
}
