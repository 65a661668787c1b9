/**
 * The Python values that JSON text decodes to: None, bool, int, float,
 * str, list and dict. A dict is an insertion-ordered association list with string
 * keys.
 */
module JsonValue {
  import opened Wrappers
  import opened PyDict

  datatype Json =
    | JNull
    | JBool(b: bool)
    | JInt(i: int)
    /** A float, kept as the literal text it was written as. */
    | JFloat(literal: string)
    | JStr(s: string)
    | JList(elems: seq<Json>)
    | JObject(fields: Dict<string, Json>)

  /** Python truthiness: `not v` is false exactly for these values. */
  predicate Truthy(v: Json) {
    match v
    case JNull => false
    case JBool(b) => b
    case JInt(i) => i != 0
    case JFloat(literal) => exists k :: 0 <= k < |literal| && '1' <= literal[k] <= '9'
    case JStr(s) => s != []
    case JList(elems) => elems != []
    case JObject(fields) => fields != []
  }

  /** Lists and dicts cannot be dict keys or tested with `in` on a dict. */
  predicate Hashable(v: Json) {
    !v.JList? && !v.JObject?
  }

  /** d.get(key), which is None when the key is absent. */
  function Field(d: Dict<string, Json>, key: string): (v: Json)
    ensures !HasKey(d, key) ==> v == JNull
    ensures HasKey(d, key) ==> Some(v) == Get(d, key)
  {
    match Get(d, key)
    case None => JNull
    case Some(v) => v
  }

  lemma FieldCons(k: string, v: Json, rest: Dict<string, Json>, key: string)
    ensures Field([(k, v)] + rest, key) == if k == key then v else Field(rest, key)
  {
    assert ([(k, v)] + rest)[1..] == rest;
  }
}
