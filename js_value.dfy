/** Parsed JSON values as the parser reads them: JavaScript truthiness,
    property access `v[key]`, optional chaining `v?.key` and the `x || d`
    fallback. `JSON.parse` itself is not modelled; its result is an input. */
module JsValue {
  import opened Wrappers

  /** A value `JSON.parse` can produce. Object keys are unique (a later
      duplicate key in the text wins inside `JSON.parse`). */
  datatype Json =
    | JNull
    | JBool(b: bool)
    | JNumber(n: real)
    | JString(s: string)
    | JArray(items: seq<Json>)
    | JObject(members: map<string, Json>)

  /** JavaScript truthiness: `null`, `false`, `0` and `""` are falsy;
      arrays and objects, even empty ones, are truthy. */
  predicate Truthy(v: Json) {
    match v
    case JNull => false
    case JBool(b) => b
    case JNumber(n) => n != 0.0
    case JString(s) => s != ""
    case JArray(_) => true
    case JObject(_) => true
  }

  predicate IsDigit(c: char) {
    '0' <= c <= '9'
  }

  /** `key` is the canonical decimal spelling of an array index: digits
      only, and no leading zero unless it is `"0"`. */
  predicate IsIndexKey(key: string) {
    && key != []
    && (forall i | 0 <= i < |key| :: IsDigit(key[i]))
    && (key[0] != '0' || |key| == 1)
  }

  /** The number spelled by a string of decimal digits. */
  function DecimalValue(key: string): nat
    requires forall i | 0 <= i < |key| :: IsDigit(key[i])
  {
    if key == [] then 0
    else
      assert IsDigit(key[|key| - 1]);
      DecimalValue(key[..|key| - 1]) * 10 + (key[|key| - 1] as int - '0' as int)
  }

  /** `v[key]` on a value that is not `null`: an own member of an object,
      an element of an array or a character of a string under an index
      key, and `length` of an array or a string; `undefined` (`None`)
      otherwise. Properties inherited from the prototypes are not
      modelled: none of the names the parser reads is one. */
  function Get(v: Json, key: string): (r: Option<Json>)
    requires !v.JNull?
    ensures v.JBool? || v.JNumber? ==> r == None
    ensures v.JObject? ==> (r.Some? <==> key in v.members)
  {
    match v
    case JObject(m) => if key in m then Some(m[key]) else None
    case JArray(a) =>
      if key == "length" then Some(JNumber(|a| as real))
      else if IsIndexKey(key) && DecimalValue(key) < |a| then Some(a[DecimalValue(key)])
      else None
    case JString(s) =>
      if key == "length" then Some(JNumber(|s| as real))
      else if IsIndexKey(key) && DecimalValue(key) < |s| then Some(JString([s[DecimalValue(key)]]))
      else None
    case _ => None
  }

  /** `v?.key`: `undefined` when `v` is `undefined` or `null`, `v[key]`
      otherwise. */
  function Member(v: Option<Json>, key: string): (r: Option<Json>)
    ensures v.None? || v == Some(JNull) ==> r == None
  {
    match v
    case None => None
    case Some(JNull) => None
    case Some(x) => Get(x, key)
  }

  /** `v || d`: `v` when it is defined and truthy, `d` otherwise. */
  function OrElse(v: Option<Json>, d: Json): (r: Json)
    ensures Truthy(r) || r == d
    ensures v.Some? && Truthy(v.value) ==> r == v.value
    ensures !(v.Some? && Truthy(v.value)) ==> r == d
  {
    if v.Some? && Truthy(v.value) then v.value else d
  }
}
