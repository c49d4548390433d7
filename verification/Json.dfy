/** JSON values as the server sees them after `JSON.parse`. */
module Json {
  import opened Text

  datatype Json =
    | JNull
    | JBool(b: bool)
    | JNum(n: real)
    | JStr(s: string)
    | JArr(items: seq<Json>)
    | JObj(fields: seq<(string, Json)>)

  /** The field a property read finds: the last one of that name, as `JSON.parse` keeps it. */
  function Lookup(fields: seq<(string, Json)>, key: string): (r: Option<Json>)
    ensures r.Some? ==> exists i :: 0 <= i < |fields| && fields[i] == (key, r.value)
  {
    if fields == [] then None
    else if fields[|fields| - 1].0 == key then Some(fields[|fields| - 1].1)
    else Lookup(fields[..|fields| - 1], key)
  }

  /** `v.key`: undefined on anything but an object. */
  function Get(v: Json, key: string): (r: Option<Json>)
    ensures r.Some? ==> v.JObj? && exists i :: 0 <= i < |v.fields| && v.fields[i] == (key, r.value)
  {
    if v.JObj? then Lookup(v.fields, key) else None
  }

  /** The last field of a name counts, and fields of other names do not matter. */
  lemma LastFieldCounts(fields: seq<(string, Json)>, name: string, v: Json, key: string)
    ensures Get(JObj([]), key) == None
    ensures Get(JObj(fields + [(name, v)]), key) == if key == name then Some(v) else Get(JObj(fields), key)
  {
    var more := fields + [(name, v)];
    assert more[..|more| - 1] == fields;
  }

  /** Null, false, zero and the empty string are the falsy values. */
  lemma FalsyAre(v: Json)
    ensures !Truthy(v) <==> v == JNull || v == JBool(false) || v == JNum(0.0) || v == JStr("")
  {
  }

  /** JavaScript truthiness of a parsed value. */
  predicate Truthy(v: Json) {
    match v
    case JNull => false
    case JBool(b) => b
    case JNum(n) => n != 0.0
    case JStr(t) => t != []
    case _ => true
  }
}
