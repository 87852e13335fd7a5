/** Decoded JSON values as Python sees them after `json.loads`, with objects
    kept as association lists so that insertion order is observable. */
module Json {
  import opened Basics

  datatype Value =
    | JNull
    | JBool(b: bool)
    | JInt(i: int)
    | JStr(s: string)
    | JArr(items: seq<Value>)
    | JObj(fields: seq<(string, Value)>)

  /** Python truthiness: `None`, `False`, `0`, `""`, `[]` and `{}` are false. */
  predicate Truthy(v: Value) {
    match v
    case JNull => false
    case JBool(b) => b
    case JInt(i) => i != 0
    case JStr(s) => s != ""
    case JArr(items) => items != []
    case JObj(fields) => fields != []
  }

  /** Python's `a or b`. */
  function Or(a: Value, b: Value): Value {
    if Truthy(a) then a else b
  }

  /** The keys of an object, in insertion order. */
  function Keys(fields: seq<(string, Value)>): seq<string> {
    seq(|fields|, i requires 0 <= i < |fields| => fields[i].0)
  }

  /** Looking a key up in an object. A Python dict holds each key once; on an
      association list the first binding is the one found. */
  function Get(fields: seq<(string, Value)>, key: string): (r: Option<Value>)
    ensures r.None? <==> key !in Keys(fields)
    ensures r.Some? ==> (key, r.value) in fields
  {
    if |fields| == 0 then None
    else
      assert Keys(fields) == [fields[0].0] + Keys(fields[1..]);
      if fields[0].0 == key then Some(fields[0].1) else Get(fields[1..], key)
  }

  /** Python's `d.get(key)`: a missing key reads as `None`. */
  function GetOrNull(fields: seq<(string, Value)>, key: string): Value {
    match Get(fields, key)
    case None => JNull
    case Some(v) => v
  }

  /** True when `v` is an object that has `key` among its keys. */
  predicate HasKey(v: Value, key: string) {
    v.JObj? && key in Keys(v.fields)
  }

  /** The JSON rendering of an optional string: `None` becomes `null`. */
  function OptString(o: Option<string>): Value {
    match o
    case None => JNull
    case Some(s) => JStr(s)
  }
}
