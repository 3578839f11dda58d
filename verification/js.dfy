/**
 The fragment of JavaScript values the settings code handles: absent values,
 booleans, numbers, strings and plain objects, with truthiness, property read
 and object spread.
 */
module Js {
  datatype Val =
    | Undefined
    | Null
    | Bool(b: bool)
    | Num(n: int)
    | Str(s: string)
    | Obj(fields: map<string, Val>)

  /** ToBoolean */
  predicate Truthy(v: Val) {
    match v
    case Undefined => false
    case Null => false
    case Bool(b) => b
    case Num(n) => n != 0
    case Str(s) => s != ""
    case Obj(_) => true
  }

  /** `v[key]` on a value that is not `undefined` or `null`: a missing property reads as `undefined` */
  function Get(v: Val, key: string): Val {
    if v.Obj? && key in v.fields then v.fields[key] else Undefined
  }

  /** `a || b` */
  function Or(a: Val, b: Val): Val {
    if Truthy(a) then a else b
  }

  /** `{...a, ...b}` for objects: keys of `b` win */
  function Spread(a: map<string, Val>, b: map<string, Val>): (r: map<string, Val>)
    ensures r.Keys == a.Keys + b.Keys
    ensures forall k :: k in b ==> r[k] == b[k]
    ensures forall k :: k in a && k !in b ==> r[k] == a[k]
  {
    map k | k in a.Keys + b.Keys :: if k in b then b[k] else a[k]
  }
}
