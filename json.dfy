/**
  The JSON values that a row is turned into.

  The converter only ever builds strings, arrays and objects (every leaf is
  made from a cell, which is text), so those are the only three variants.
  An object is a finite map from key to value; no order of its keys is modelled.
 */
module Json {

  datatype Option<+T> = None | Some(value: T)

  datatype Value =
    | Str(text: string)
    | Arr(elems: seq<Value>)
    | Obj(fields: map<string, Value>)

  /** The set of cell strings stored anywhere inside `v`. */
  function Leaves(v: Value): set<string>
    decreases v
  {
    match v
    case Str(s) => {s}
    case Arr(a) => set i, x | 0 <= i < |a| && x in Leaves(a[i]) :: x
    case Obj(m) => set k, x | k in m && x in Leaves(m[k]) :: x
  }
}
