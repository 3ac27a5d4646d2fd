/** JSON-like value trees as the edit store sees them before text encoding:
    Python `dict`s (string keys, insertion order), lists, tuples, byte
    strings and scalars. */
module Json {
  newtype byte = x: int | 0 <= x < 256

  datatype Value =
    | Null
    | Bool(b: bool)
    | Num(n: int)
    | Str(s: string)
    | Bytes(data: seq<byte>)
    | List(items: seq<Value>)
    | Tuple(items: seq<Value>)
    | Dict(entries: seq<(string, Value)>)

  /** A tree `json.dumps` accepts as is: no byte strings, no tuples. */
  predicate IsJsonData(v: Value) {
    match v
    case Bytes(_) => false
    case Tuple(_) => false
    case List(xs) => forall i :: 0 <= i < |xs| ==> IsJsonData(xs[i])
    case Dict(es) => forall i :: 0 <= i < |es| ==> IsJsonData(es[i].1)
    case _ => true
  }

  /** Python truthiness of a JSON value. */
  predicate Truthy(v: Value) {
    match v
    case Null => false
    case Bool(b) => b
    case Num(n) => n != 0
    case Str(s) => s != ""
    case Bytes(d) => |d| > 0
    case List(xs) => |xs| > 0
    case Tuple(xs) => |xs| > 0
    case Dict(es) => |es| > 0
  }
}
