/**
 The loosely typed values that the poller hands over after JSON decoding
 (Go's `interface{}`), and the Option type used for Go's nil results.
 */
module Values {

  datatype Option<+T> = None | Some(value: T)

  /** A decoded JSON value. `Int` stands for a Go `int64` placed in the map by
      other code; JSON decoding itself only produces `Num` (a `float64`). */
  datatype Value =
    | Null
    | Bool(b: bool)
    | Int(i: int)
    | Num(f: real)
    | Str(s: string)
    | Arr(items: seq<Value>)
    | Obj(fields: map<string, Value>)

  /** A Go `map[string]interface{}`. */
  type Fields = map<string, Value>

  /** Go's `m[key]`: a missing key reads as nil. */
  function Lookup(m: Fields, key: string): Value
  {
    if key in m then m[key] else Null
  }
}
