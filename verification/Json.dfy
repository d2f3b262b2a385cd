/** JSON trees as serde_json holds them: a number keeps the form it was read in,
    and an object is a map whose keys iterate in ascending order. */
module Json {
  import opened Integers

  /** A binary64 value without its rounding. */
  datatype Float = Finite(value: real) | NegativeZero | Infinite(positive: bool) | NotANumber

  datatype Number =
    | PosInt(natural: U64)
    | NegInt(negative: I64)
    | Floating(float: Float)

  datatype Value =
    | Null
    | Bool(bool)
    | Number(number: Number)
    | String(text: string)
    | Array(elements: seq<Value>)
    | Object(fields: map<string, Value>)

  /** Number::from(i64). */
  function FromI64(n: I64): Number {
    if n < 0 then NegInt(n) else PosInt(n)
  }
}
