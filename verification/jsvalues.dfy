/** The JavaScript values the format records hold, and the coercions the modelled
    code applies to them: truthiness, `String(v)` and `v || 0` used as a number. */
module JsValues {
  import opened Wrappers
  import opened Numbers

  /** Format numbers (itag, bitrate, audioBitrate, width, ...) are integers;
      fractional numbers are not modelled. */
  datatype Value = Undefined | Null | Bool(b: bool) | Num(n: int) | Str(s: string)

  /** A plain object: its own enumerable properties. A key absent from the map reads
      as `undefined`; a key present with `Undefined` was assigned `undefined`. */
  type Record = map<string, Value>

  /** `obj[key]`. */
  function Get(obj: Record, key: string): Value {
    if key in obj then obj[key] else Undefined
  }

  /** `!!v`. */
  predicate Truthy(v: Value) {
    match v
    case Undefined => false
    case Null => false
    case Bool(b) => b
    case Num(n) => n != 0
    case Str(s) => s != ""
  }

  /** `a || b`. */
  function Or(a: Value, b: Value): (r: Value)
    ensures Truthy(r) <==> Truthy(a) || Truthy(b)
    ensures Truthy(a) ==> r == a
    ensures !Truthy(a) ==> r == b
  {
    if Truthy(a) then a else b
  }

  /** `String(v)`, which is also the property key `obj[v]` uses. */
  function ToJsString(v: Value): string {
    match v
    case Undefined => "undefined"
    case Null => "null"
    case Bool(b) => if b then "true" else "false"
    case Num(n) => IntToString(n)
    case Str(s) => s
  }

  /** `Number(v)` where it is an integer; None stands for NaN and for number
      syntax the model does not read (sign, point, exponent, white space, hex). */
  function ToNumber(v: Value): Option<int> {
    match v
    case Undefined => None
    case Null => Some(0)
    case Bool(b) => Some(if b then 1 else 0)
    case Num(n) => Some(n)
    case Str(s) => if AllDigits(s) then Some(DecimalValue(s)) else None
  }

  /** `v || 0` as the operand of a subtraction: 0 for every falsy value,
      otherwise the value read as a number. */
  function NumberOrZero(v: Value): (r: Option<int>)
    ensures !Truthy(v) ==> r == Some(0)
    ensures v.Num? ==> r == Some(v.n)
  {
    if Truthy(v) then ToNumber(v) else Some(0)
  }

  /** Turns the string values of parsed query parameters into record values. */
  function StrValues(m: map<string, string>): (r: Record)
    ensures r.Keys == m.Keys
    ensures forall k :: k in m ==> r[k] == Str(m[k])
  {
    map k | k in m :: Str(m[k])
  }
}
