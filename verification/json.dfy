/**
 * Request bodies as JavaScript sees them after JSON parsing, and the two
 * conversions the service's code applies to such values: truthiness (the
 * `||` and `!` operators) and express-validator's `toString`, which every
 * standard validator and sanitizer applies before looking at a value.
 */
module Json {
  import JsStrings

  datatype Json =
    | Undefined                        // what a missing key reads as
    | Null
    | Bool(b: bool)
    | Num(repr: string)                // a finite number, by its text String(n)
    | Str(s: string)
    | Arr(items: seq<Json>)
    | Obj(members: map<string, Json>)

  /** A parsed request body; a key is present exactly when it is in the map. */
  type Body = map<string, Json>

  /** `body[key]`: `undefined` for a missing key. */
  function Lookup(body: Body, key: string): (v: Json)
    ensures key !in body ==> v == Undefined
    ensures key in body ==> v == body[key]
  {
    if key in body then body[key] else Undefined
  }

  /** JavaScript truthiness, as used by `x || default` and `!x`. */
  predicate Truthy(v: Json) {
    match v
    case Undefined | Null => false
    case Bool(b) => b
    case Num(repr) => repr != "0" && repr != "NaN"
    case Str(s) => s != ""
    case Arr(_) | Obj(_) => true
  }

  /**
   * express-validator's `toString`: `null` and `undefined` become the empty
   * string, arrays are joined with commas (Array.prototype.toString), plain
   * objects print as "[object Object]".
   */
  function Text(v: Json): string
    decreases v
  {
    match v
    case Undefined | Null => ""
    case Bool(b) => if b then "true" else "false"
    case Num(repr) => repr
    case Str(s) => s
    case Arr(items) => Join(items)
    case Obj(_) => "[object Object]"
  }

  /** `items.join(",")` over the elements' texts. */
  function Join(items: seq<Json>): string
    decreases items
  {
    if |items| == 0 then ""
    else if |items| == 1 then Text(items[0])
    else Text(items[0]) + "," + Join(items[1..])
  }
}
