/** JavaScript values as the scrapers see them: JSON-shaped data, truthiness,
    property access that yields `undefined` for a missing key, the text a
    template literal makes of a value, and a mutable object. */
module Js {
  import opened Strings

  /** A JavaScript value. Numbers are integers (see README). */
  datatype Json =
    | Undefined
    | Null
    | Bool(b: bool)
    | Num(n: int)
    | Str(s: string)
    | Arr(items: seq<Json>)
    | Obj(fields: map<string, Json>)

  /** JavaScript truthiness: `undefined`, `null`, `false`, `0` and `''` are falsy. */
  predicate Truthy(v: Json) {
    match v
    case Undefined => false
    case Null => false
    case Bool(b) => b
    case Num(n) => n != 0
    case Str(s) => s != ""
    case Arr(_) => true
    case Obj(_) => true
  }

  /** `o[k]` on a plain object: the stored value, or `undefined`. */
  function Get(o: map<string, Json>, k: string): (v: Json)
    ensures k !in o ==> v == Undefined
    ensures k in o ==> v == o[k]
  {
    if k in o then o[k] else Undefined
  }

  /** The text `${v}` produces for `v`: arrays are joined with commas, with
      `null` and `undefined` elements shown as empty text. */
  function Show(v: Json): string
    decreases v, 1
  {
    match v
    case Undefined => "undefined"
    case Null => "null"
    case Bool(b) => if b then "true" else "false"
    case Num(n) => IntToString(n)
    case Str(s) => s
    case Arr(items) => Join(items)
    case Obj(_) => "[object Object]"
  }

  function Join(items: seq<Json>): string
    decreases items, 0
  {
    if items == [] then ""
    else
      var last := items[|items| - 1];
      var shown := if last.Undefined? || last.Null? then "" else Show(last);
      if |items| == 1 then shown else Join(items[..|items| - 1]) + "," + shown
  }

  /** A JavaScript object that the scrapers change in place. Its properties
      are a map from key to value; a value is copied, never shared. */
  class JsObject {
    var props: map<string, Json>

    constructor (props: map<string, Json>)
      ensures this.props == props
    {
      this.props := props;
    }
  }
}
