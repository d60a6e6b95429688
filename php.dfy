/**
 * The PHP values a decoded request body is made of, with the two language
 * tests the payload handling relies on: `isset` and `empty`.
 */
module Php {

  /** A decoded JSON/PHP value. A list stands for any PHP array nested in a row. */
  datatype Value =
    | Null
    | Bool(b: bool)
    | Int(i: int)
    | Float(f: real)
    | Str(s: string)
    | List(elems: seq<Value>)

  /** One row of the payload: a PHP array with string keys. */
  type Row = map<string, Value>

  /** PHP's `isset($row[$key])`: the key is present and its value is not null. */
  predicate IsSet(row: Row, key: string) {
    key in row && row[key] != Null
  }

  /** Reading `$row[$key]`; a missing key reads as null. */
  function Lookup(row: Row, key: string): (v: Value)
    ensures IsSet(row, key) <==> v != Null
    ensures key in row ==> v == row[key]
  {
    if key in row then row[key] else Null
  }

  /** PHP's `empty($v)` on a present value: the values PHP converts to false. */
  predicate IsEmpty(v: Value) {
    match v
    case Null => true
    case Bool(b) => !b
    case Int(i) => i == 0
    case Float(f) => f == 0.0
    case Str(s) => s == "" || s == "0"
    case List(elems) => elems == []
  }
}
