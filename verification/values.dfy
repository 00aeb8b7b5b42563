/** The JavaScript values that appear as item fields, ids and filter values,
    with the conversions the widgets apply to them: `String(v)`, truthiness,
    loose equality `==`, and the deep copy `JSON.parse(JSON.stringify(x))`.
    Numbers are integers; objects other than items do not occur as field
    values. */
module Values {

  datatype Value = Undefined | Null | Bool(b: bool) | Num(n: int) | Str(s: string)

  /** A list item: a plain object from property names to values. A missing
      property reads as `undefined`. */
  type Item = map<string, Value>

  /** `item[key]`. */
  function Get(item: Item, key: string): Value {
    if key in item then item[key] else Undefined
  }

  /** `undefined` or `null`, the two values `_normalizeValue` maps to `undefined`. */
  predicate IsNullish(v: Value) {
    v.Undefined? || v.Null?
  }

  /** JavaScript truthiness: `undefined`, `null`, `false`, `0` and `''` are falsy. */
  predicate Truthy(v: Value) {
    match v
    case Undefined => false
    case Null => false
    case Bool(b) => b
    case Num(n) => n != 0
    case Str(s) => s != []
  }

  /** A decimal digit. */
  function Digit(d: int): (r: char)
    requires 0 <= d < 10
    ensures '0' <= r <= '9'
  {
    (d + '0' as int) as char
  }

  /** The decimal numeral of a natural number, without leading zeros. */
  function Decimal(n: nat): (r: string)
    ensures r != []
    ensures forall i :: 0 <= i < |r| ==> '0' <= r[i] <= '9'
    decreases n
  {
    if n < 10 then [Digit(n)] else Decimal(n / 10) + [Digit(n % 10)]
  }

  /** `String(v)`. */
  function ToString(v: Value): (r: string)
    ensures v.Str? ==> r == v.s
  {
    match v
    case Undefined => "undefined"
    case Null => "null"
    case Bool(b) => if b then "true" else "false"
    case Num(n) => if n < 0 then "-" + Decimal(-n) else Decimal(n)
    case Str(s) => s
  }

  /** The number a boolean converts to in a loose comparison. */
  function BoolNumber(b: bool): int {
    if b then 1 else 0
  }

  /** `a == b`. Values of one type compare strictly; `undefined` and `null`
      equal each other and nothing else; a boolean compares as `0` or `1`;
      a number and a string compare by the number's decimal numeral. */
  predicate LooseEq(a: Value, b: Value)
    decreases (if a.Bool? then 1 else 0) + (if b.Bool? then 1 else 0)
  {
    if IsNullish(a) || IsNullish(b) then IsNullish(a) && IsNullish(b)
    else if a.Bool? then LooseEq(Num(BoolNumber(a.b)), b)
    else if b.Bool? then LooseEq(a, Num(BoolNumber(b.b)))
    else if a.Num? && b.Str? then ToString(a) == b.s
    else if a.Str? && b.Num? then a.s == ToString(b)
    else a == b
  }

  /** `JSON.parse(JSON.stringify(item))`: a fresh object without the
      properties whose value is `undefined`. */
  function JsonCopy(item: Item): (r: Item)
    ensures forall k :: k in r ==> r[k] != Undefined
    ensures forall k :: Get(r, k) == Get(item, k)
  {
    map k | k in item && item[k] != Undefined :: item[k]
  }
}
