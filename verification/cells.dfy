/**
 The values a decoded spreadsheet row holds, and the JavaScript conversions
 the components apply to them.
 */
module Cells {
  import opened Text

  /** One cell of a decoded sheet row: `undefined`, `null`, a string, an
      integer-valued number or a boolean. `Undefined` stands both for a hole
      the decoder leaves in a sparse row (which `map` keeps and `findIndex`
      visits as `undefined`) and for a read past the end of a row. */
  datatype Cell = Undefined | Null | Str(s: string) | Num(n: int) | Bool(b: bool)

  /** `String(v ?? '')`: the text is empty exactly for a missing value and
      the empty string; numbers print in decimal and read back. */
  function Show(c: Cell): (r: string)
    ensures r == "" <==> c.Undefined? || c.Null? || c == Str("")
    ensures c.Num? && c.n >= 0 ==> AllDigits(r) && DigitsValue(r) == c.n
    ensures c.Num? && c.n < 0 ==> r[0] == '-' && AllDigits(r[1..]) && DigitsValue(r[1..]) == -c.n
    ensures c.Str? ==> r == c.s
    ensures c.Bool? ==> r == (if c.b then "true" else "false")
  {
    match c
    case Undefined => ""
    case Null => ""
    case Str(s) => s
    case Num(n) =>
      NatToStringRoundTrip(if n < 0 then -n else n);
      assert n < 0 ==> IntToString(n)[1..] == NatToString(-n);
      IntToString(n)
    case Bool(b) => if b then "true" else "false"
  }

  /** JavaScript truthiness. */
  predicate Truthy(c: Cell) {
    match c
    case Undefined => false
    case Null => false
    case Str(s) => s != ""
    case Num(n) => n != 0
    case Bool(b) => b
  }

  /** `row[i]`: `undefined` outside the row. */
  function At(row: seq<Cell>, i: int): Cell {
    if 0 <= i < |row| then row[i] else Undefined
  }
}
