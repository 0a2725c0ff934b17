/**
 * The loosely typed row objects the pipeline passes around: string-keyed records whose
 * values are strings or numbers, with JavaScript's truthiness, `a || b` fallback and
 * `parseFloat(x || 0)` reading.
 */
module Values {
  import opened Text
  import opened Numbers

  datatype Value = Str(s: string) | Num(n: real)

  /** A record read from a CSV file: every value is text. */
  type TextRow = map<string, string>

  /** A record after preprocessing: values are text or numbers. */
  type Row = map<string, Value>

  /** JavaScript truthiness: the empty string and zero are falsy. */
  predicate Truthy(v: Value) {
    match v
    case Str(s) => s != ""
    case Num(n) => n != 0.0
  }

  /** `row[key]`, with `None` for a missing key (`undefined`). */
  function Get(row: Row, key: string): Option<Value> {
    if key in row then Some(row[key]) else None
  }

  /** `a || b`: `a` when it is present and truthy, otherwise `b`. */
  function Or(a: Option<Value>, b: Value): (r: Value)
    ensures a.Some? && Truthy(a.value) ==> r == a.value
    ensures !(a.Some? && Truthy(a.value)) ==> r == b
    ensures Truthy(b) ==> Truthy(r)
  {
    if a.Some? && Truthy(a.value) then a.value else b
  }

  /** `v.toString()`. */
  function ValueText(v: Value): string {
    match v
    case Str(s) => s
    case Num(n) => NumberText(n)
  }

  /** `parseFloat(x || 0)`: a missing or falsy value reads as 0, a number as itself, and text
      through `ParseFloat`; text that is not a number (NaN in JavaScript) also reads as 0. */
  function NumberOrZero(x: Option<Value>): (r: real)
    ensures x.None? ==> r == 0.0
    ensures x.Some? && x.value.Num? ==> r == x.value.n
    ensures x.Some? && x.value.Str? && ParseFloat(x.value.s).None? ==> r == 0.0
    ensures x.Some? && x.value.Str? && ParseFloat(x.value.s).Some? ==> r == ParseFloat(x.value.s).value
  {
    match x
    case None => 0.0
    case Some(Num(n)) => n
    case Some(Str(s)) =>
      if s == "" then 0.0
      else match ParseFloat(s)
        case Some(n) => n
        case None => 0.0
  }

  /** The numeric value stored under `key`; anything else counts as 0 in a sum. */
  function NumField(row: Row, key: string): real {
    if key in row && row[key].Num? then row[key].n else 0.0
  }

  /** Sum of `NumField(row, key)` over `rows` (`rows.reduce((s, r) => s + r[key], 0)`). */
  function SumField(rows: seq<Row>, key: string): real {
    if rows == [] then 0.0 else SumField(rows[..|rows| - 1], key) + NumField(rows[|rows| - 1], key)
  }

  /** A CSV record as a row of text values. */
  function FromText(row: TextRow): (r: Row)
    ensures r.Keys == row.Keys
    ensures forall k | k in r :: r[k] == Str(row[k])
  {
    map k | k in row :: Str(row[k])
  }
}
