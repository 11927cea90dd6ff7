/** Spreadsheet rows as the engine and the routes see them, and the
    JavaScript coercions they apply to cell values. */
module Cells {
  import opened Wrappers
  import opened Calendar

  /** A cell value: a string, a number or a boolean. */
  datatype Cell = Str(text: string) | Num(number: real) | Bool(flag: bool)

  /** One row: column header to value; a header without a key is `undefined`. */
  type Row = map<string, Cell>

  /** A transformed record: output field to value. */
  type Record = map<string, Cell>

  /** The exceptions the modelled code can throw on data it does not guard against. */
  datatype Fault =
    | LowerCaseOfNonString  // `value.toLowerCase()` on a number or boolean: not a function
    | EntriesOfUndefined    // `Object.entries(undefined)`: cannot convert undefined to object

  /** The host's conversions, which the model does not reproduce:
      `numberOf` is `Number(s)` on a string (`None` for NaN), as `isNaN` and `<` use it;
      `parseFloatOf` is `parseFloat(s)` (`None` for NaN);
      `dateOf` is `new Date(value)` read in local time (`None` for an invalid date). */
  datatype Host = Host(
    numberOf: string -> Option<real>,
    parseFloatOf: string -> Option<real>,
    dateOf: Cell -> Option<CalendarDate>)

  /** `row[column]`. */
  function Get(row: Row, column: string): Option<Cell> {
    if column in row then Some(row[column]) else None
  }

  /** `value !== undefined && value !== ''`. */
  predicate Present(row: Row, column: string) {
    column in row && row[column] != Str("")
  }

  /** JavaScript truthiness: `undefined`, `''`, `0` and `false` are falsy. */
  predicate Truthy(v: Option<Cell>) {
    match v
    case None => false
    case Some(Str(s)) => s != ""
    case Some(Num(x)) => x != 0.0
    case Some(Bool(b)) => b
  }

  /** `Number(value)`: a boolean is 1 or 0; `None` stands for NaN. */
  function NumberOf(host: Host, v: Cell): Option<real> {
    match v
    case Num(x) => Some(x)
    case Bool(b) => Some(if b then 1.0 else 0.0)
    case Str(s) => host.numberOf(s)
  }

  /** `parseFloat(value)`: it reads `String(value)`, so a boolean reads as
      "true" or "false", which is NaN. */
  function ParseFloat(host: Host, v: Cell): Option<real> {
    match v
    case Num(x) => Some(x)
    case Bool(_) => None
    case Str(s) => host.parseFloatOf(s)
  }
}
