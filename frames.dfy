/** The rows of a workout-log data frame as the lifting functions read them. */
module Frames {
  import opened Numeric

  datatype Option<T> = None | Some(value: T)

  /** One cell of a CSV-backed column before numeric coercion: missing,
      text that is not a number, or a number. */
  datatype Cell = Empty | Text(text: string) | Num(num: real)

  /** A row of the log: the three columns the core reads, and every other
      column (Date, Category, the added `1RM`, ...) by name. A missing
      Exercise is `None`. */
  datatype Row = Row(exercise: Option<string>, weight: Cell, reps: Cell, others: map<string, Cell>)

  /** `pd.to_numeric(column, errors='coerce')` on one cell: numbers stay,
      anything else becomes NaN (an empty cell). */
  function ToNumeric(c: Cell): (r: Cell)
    ensures r.Num? <==> c.Num?
    ensures r.Num? ==> r == c
    ensures !r.Num? ==> r == Empty
  {
    if c.Num? then c else Empty
  }

  /** The float a cell holds once coerced. */
  function AsFloat(c: Cell): (f: Float)
    ensures f.Fin? <==> c.Num?
    ensures f.Fin? ==> f.value == c.num
  {
    if c.Num? then Fin(c.num) else NaN
  }

  /** A float stored back into a column; NaN is an empty cell. */
  function FromFloat(f: Float): (c: Cell)
    ensures AsFloat(c) == f
  {
    if f.Fin? then Num(f.value) else Empty
  }
}
