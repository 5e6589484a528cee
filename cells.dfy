/** Spreadsheet cell values as the report-card code receives them, and the
    Python exceptions the core can raise. */
module Cells {

  /** A cell read from the marks workbook: an empty cell (`None`), text, an
      int or a float (a float as its exact value). */
  datatype Cell = Absent | Text(s: string) | Int(i: int) | Float(x: real)

  /** The exceptions the core raises: `int()` on a non-integer string, and
      indexing past the end of a list. */
  datatype Error = ValueError | IndexError

  datatype Result<T> = Success(value: T) | Failure(error: Error)

  /** One item of a subject-to-mark dictionary. */
  datatype Entry = Entry(subject: string, mark: int)

  /** `cell is None or cell == "" or cell == " "`: a cell the code treats as no mark. */
  predicate IsBlank(c: Cell) {
    c == Absent || c == Text("") || c == Text(" ")
  }

  /** A cell that holds a Python number. */
  predicate IsNumber(c: Cell) {
    c.Int? || c.Float?
  }

  /** The value of a number cell. */
  function NumberValue(c: Cell): real
    requires IsNumber(c)
  {
    if c.Int? then c.i as real else c.x
  }
}
