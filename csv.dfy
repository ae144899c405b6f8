/**
 * CSV rows as the Ruby `csv` library hands them to the scripts: a row is a
 * sequence of fields, and a field that is empty or lies past the end of the
 * row reads as nil.
 */
module Csv {
  import opened Wrappers

  /** A field value; `None` is Ruby's nil. */
  type Field = Option<string>

  type CsvRow = seq<Field>

  /** `row[i]`: the i-th field, nil when the row is shorter. */
  function At(row: CsvRow, i: nat): Field
  {
    if i < |row| then row[i] else None
  }

  /** The rows `CSV.foreach(file, headers: true)` yields: every line but the first. */
  function DataRows(lines: seq<CsvRow>): seq<CsvRow>
  {
    if lines == [] then [] else lines[1..]
  }
}
