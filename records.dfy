/** A table row as the scripts handle it: a pandas row, a `csv.DictReader`
    record or a JSON object, all as a map from column name to cell. A column
    the row does not have reads as NaN. */
module Records {
  import opened Values

  type Row = map<string, Value>

  /** `row.get(column)`, NaN when absent. */
  function Cell(r: Row, column: string): Value {
    if column in r then r[column] else Null
  }

  /** The cell of one column in every row, in row order. */
  function Column(rows: seq<Row>, column: string): (r: seq<Value>)
    ensures |r| == |rows| && forall i :: 0 <= i < |rows| ==> r[i] == Cell(rows[i], column)
  {
    seq(|rows|, i requires 0 <= i < |rows| => Cell(rows[i], column))
  }

  /** A column-wise rewrite applied to every row (`df[c] = df[c].apply(f)`). */
  function MapRows(rows: seq<Row>, f: Row -> Row): (r: seq<Row>)
    ensures |r| == |rows| && forall i :: 0 <= i < |rows| ==> r[i] == f(rows[i])
  {
    seq(|rows|, i requires 0 <= i < |rows| => f(rows[i]))
  }

  /** The set of columns a list of fields names. */
  function ColumnSet(names: seq<string>): set<string> {
    set c | c in names
  }
}
