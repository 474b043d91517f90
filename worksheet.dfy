/** The worksheet the task scheduler keeps its tasks in, as the program uses it:
    a 1-based grid of rows, each with the four columns Task, Status, Timestamp
    and Notes. The sheet is the sequence of its rows, sheet row `r` being
    `rows[r - 1]`, and its length is the sheet's max_row. A cell that was never
    written reads as the empty string. */
module Worksheet {

  datatype Row = Row(task: string, status: string, timestamp: string, notes: string)

  /** What a row below the last one holds: no cell written yet. */
  const EmptyRow := Row("", "", "", "")

  /** The task sheet has four columns, numbered from 1. */
  const Columns := 4

  predicate IsColumn(col: int) {
    1 <= col <= Columns
  }

  /** The value of column `col` of a row. */
  function Cell(row: Row, col: int): (v: string)
    requires IsColumn(col)
  {
    if col == 1 then row.task
    else if col == 2 then row.status
    else if col == 3 then row.timestamp
    else row.notes
  }

  /** The row with column `col` set to `value`. */
  function WithCell(row: Row, col: int, value: string): (r: Row)
    requires IsColumn(col)
    ensures Cell(r, col) == value
    ensures forall c :: IsColumn(c) && c != col ==> Cell(r, c) == Cell(row, c)
  {
    if col == 1 then row.(task := value)
    else if col == 2 then row.(status := value)
    else if col == 3 then row.(timestamp := value)
    else row.(notes := value)
  }

  /** Two rows that agree on every column are the same row. */
  lemma RowsAgreeOnCells(a: Row, b: Row)
    requires forall c :: IsColumn(c) ==> Cell(a, c) == Cell(b, c)
    ensures a == b
  {
    assert Cell(a, 1) == Cell(b, 1) && Cell(a, 2) == Cell(b, 2);
    assert Cell(a, 3) == Cell(b, 3) && Cell(a, 4) == Cell(b, 4);
  }

  /** Sheet row `r`; a row past the last one has no cells yet. */
  function RowAt(rows: seq<Row>, r: int): (row: Row)
    requires r >= 1
    ensures r > |rows| ==> row == EmptyRow
  {
    if r <= |rows| then rows[r - 1] else EmptyRow
  }

  /** The value of cell (`r`, `col`), as reading the cell returns it. */
  function CellAt(rows: seq<Row>, r: int, col: int): (v: string)
    requires r >= 1 && IsColumn(col)
  {
    Cell(RowAt(rows, r), col)
  }

  /** Writing `value` into cell (`r`, `col`). A write below the last row
      extends the sheet down to row `r`; rows in between have no cells. */
  function WriteCell(rows: seq<Row>, r: int, col: int, value: string): (w: seq<Row>)
    requires r >= 1 && IsColumn(col)
    ensures |w| == if r <= |rows| then |rows| else r
    ensures w[r - 1] == WithCell(RowAt(rows, r), col, value)
    ensures forall i :: 1 <= i <= |w| && i != r ==> w[i - 1] == RowAt(rows, i)
  {
    var padded := if r <= |rows| then rows else rows + seq(r - |rows|, _ => EmptyRow);
    assert forall i :: 1 <= i <= |padded| ==> padded[i - 1] == RowAt(rows, i);
    padded[r - 1 := WithCell(padded[r - 1], col, value)]
  }

  /** A write inside the sheet replaces one row; a write just below the last
      row appends one. */
  lemma WriteCellShape(rows: seq<Row>, r: int, col: int, value: string)
    requires 1 <= r <= |rows| + 1 && IsColumn(col)
    ensures r <= |rows| ==> WriteCell(rows, r, col, value) == rows[r - 1 := WithCell(rows[r - 1], col, value)]
    ensures r == |rows| + 1 ==> WriteCell(rows, r, col, value) == rows + [WithCell(EmptyRow, col, value)]
  {
    var w := WriteCell(rows, r, col, value);
    if r == |rows| + 1 {
      assert w[..|rows|] == rows;
      assert w == w[..|rows|] + [w[|rows|]];
    }
  }

  /** Reading a cell after a write: the written cell holds the new value and
      every other cell of the sheet, written or not, reads as before. */
  lemma ReadAfterWrite(rows: seq<Row>, r: int, col: int, value: string, i: int, c: int)
    requires r >= 1 && IsColumn(col) && i >= 1 && IsColumn(c)
    ensures CellAt(WriteCell(rows, r, col, value), i, c)
         == if i == r && c == col then value else CellAt(rows, i, c)
  {
    var w := WriteCell(rows, r, col, value);
    if i > |w| {
      assert RowAt(w, i) == EmptyRow == RowAt(rows, i);
    } else if i != r {
      assert RowAt(w, i) == RowAt(rows, i);
    }
  }

  /** Deleting sheet row `r`: the rows below it move up by one and close the
      gap. Deleting a row past the last one removes nothing. */
  function DeleteRow(rows: seq<Row>, r: int): (d: seq<Row>)
    requires r >= 1
    ensures |d| == if r <= |rows| then |rows| - 1 else |rows|
    ensures forall i :: 1 <= i ==> RowAt(d, i) == RowAt(rows, if i < r then i else i + 1)
  {
    if r <= |rows| then rows[..r - 1] + rows[r..] else rows
  }

  /** Writing one cell of the row just past the end and then deleting that
      row gives back the sheet as it was. */
  lemma DeleteUndoesWritePastEnd(rows: seq<Row>, col: int, value: string)
    requires IsColumn(col)
    ensures DeleteRow(WriteCell(rows, |rows| + 1, col, value), |rows| + 1) == rows
  {
    var w := WriteCell(rows, |rows| + 1, col, value);
    var d := DeleteRow(w, |rows| + 1);
    assert |d| == |rows|;
    forall i | 0 <= i < |rows| ensures d[i] == rows[i] {
      assert RowAt(d, i + 1) == RowAt(w, i + 1);
    }
  }
}
