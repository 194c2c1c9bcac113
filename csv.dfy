/** The CSV file format of export and import: a fixed four-label header, then one row of
    four text cells per task. Files are sequences of rows of cells; quoting is not modelled. */
module Csv {
  import opened Records
  import opened TaskTable

  const Header: seq<string> := ["Заголовок", "Описание", "Срок исполнения", "Приоритет"]

  /** `import_csv` reads the first row and goes on only when it equals the header exactly. */
  predicate HeaderAccepted(file: seq<seq<string>>) {
    file != [] && file[0] == Header
  }

  /** An absent cell is written as the empty string. */
  function CellText(cell: Option<string>): string {
    if cell.Some? then cell.value else ""
  }

  function ExportedRow(row: Row): seq<string>
    requires |row| == ColumnCount
  {
    seq(ColumnCount, j requires 0 <= j < ColumnCount => CellText(row[j]))
  }

  /** The rows `export_csv` writes for a table: the header, then one row per table row. */
  function Exported(table: seq<Row>): seq<seq<string>>
    requires WellShaped(table)
  {
    [Header] + seq(|table|, k requires 0 <= k < |table| => ExportedRow(table[k]))
  }

  /** `export_csv`: writes the header, then builds each row cell by cell. */
  method Export(table: seq<Row>) returns (file: seq<seq<string>>)
    requires WellShaped(table)
    ensures file == Exported(table)
  {
    file := [Header];
    var row := 0;
    while row < |table|
      invariant 0 <= row <= |table|
      invariant file == [Header] + seq(row, k requires 0 <= k < row => ExportedRow(table[k]))
    {
      var rowData: seq<string> := [];
      var col := 0;
      while col < ColumnCount
        invariant 0 <= col <= ColumnCount
        invariant rowData == ExportedRow(table[row])[..col]
      {
        var item := table[row][col];
        if item.Some? {
          rowData := rowData + [item.value];
        } else {
          rowData := rowData + [""];
        }
        col := col + 1;
      }
      assert rowData == ExportedRow(table[row]);
      assert seq(row + 1, k requires 0 <= k < row + 1 => ExportedRow(table[k]))
        == seq(row, k requires 0 <= k < row => ExportedRow(table[k])) + [rowData];
      file := file + [rowData];
      row := row + 1;
    }
  }

  /** The data rows `import_csv` turns into tasks before a row that is not exactly four
      cells wide stops it (the four-way unpack raises). */
  function AcceptedRows(rows: seq<seq<string>>): (r: seq<seq<string>>)
    ensures |r| <= |rows| && r == rows[..|r|]
    ensures forall k :: 0 <= k < |r| ==> |r[k]| == ColumnCount
    ensures |r| < |rows| ==> |rows[|r|]| != ColumnCount
  {
    if rows == [] || |rows[0]| != ColumnCount then []
    else [rows[0]] + AcceptedRows(rows[1..])
  }

  /** The accepted prefix is the one that ends at the first row of another width. */
  lemma AcceptedRowsAt(rows: seq<seq<string>>, n: nat)
    requires n <= |rows|
    requires forall k :: 0 <= k < n ==> |rows[k]| == ColumnCount
    requires n < |rows| ==> |rows[n]| != ColumnCount
    ensures AcceptedRows(rows) == rows[..n]
  {
  }

  /** The tasks `add_task` inserts for accepted rows, with the consecutive ids the table
      hands out from `firstId` on. */
  function NewTasks(firstId: int, userId: int, rows: seq<seq<string>>): seq<Task>
    requires forall k :: 0 <= k < |rows| ==> |rows[k]| == ColumnCount
  {
    if rows == [] then []
    else
      var n := |rows| - 1;
      NewTasks(firstId, userId, rows[..n])
        + [Task(firstId + n, userId, rows[n][0], rows[n][1], rows[n][2], rows[n][3])]
  }

  lemma {:induction false} NewTasksAt(firstId: int, userId: int, rows: seq<seq<string>>, k: nat)
    requires forall i :: 0 <= i < |rows| ==> |rows[i]| == ColumnCount
    requires k < |rows|
    ensures |NewTasks(firstId, userId, rows)| == |rows|
    ensures NewTasks(firstId, userId, rows)[k]
      == Task(firstId + k, userId, rows[k][0], rows[k][1], rows[k][2], rows[k][3])
  {
    var n := |rows| - 1;
    if k < n {
      NewTasksAt(firstId, userId, rows[..n], k);
    } else if n > 0 {
      NewTasksAt(firstId, userId, rows[..n], 0);
    }
  }

  /** What `export_csv` writes passes `import_csv`'s header check, and every data row of it
      is imported. */
  lemma ExportPassesImport(table: seq<Row>)
    requires WellShaped(table)
    ensures HeaderAccepted(Exported(table))
    ensures AcceptedRows(Exported(table)[1..]) == Exported(table)[1..]
  {
    var rows := Exported(table)[1..];
    AcceptedRowsAt(rows, |rows|);
  }

  /** Exporting the rows the list shows and importing the file gives back, row for row,
      the same title, description, deadline and priority, under the importing user and
      with fresh ids. */
  lemma ExportImportRoundTrip(tasks: seq<Task>, firstId: int, userId: int, k: nat)
    requires k < |tasks|
    ensures WellShaped(Shown(tasks))
    ensures HeaderAccepted(Exported(Shown(tasks)))
    ensures AcceptedRows(Exported(Shown(tasks))[1..]) == Exported(Shown(tasks))[1..]
    ensures
      var imported := NewTasks(firstId, userId, Exported(Shown(tasks))[1..]);
      |imported| == |tasks|
      && imported[k].title == tasks[k].title && imported[k].description == tasks[k].description
      && imported[k].deadline == tasks[k].deadline && imported[k].priority == tasks[k].priority
      && imported[k].userId == userId && imported[k].id == firstId + k
  {
    var table := Shown(tasks);
    ExportPassesImport(table);
    var rows := Exported(table)[1..];
    assert rows[k] == ExportedRow(RowOf(tasks[k]));
    NewTasksAt(firstId, userId, rows, k);
  }
}
