/** The task list widget as the program fills it: one row of four cells (title,
    description, deadline, priority) per task; a cell that was never set is absent. */
module TaskTable {
  import opened Records

  const ColumnCount: nat := 4

  type Row = seq<Option<string>>

  predicate WellShaped(table: seq<Row>) {
    forall k :: 0 <= k < |table| ==> |table[k]| == ColumnCount
  }

  /** The cells `load_tasks` writes for a selected row: every column after the id. */
  function RowOf(t: Task): Row {
    [Some(t.title), Some(t.description), Some(t.deadline), Some(t.priority)]
  }

  /** The table after the selected rows are written into it in order. */
  function Shown(tasks: seq<Task>): seq<Row> {
    seq(|tasks|, k requires 0 <= k < |tasks| => RowOf(tasks[k]))
  }
}
