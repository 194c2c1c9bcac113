/** `TaskManagerApp`: the session's user, the task list it shows, and the operations
    behind its buttons, with the dialogs and file pickers replaced by parameters. */
module TaskManager {
  import opened Records
  import opened Credentials
  import opened TaskRows
  import opened Query
  import opened TaskTable
  import opened Csv
  import opened Database

  datatype ImportOutcome =
    | EmptyFile       // the file has no first row: reading the header raises
    | NotTaskFile     // wrong header: "the chosen file is not a CSV file with tasks"
    | BadRow(index: nat)  // data row `index` is not four cells wide: the unpack raises
    | Imported

  class TaskManagerApp {
    const db: DatabaseManager
    var currentUserId: Option<int>
    var table: seq<Row>

    ghost predicate Valid()
      reads this, db
    {
      db.Valid() && WellShaped(table)
    }

    /** Opens the main window. When the login dialog was accepted for `username`, the
        session user is that name's id and the list shows the user's tasks. */
    constructor (db: DatabaseManager, accepted: bool, username: string)
      requires db.Valid()
      ensures Valid() && this.db == db
      ensures currentUserId == if accepted then LookupId(db.users, username) else None
      ensures table == if currentUserId.Some? then Shown(Owned(db.tasks, currentUserId.value)) else []
    {
      this.db := db;
      currentUserId := None;
      table := [];
      new;
      if accepted {
        currentUserId := db.GetUserId(username);
        LoadTasks();
      }
    }

    /** Empties the list, then inserts one row per task and fills its four cells. */
    method ShowRows(rows: seq<Task>)
      modifies this`table
      ensures table == Shown(rows)
    {
      table := [];
      var n := 0;
      while n < |rows|
        invariant 0 <= n <= |rows|
        invariant table == Shown(rows[..n])
      {
        var t := rows[n];
        var fields := [t.title, t.description, t.deadline, t.priority];
        var cells: Row := [None, None, None, None];
        var col := 0;
        while col < ColumnCount
          invariant 0 <= col <= ColumnCount && |cells| == ColumnCount
          invariant forall j :: 0 <= j < col ==> cells[j] == Some(fields[j])
        {
          cells := cells[col := Some(fields[col])];
          col := col + 1;
        }
        assert cells == RowOf(t);
        assert Shown(rows[..n + 1]) == Shown(rows[..n]) + [RowOf(t)];
        table := table + [cells];
        n := n + 1;
      }
      assert rows[..n] == rows;
    }

    /** `load_tasks`: with a session user, the list shows that user's rows in storage order. */
    method LoadTasks()
      requires Valid()
      modifies this`table
      ensures Valid()
      ensures table == if currentUserId.Some? then Shown(Owned(db.tasks, currentUserId.value)) else old(table)
    {
      if currentUserId.Some? {
        var rows := db.SelectTasks([UserIs(currentUserId.value)]);
        ShowRows(rows);
      }
    }

    /** `show_add_task_dialog` after the dialog closes: a task without a title is refused
        (`added` is false); otherwise it is stored and the list reloaded. */
    method ShowAddTaskDialog(accepted: bool, title: string, description: string, deadline: string, priority: string)
      returns (added: bool)
      requires Valid()
      modifies this`table, db
      ensures Valid()
      ensures added <==> accepted && title != ""
      ensures db.tasks == if added && currentUserId.Some?
        then old(db.tasks) + [Task(old(db.nextTaskId), currentUserId.value, title, description, deadline, priority)]
        else old(db.tasks)
      ensures table == if added && currentUserId.Some? then Shown(Owned(db.tasks, currentUserId.value)) else old(table)
      ensures db.nextTaskId == old(db.nextTaskId) + (if added && currentUserId.Some? then 1 else 0)
      ensures db.users == old(db.users) && db.nextUserId == old(db.nextUserId)
    {
      if !accepted || title == "" {
        return false;
      }
      AddTaskToDatabase(title, description, deadline, priority);
      LoadTasks();
      added := true;
    }

    /** `add_task_to_database`: one new row for the session user; nothing without one. */
    method AddTaskToDatabase(title: string, description: string, deadline: string, priority: string)
      requires Valid()
      modifies db
      ensures Valid()
      ensures db.tasks == if currentUserId.Some?
        then old(db.tasks) + [Task(old(db.nextTaskId), currentUserId.value, title, description, deadline, priority)]
        else old(db.tasks)
      ensures db.nextTaskId == old(db.nextTaskId) + (if currentUserId.Some? then 1 else 0)
      ensures db.users == old(db.users) && db.nextUserId == old(db.nextUserId)
    {
      if currentUserId.Some? {
        db.AddTask(currentUserId.value, title, description, deadline, priority);
      }
    }

    /** `edit_task_in_database`: rewrites the session user's rows that have the old title
        and description. */
    method EditTaskInDatabase(title: string, description: string,
                              newTitle: string, newDescription: string, newDeadline: string, newPriority: string)
      requires Valid()
      modifies db
      ensures Valid()
      ensures db.tasks == if currentUserId.Some?
        then Edited(old(db.tasks), title, description, currentUserId.value, newTitle, newDescription, newDeadline, newPriority)
        else old(db.tasks)
      ensures db.users == old(db.users) && db.nextUserId == old(db.nextUserId) && db.nextTaskId == old(db.nextTaskId)
    {
      if currentUserId.Some? {
        db.UpdateTasks(title, description, currentUserId.value, newTitle, newDescription, newDeadline, newPriority);
      }
    }

    /** `delete_task_from_database`: removes the session user's rows with this title and
        description. */
    method DeleteTaskFromDatabase(title: string, description: string)
      requires Valid()
      modifies db
      ensures Valid()
      ensures db.tasks == if currentUserId.Some?
        then Deleted(old(db.tasks), title, description, currentUserId.value)
        else old(db.tasks)
      ensures db.users == old(db.users) && db.nextUserId == old(db.nextUserId) && db.nextTaskId == old(db.nextTaskId)
    {
      if currentUserId.Some? {
        db.DeleteTask(title, description, currentUserId.value);
      }
    }

    /** `filter_tasks`: builds the query from the given criteria and shows what it selects. */
    method FilterTasks(text: string, priority: string, start: string, end: string)
      requires Valid()
      modifies this`table
      ensures Valid()
      ensures table == if currentUserId.Some?
        then Shown(Where(db.tasks, FilterClauses(currentUserId.value, text, priority, start, end)))
        else old(table)
    {
      if currentUserId.Some? {
        var query, params, clauses := BuildFilterQuery(currentUserId.value, text, priority, start, end);
        var rows := db.SelectTasks(clauses);
        ShowRows(rows);
      }
    }

    /** `export_csv`: the rows written for the list as it is shown. */
    method ExportCsv() returns (file: seq<seq<string>>)
      requires Valid()
      ensures file == Exported(table)
    {
      file := Export(table);
    }

    /** `import_csv` with `add_task_from_csv`: refuses a file without the exact header and
        changes nothing; otherwise clears the list and adds one task per data row until a
        row of another width raises, then reloads the list if no row raised. */
    method ImportCsv(file: seq<seq<string>>) returns (r: ImportOutcome)
      requires Valid()
      modifies this, db
      ensures Valid()
      ensures currentUserId == old(currentUserId) && db.users == old(db.users) && db.nextUserId == old(db.nextUserId)
      ensures file == [] ==> r == EmptyFile
      ensures file != [] && file[0] != Header ==> r == NotTaskFile
      ensures !HeaderAccepted(file) ==>
        db.tasks == old(db.tasks) && db.nextTaskId == old(db.nextTaskId) && table == old(table)
      ensures HeaderAccepted(file) && currentUserId.None? ==>
        r == Imported && db.tasks == old(db.tasks) && db.nextTaskId == old(db.nextTaskId) && table == []
      ensures HeaderAccepted(file) && currentUserId.Some? ==>
        var added := AcceptedRows(file[1..]);
        db.tasks == old(db.tasks) + NewTasks(old(db.nextTaskId), currentUserId.value, added)
        && db.nextTaskId == old(db.nextTaskId) + |added|
        && if |added| == |file| - 1
           then r == Imported && table == Shown(Owned(db.tasks, currentUserId.value))
           else r == BadRow(|added|) && table == []
    {
      if file == [] {
        return EmptyFile;
      }
      if file[0] != Header {
        return NotTaskFile;
      }
      table := [];
      var rows := file[1..];
      ghost var firstId := db.nextTaskId;
      var i := 0;
      while i < |rows|
        invariant 0 <= i <= |rows|
        invariant Valid() && table == []
        invariant currentUserId == old(currentUserId) && db.users == old(db.users) && db.nextUserId == old(db.nextUserId)
        invariant currentUserId.None? ==> db.tasks == old(db.tasks) && db.nextTaskId == old(db.nextTaskId)
        invariant currentUserId.Some? ==>
          (forall k :: 0 <= k < i ==> |rows[k]| == ColumnCount)
          && db.tasks == old(db.tasks) + NewTasks(firstId, currentUserId.value, rows[..i])
          && db.nextTaskId == firstId + i
      {
        if currentUserId.Some? {
          var row := rows[i];
          if |row| != ColumnCount {
            AcceptedRowsAt(rows, i);
            return BadRow(i);
          }
          db.AddTask(currentUserId.value, row[0], row[1], row[2], row[3]);
          assert rows[..i + 1][..i] == rows[..i];
        }
        i := i + 1;
      }
      if currentUserId.Some? {
        assert rows[..i] == rows;
        AcceptedRowsAt(rows, i);
      }
      LoadTasks();
      r := Imported;
    }
  }
}
