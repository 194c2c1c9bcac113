# Task manager store, modelled in Dafny

A model of the persistence and query layer of a single-user desktop task manager
(`main.py`). Users register and log in; each user's tasks (title, description,
ISO deadline, priority) live in a local database with two tables, `users` and
`tasks`. The model keeps each table as an in-memory sequence of rows in storage
order, with the AUTOINCREMENT counters as fields, and proves what each operation
does to those sequences.

Modules, one per component:

- `Records` (`records.dfy`): the `User` and `Task` rows and an `Option`.
- `Credentials` (`credentials.dfy`): name look-up, exact login match, unique names.
- `TaskRows` (`task_rows.dfy`): the content-matched DELETE and UPDATE as functions on
  the table, subsequences, increasing ids.
- `Query` (`query.dfy`): the filter's clauses, the SQL text and parameter tuple built
  from them, and the rows a clause list selects.
- `TaskTable` (`task_table.dfy`): the four-column task list as the program fills it.
- `Csv` (`csv.dfy`): the export rows, the import header check and row mapping.
- `Database` (`database.dfy`): class `DatabaseManager` holding both tables.
- `LoginDialog` (`login_dialog.dfy`): the register and login decisions.
- `TaskManager` (`task_manager.dfy`): class `TaskManagerApp` holding the session user
  and the displayed list, with the operations behind its buttons.

The main window opens a second connection to the same database file and runs its
own INSERT (`add_task_to_database`), UPDATE (`edit_task_in_database`) and SELECT
(`load_tasks`, `filter_tasks`) statements on it. The model has one `DatabaseManager`
object that the dialogs and the main window share: the window's INSERT goes to
`AddTask`, and `UpdateTasks` and `SelectTasks` stand for its UPDATE and SELECT.
A SELECT is modelled by the list of WHERE clauses it carries (`Query.Clause`); `BuildFilterQuery` also produces the SQL text
and parameter tuple exactly as the source concatenates them, and proves that they
are the rendering of that clause list.

Two behaviours of the program worth knowing:

- CSV import does not replace the user's tasks. It clears only the displayed list,
  inserts the file's rows and reloads (main.py:432-435), so the list then shows the
  earlier tasks together with the imported ones.
- Registration returns no id. The dialog just accepts after the insert
  (main.py:144-146), and the main window then looks the id up by the typed name
  (main.py:215).

## Model

| member | source | states |
|---|---|---|
| Credentials.LookupId | main.py:84-88 | the id found exists for a user with that name, and none is found exactly when no user has the name |
| Credentials.FindLogin | main.py:71-74 | a returned record is a stored user whose name and password both equal the arguments; none is returned only when no user matches both |
| Credentials.FindLoginAppend | main.py:71-74 | a login query over the table with one more row answers as before unless only the new row matches |
| Credentials.RegisteredLogin | main.py:66-74 | after inserting a fresh name with password p, login with that name succeeds with exactly p and fails with any other password |
| Credentials.FreshNameKeepsUnique | main.py:45 | inserting a name that look-up does not find keeps user names unique |
| TaskRows.Deleted | main.py:90-93 | a row survives the delete exactly when it does not match title, description and owner; the table never grows |
| TaskRows.DeletedIsSubsequence | main.py:90-93 | the surviving rows keep their original order |
| TaskRows.DeletedCount | main.py:90-93 | the rows removed are exactly the matching rows, however many there are |
| TaskRows.DeletedKeepsIds | main.py:54-55 | after a delete ids still increase in storage order and stay below the counter |
| TaskRows.SubsequenceKeepsIdsIncreasing | main.py:55 | leaving rows out of a table with increasing ids keeps them increasing |
| TaskRows.Edited | main.py:378-383 | same row count; ids and owners unchanged; non-matching rows unchanged; every matching row carries the four new values |
| TaskRows.EditedLeavesNoOldMatch | main.py:378-383 | when the title or description changes, no row matches the old key afterwards |
| TaskRows.EditedKeepsIdsIncreasing | main.py:378-383 | an edit keeps ids increasing |
| Query.Where | main.py:480-481 | a row is selected exactly when it is in the table and meets every clause |
| Query.AddClause | main.py:468-478 | one builder step appends the clause's text to the query and its values to the tuple |
| Query.BuildFilterQuery | main.py:465-478 | the query and tuple are the rendering of the enabled clauses; placeholders equal parameters; the tuple has 1, plus 2 with text, plus 1 with a priority, plus 2 with both dates |
| Query.PlaceholdersMatchParams | main.py:465-478 | any query built from clauses has as many `?` as bound parameters |
| Query.JoinPlaceholders | main.py:469-477 | SQL text made of placeholder-free pieces has one `?` between each two pieces |
| Query.WhereAppend | main.py:468-478 | adding conjuncts gives the old result filtered by the new clauses, in the same order |
| Query.WhereIsSubsequence | main.py:480-481 | a query returns table rows in storage order |
| Query.OwnedRows | main.py:311-315 | the list shows exactly the user's rows, never another user's, in storage order |
| Query.FilterWithinLoad | main.py:462-481 | the filter's result is an order-preserving part of what the list shows on load |
| Query.FilterMembership | main.py:468-478 | a row is in the filter's result exactly when it is the user's and meets each given criterion; the date range only when both dates are given |
| Query.FilterIdentity | main.py:468-478 | with empty text and priority and an incomplete date range the filter returns the load result |
| Query.FilterByPriority | main.py:472-474 | filtering by a priority alone returns exactly the user's rows of that priority, in order |
| Query.DeadlineRangeInclusive | main.py:476-478 | a deadline equal to either end of the range passes the range clause |
| Csv.Export | main.py:409-421 | the header row first, then one four-cell row per list row with an absent cell written as the empty string |
| Csv.AcceptedRows | main.py:433-446 | the rows imported are the longest prefix of four-cell rows; the next row, if any, has another width |
| Csv.NewTasksAt | main.py:443-447 | the k-th imported row becomes a task with the next ids in turn, the session user and the row's four cells |
| Csv.ExportPassesImport | main.py:411-434 | an exported file passes the import header check and all its data rows are imported |
| Csv.ExportImportRoundTrip | main.py:409-447 | exporting the shown tasks and importing the file reproduces each task's title, description, deadline and priority with fresh ids under the importing user |
| Database.DatabaseManager.constructor | main.py:34-64 | a fresh database starts with both tables empty and consistent |
| Database.DatabaseManager.AddUser | main.py:66-69 | appends the user with the next id and advances the users counter when the name is free; a taken name is rejected by the UNIQUE constraint and nothing changes |
| Database.DatabaseManager.CheckLogin | main.py:71-74 | returns the first user matching both name and password |
| Database.DatabaseManager.AddTask | main.py:76-82 | appends one row with the next id and the given fields; every other row and the users table stay |
| Database.DatabaseManager.GetUserId | main.py:84-88 | returns the first id recorded for the name, or none |
| Database.DatabaseManager.DeleteTask | main.py:90-93 | the table becomes the delete of the matching rows and stays consistent |
| Database.DatabaseManager.UpdateTasks | main.py:378-383 | the table becomes the edit of the matching rows and stays consistent |
| Database.DatabaseManager.SelectTasks | main.py:314-315 | returns the rows meeting every clause, in storage order |
| LoginDialog.Register | main.py:130-146 | an empty field or a taken name leaves the users table and its counter unchanged with that outcome; otherwise exactly one user is appended and the counter advances by one; the tasks table is untouched |
| LoginDialog.Login | main.py:119-128 | the dialog accepts exactly when some user has both that name and that password |
| LoginDialog.RegisterTwice | main.py:130-146 | registering a name twice refuses the second attempt and only the first password logs in |
| TaskManager.TaskManagerApp.constructor | main.py:208-221 | after an accepted login the session user is the name's id and the list shows that user's tasks |
| TaskManager.TaskManagerApp.ShowRows | main.py:316-320 | the list holds one row of the four shown fields per selected task, in order |
| TaskManager.TaskManagerApp.LoadTasks | main.py:311-320 | with a session user the list shows that user's rows in storage order; otherwise it is left alone |
| TaskManager.TaskManagerApp.ShowAddTaskDialog | main.py:322-338 | a task without a title is refused and the tables, counters and list stay; otherwise it is stored with the next id, the task counter advances and the list is reloaded |
| TaskManager.TaskManagerApp.AddTaskToDatabase | main.py:340-347 | appends one row with the next id for the session user and advances the task counter; without one the tables and counters stay |
| TaskManager.TaskManagerApp.EditTaskInDatabase | main.py:375-384 | rewrites the session user's matching rows; the users table and both counters stay; without a session user the tasks table stays too |
| TaskManager.TaskManagerApp.DeleteTaskFromDatabase | main.py:399-402 | removes the session user's matching rows; the users table and both counters stay; without a session user the tasks table stays too |
| TaskManager.TaskManagerApp.FilterTasks | main.py:462-486 | the list shows the rows the built query selects; without a session user it is left alone |
| TaskManager.TaskManagerApp.ExportCsv | main.py:404-421 | the file written is the export of the list as shown |
| TaskManager.TaskManagerApp.ImportCsv | main.py:423-447 | an empty file or a wrong header leaves tables, counters and list as they were; otherwise the list is cleared and the accepted rows are appended as tasks with consecutive ids, the task counter advancing by their number; a row of another width stops the import there and leaves the list empty, else the list is reloaded |

## Left out

- Presentation: the splash screen, dialogs, toolbar, themes, message boxes and file
  pickers. Their values (dialog accepted, typed fields, chosen file's rows) are
  parameters of the modelled operations.
- The `edit_task` and `delete_task` button handlers, which read the selected row's
  cells and ask for confirmation before calling the modelled database operations.
- SQLite itself: connections, cursors, commits, the duplicate `create_table` of the
  main window. Tables are sequences, and statements are functions and loops over them.
- Row order: a SELECT without ORDER BY is taken to return rows in storage order.
- Query.Holds: the text clause is a plain substring test. SQLite's LIKE folds ASCII
  case, and a `%` or `_` typed into the filter text acts as a wildcard there.
- Query.LexLe: deadlines are compared as text (SQLite's BINARY collation). The DATE
  column affinity is not modelled; ISO date strings stay text under it.
- Dates: the ISO formatting of dates by the date widgets is not modelled; deadlines
  are opaque strings.
- CSV: quoting, escaping, encoding and file I/O. A file is a sequence of rows of cells.
- Database.DatabaseManager.AddUser: inserting a taken name makes the INSERT raise
  `sqlite3.IntegrityError` (UNIQUE column), which nothing catches; the model returns
  `false` and changes nothing instead. `register` never reaches this path, because it
  looks the name up first (main.py:139-142).
- Database.DatabaseManager.constructor: models a fresh database file; an existing
  file's rows are not taken as the initial state.
- TaskManager.TaskManagerApp.ImportCsv: a raised exception is an outcome value; what
  the GUI event loop does with the uncaught exception is not modelled.
- Passwords are stored and compared in plain text, as in the source; there is no hashing.
