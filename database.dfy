/** `DatabaseManager`: the `users` and `tasks` tables of the local database, held as
    sequences in storage order, and the statements the program runs on them. Ids come
    from per-table AUTOINCREMENT counters and are never reused. */
module Database {
  import opened Records
  import opened Credentials
  import opened TaskRows
  import opened Query

  class DatabaseManager {
    var users: seq<User>
    var tasks: seq<Task>
    var nextUserId: int
    var nextTaskId: int

    /** Names are unique, and ids increase in storage order and stay below the counters. */
    ghost predicate Valid()
      reads this
    {
      UniqueNames(users)
      && (forall i, j :: 0 <= i < j < |users| ==> users[i].id < users[j].id)
      && (forall i :: 0 <= i < |users| ==> users[i].id < nextUserId)
      && IdsIncreasing(tasks)
      && (forall i :: 0 <= i < |tasks| ==> tasks[i].id < nextTaskId)
    }

    /** Opens a fresh database file: both tables are created empty. */
    constructor ()
      ensures Valid()
      ensures users == [] && tasks == []
    {
      users, tasks := [], [];
      nextUserId, nextTaskId := 1, 1;
    }

    /** `add_user`: inserts the user unless the name is taken, in which case the UNIQUE
        constraint rejects the insert (`inserted` is false) and nothing changes. */
    method AddUser(username: string, password: string) returns (inserted: bool)
      requires Valid()
      modifies this
      ensures Valid()
      ensures inserted <==> LookupId(old(users), username).None?
      ensures users == if inserted then old(users) + [User(old(nextUserId), username, password)] else old(users)
      ensures nextUserId == old(nextUserId) + (if inserted then 1 else 0)
      ensures tasks == old(tasks) && nextTaskId == old(nextTaskId)
    {
      var existing := GetUserId(username);
      inserted := existing.None?;
      if inserted {
        FreshNameKeepsUnique(users, User(nextUserId, username, password));
        users := users + [User(nextUserId, username, password)];
        nextUserId := nextUserId + 1;
      }
    }

    /** `check_login`: the first user whose name and password both equal the arguments. */
    method CheckLogin(username: string, password: string) returns (row: Option<User>)
      ensures row == FindLogin(users, username, password)
    {
      var i := |users|;
      row := None;
      while i > 0
        invariant 0 <= i <= |users|
        invariant row == FindLogin(users[i..], username, password)
      {
        i := i - 1;
        assert users[i..][1..] == users[i + 1..];
        if users[i].username == username && users[i].password == password {
          row := Some(users[i]);
        }
      }
    }

    /** `add_task`: appends one row with the next id and leaves every other row alone. */
    method AddTask(userId: int, title: string, description: string, deadline: string, priority: string)
      requires Valid()
      modifies this
      ensures Valid()
      ensures tasks == old(tasks) + [Task(old(nextTaskId), userId, title, description, deadline, priority)]
      ensures nextTaskId == old(nextTaskId) + 1
      ensures users == old(users) && nextUserId == old(nextUserId)
    {
      tasks := tasks + [Task(nextTaskId, userId, title, description, deadline, priority)];
      nextTaskId := nextTaskId + 1;
    }

    /** `get_user_id`: the id of the first user with that name, if any. */
    method GetUserId(username: string) returns (id: Option<int>)
      ensures id == LookupId(users, username)
    {
      var i := |users|;
      id := None;
      while i > 0
        invariant 0 <= i <= |users|
        invariant id == LookupId(users[i..], username)
      {
        i := i - 1;
        assert users[i..][1..] == users[i + 1..];
        if users[i].username == username {
          id := Some(users[i].id);
        }
      }
    }

    /** `delete_task`: removes every row matching title, description and owner. */
    method DeleteTask(title: string, description: string, userId: int)
      requires Valid()
      modifies this
      ensures Valid()
      ensures tasks == Deleted(old(tasks), title, description, userId)
      ensures users == old(users) && nextUserId == old(nextUserId) && nextTaskId == old(nextTaskId)
    {
      var rows := tasks;
      var kept: seq<Task> := [];
      var i := 0;
      while i < |rows|
        invariant 0 <= i <= |rows|
        invariant kept == Deleted(rows[..i], title, description, userId)
        invariant unchanged(this)
      {
        assert rows[..i + 1] == rows[..i] + [rows[i]];
        DeletedSnoc(rows[..i], rows[i], title, description, userId);
        if !Matches(rows[i], title, description, userId) {
          kept := kept + [rows[i]];
        }
        i := i + 1;
      }
      assert rows[..i] == rows;
      DeletedKeepsIds(rows, title, description, userId, nextTaskId);
      tasks := kept;
    }

    /** The UPDATE of `edit_task_in_database`, issued on the same database file: every
        matching row gets the four new values; ids, owners and other rows stay. */
    method UpdateTasks(title: string, description: string, userId: int,
                       newTitle: string, newDescription: string, newDeadline: string, newPriority: string)
      requires Valid()
      modifies this
      ensures Valid()
      ensures tasks == Edited(old(tasks), title, description, userId, newTitle, newDescription, newDeadline, newPriority)
      ensures users == old(users) && nextUserId == old(nextUserId) && nextTaskId == old(nextTaskId)
    {
      ghost var before := tasks;
      var i := 0;
      while i < |tasks|
        invariant 0 <= i <= |tasks| == |before|
        invariant forall k :: 0 <= k < i ==>
          tasks[k] == Revised(before[k], title, description, userId, newTitle, newDescription, newDeadline, newPriority)
        invariant forall k :: i <= k < |tasks| ==> tasks[k] == before[k]
        invariant users == old(users) && nextUserId == old(nextUserId) && nextTaskId == old(nextTaskId)
      {
        if Matches(tasks[i], title, description, userId) {
          tasks := tasks[i := tasks[i].(title := newTitle, description := newDescription,
                                         deadline := newDeadline, priority := newPriority)];
        }
        i := i + 1;
      }
      EditedKeepsIdsIncreasing(before, title, description, userId, newTitle, newDescription, newDeadline, newPriority);
    }

    /** A SELECT of the task columns with the given WHERE clauses: the rows satisfying all
        of them, in storage order. */
    method SelectTasks(clauses: seq<Clause>) returns (rows: seq<Task>)
      ensures rows == Where(tasks, clauses)
    {
      rows := [];
      var i := 0;
      while i < |tasks|
        invariant 0 <= i <= |tasks|
        invariant rows == Where(tasks[..i], clauses)
      {
        assert tasks[..i + 1][..i] == tasks[..i];
        if AllHold(clauses, tasks[i]) {
          rows := rows + [tasks[i]];
        }
        i := i + 1;
      }
      assert tasks[..i] == tasks;
    }
  }
}
