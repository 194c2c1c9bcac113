/** Rows of the two tables of the task manager's local database (`tasks.db`). */
module Records {

  datatype Option<T> = None | Some(value: T)

  /** A row of `users`: surrogate id, unique user name and the password compared verbatim. */
  datatype User = User(id: int, username: string, password: string)

  /** A row of `tasks`. The deadline is an ISO-8601 date string and the priority is the
      label chosen in the form; neither is validated by the store. */
  datatype Task = Task(
    id: int,
    userId: int,
    title: string,
    description: string,
    deadline: string,
    priority: string)
}
