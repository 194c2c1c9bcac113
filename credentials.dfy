/** What the `users` table answers: look-up by name, exact login match, and the
    uniqueness of user names that the UNIQUE column constraint keeps. */
module Credentials {
  import opened Records

  /** No two rows share a user name (`username TEXT UNIQUE`). */
  ghost predicate UniqueNames(users: seq<User>) {
    forall i, j :: 0 <= i < j < |users| ==> users[i].username != users[j].username
  }

  /** `SELECT id FROM users WHERE username=?`, first row: the id of the first user so named. */
  function LookupId(users: seq<User>, username: string): (r: Option<int>)
    ensures r.None? <==> forall u :: u in users ==> u.username != username
    ensures r.Some? ==> exists u :: u in users && u.username == username && u.id == r.value
  {
    if users == [] then None
    else if users[0].username == username then Some(users[0].id)
    else LookupId(users[1..], username)
  }

  /** `SELECT * FROM users WHERE username=? AND password=?`, first row: a record only when
      both fields are equal, character for character, to a stored user's. */
  function FindLogin(users: seq<User>, username: string, password: string): (r: Option<User>)
    ensures r.Some? ==> r.value in users && r.value.username == username && r.value.password == password
    ensures r.None? ==> forall u :: u in users ==> u.username != username || u.password != password
  {
    if users == [] then None
    else if users[0].username == username && users[0].password == password then Some(users[0])
    else FindLogin(users[1..], username, password)
  }

  /** A login query over a table with one more row at the end answers as before unless
      only the new row matches. */
  lemma {:induction false} FindLoginAppend(users: seq<User>, x: User, username: string, password: string)
    ensures FindLogin(users + [x], username, password) ==
      if FindLogin(users, username, password).Some? then FindLogin(users, username, password)
      else if x.username == username && x.password == password then Some(x)
      else None
  {
    if users == [] {
      assert users + [x] == [x];
    } else {
      assert (users + [x])[1..] == users[1..] + [x];
      FindLoginAppend(users[1..], x, username, password);
    }
  }

  /** After registering a fresh name with password p, logging in with that name succeeds
      with exactly password p and fails with every other password. */
  lemma RegisteredLogin(users: seq<User>, id: int, username: string, password: string, attempt: string)
    requires LookupId(users, username).None?
    ensures FindLogin(users + [User(id, username, password)], username, attempt) ==
      if attempt == password then Some(User(id, username, password)) else None
  {
    FindLoginAppend(users, User(id, username, password), username, attempt);
  }

  /** Appending a user whose name is not yet taken keeps names unique. */
  lemma FreshNameKeepsUnique(users: seq<User>, x: User)
    requires UniqueNames(users)
    requires LookupId(users, x.username).None?
    ensures UniqueNames(users + [x])
  {
    forall i, j | 0 <= i < j < |users| + 1
      ensures (users + [x])[i].username != (users + [x])[j].username
    {
      if j == |users| {
        assert users[i] in users;
      }
    }
  }
}
