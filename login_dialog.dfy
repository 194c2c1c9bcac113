/** The decisions of the login window's two buttons. */
module LoginDialog {
  import opened Records
  import opened Credentials
  import opened Database

  datatype RegisterOutcome =
    | MissingField       // "enter a user name and a password"
    | NameTaken          // "a user with this name is already registered"
    | Registered

  /** `register`: an empty name or password is refused, so is a name `get_user_id` already
      finds; otherwise the user is added and the dialog accepts. */
  method Register(db: DatabaseManager, username: string, password: string) returns (r: RegisterOutcome)
    requires db.Valid()
    modifies db
    ensures db.Valid()
    ensures r == MissingField <==> username == "" || password == ""
    ensures r == NameTaken <==> username != "" && password != "" && LookupId(old(db.users), username).Some?
    ensures db.users == if r == Registered then old(db.users) + [User(old(db.nextUserId), username, password)]
                        else old(db.users)
    ensures db.nextUserId == old(db.nextUserId) + (if r == Registered then 1 else 0)
    ensures db.tasks == old(db.tasks) && db.nextTaskId == old(db.nextTaskId)
  {
    if username == "" || password == "" {
      return MissingField;
    }
    var existing := db.GetUserId(username);
    if existing.Some? {
      return NameTaken;
    }
    var inserted := db.AddUser(username, password);
    r := Registered;
  }

  /** `login`: the dialog accepts exactly when `check_login` finds a record. */
  method Login(db: DatabaseManager, username: string, password: string) returns (accepted: bool)
    ensures accepted <==> exists u :: u in db.users && u.username == username && u.password == password
  {
    var row := db.CheckLogin(username, password);
    accepted := row.Some?;
  }

  /** Registering a fresh name twice: the second attempt is refused and the first
      password stays the only one that logs in. */
  method RegisterTwice(db: DatabaseManager, username: string, password: string, otherPassword: string)
    returns (first: RegisterOutcome, second: RegisterOutcome, withFirst: bool, withOther: bool)
    requires db.Valid()
    requires username != "" && password != "" && otherPassword != ""
    requires LookupId(db.users, username).None?
    modifies db
    ensures first == Registered && second == NameTaken
    ensures withFirst
    ensures withOther <==> otherPassword == password
  {
    ghost var before := db.users;
    first := Register(db, username, password);
    second := Register(db, username, otherPassword);
    RegisteredLogin(before, db.users[|before|].id, username, password, password);
    RegisteredLogin(before, db.users[|before|].id, username, password, otherPassword);
    withFirst := Login(db, username, password);
    withOther := Login(db, username, otherPassword);
  }
}
