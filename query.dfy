/** The filter query of the task list: the clauses it is made of, the SQL text and
    parameter tuple built from them, and which rows the query selects. */
module Query {
  import opened Records
  import opened TaskRows

  /** A bound parameter of a `?` placeholder. */
  datatype Param = IntParam(n: int) | TextParam(s: string)

  /** One conjunct of the WHERE clause. */
  datatype Clause =
    | UserIs(userId: int)                          // user_id=?
    | TextLike(text: string)                       // (title LIKE ? OR description LIKE ?)
    | PriorityIs(priority: string)                 // priority=?
    | DeadlineBetween(start: string, end: string)  // deadline BETWEEN ? AND ?

  /** `sub` occurs as a contiguous part of `s`. */
  predicate Contains(s: string, sub: string) {
    sub <= s || (s != [] && Contains(s[1..], sub))
  }

  /** SQLite's BINARY text comparison `a <= b`: lexicographic order on characters, a
      proper prefix coming first. */
  predicate LexLe(a: string, b: string) {
    a == [] || (b != [] && (a[0] < b[0] || (a[0] == b[0] && LexLe(a[1..], b[1..]))))
  }

  /** Number of `?` placeholders in a piece of SQL. */
  function Placeholders(s: string): nat {
    if s == [] then 0 else (if s[0] == '?' then 1 else 0) + Placeholders(s[1..])
  }

  /** SQL text written as the runs of characters between its placeholders. */
  function Join(pieces: seq<string>): string
    requires pieces != []
  {
    if |pieces| == 1 then pieces[0] else pieces[0] + "?" + Join(pieces[1..])
  }

  function Pieces(c: Clause): seq<string> {
    match c
    case UserIs(_) => ["user_id=", ""]
    case TextLike(_) => [" AND (title LIKE ", " OR description LIKE ", ")"]
    case PriorityIs(_) => [" AND priority=", ""]
    case DeadlineBetween(_, _) => [" AND deadline BETWEEN ", " AND ", ""]
  }

  /** The text a clause appends to the query. */
  function Sql(c: Clause): string {
    Join(Pieces(c))
  }

  /** The parameters a clause appends to the tuple; a text search is bound as `%text%`. */
  function Params(c: Clause): seq<Param> {
    match c
    case UserIs(u) => [IntParam(u)]
    case TextLike(s) => [TextParam("%" + s + "%"), TextParam("%" + s + "%")]
    case PriorityIs(p) => [TextParam(p)]
    case DeadlineBetween(a, b) => [TextParam(a), TextParam(b)]
  }

  const SelectPrefix: string := "SELECT id, title, description, deadline, " + "priority FROM tasks WHERE "

  function SqlOf(cs: seq<Clause>): string {
    if cs == [] then "" else SqlOf(cs[..|cs| - 1]) + Sql(cs[|cs| - 1])
  }

  /** The whole query text for a list of clauses. */
  function Render(cs: seq<Clause>): string {
    SelectPrefix + SqlOf(cs)
  }

  /** The whole parameter tuple for a list of clauses. */
  function ParamsOf(cs: seq<Clause>): seq<Param> {
    if cs == [] then [] else ParamsOf(cs[..|cs| - 1]) + Params(cs[|cs| - 1])
  }

  /** What a clause means for one row. The text search is a plain substring test. */
  predicate Holds(c: Clause, t: Task) {
    match c
    case UserIs(u) => t.userId == u
    case TextLike(s) => Contains(t.title, s) || Contains(t.description, s)
    case PriorityIs(p) => t.priority == p
    case DeadlineBetween(a, b) => LexLe(a, t.deadline) && LexLe(t.deadline, b)
  }

  predicate AllHold(cs: seq<Clause>, t: Task) {
    forall i :: 0 <= i < |cs| ==> Holds(cs[i], t)
  }

  /** The rows a query with these clauses returns, in storage order. */
  function Where(tasks: seq<Task>, cs: seq<Clause>): (r: seq<Task>)
    ensures forall t :: t in r <==> t in tasks && AllHold(cs, t)
  {
    if tasks == [] then []
    else
      var last := tasks[|tasks| - 1];
      assert tasks == tasks[..|tasks| - 1] + [last];
      Where(tasks[..|tasks| - 1], cs) + (if AllHold(cs, last) then [last] else [])
  }

  /** The clauses `filter_tasks` enables: the user's rows, then each non-empty criterion;
      the date range only when both ends are given. */
  function FilterClauses(userId: int, text: string, priority: string, start: string, end: string): seq<Clause> {
    [UserIs(userId)]
    + (if text != "" then [TextLike(text)] else [])
    + (if priority != "" then [PriorityIs(priority)] else [])
    + (if start != "" && end != "" then [DeadlineBetween(start, end)] else [])
  }

  /** The query and parameters of `filter_tasks`, grown clause by clause as the source does. */
  method BuildFilterQuery(userId: int, text: string, priority: string, start: string, end: string)
    returns (query: string, params: seq<Param>, clauses: seq<Clause>)
    ensures clauses == FilterClauses(userId, text, priority, start, end)
    ensures query == Render(clauses) && params == ParamsOf(clauses)
    ensures Placeholders(query) == |params|
    ensures |params| == 1 + (if text != "" then 2 else 0) + (if priority != "" then 1 else 0)
                          + (if start != "" && end != "" then 2 else 0)
  {
    query, params, clauses := AddClause(SelectPrefix, [], [], UserIs(userId));
    if text != "" {
      query, params, clauses := AddClause(query, params, clauses, TextLike(text));
    }
    if priority != "" {
      query, params, clauses := AddClause(query, params, clauses, PriorityIs(priority));
    }
    if start != "" && end != "" {
      query, params, clauses := AddClause(query, params, clauses, DeadlineBetween(start, end));
    }
    PlaceholdersMatchParams(clauses);
  }

  /** One `query += ...; params += ...` step of the builder. */
  method AddClause(query: string, params: seq<Param>, clauses: seq<Clause>, c: Clause)
    returns (query': string, params': seq<Param>, clauses': seq<Clause>)
    requires query == Render(clauses) && params == ParamsOf(clauses)
    ensures clauses' == clauses + [c]
    ensures query' == Render(clauses') && params' == ParamsOf(clauses')
    ensures |params'| == |params| + |Params(c)|
  {
    Extend(clauses, c);
    query', params', clauses' := query + Sql(c), params + Params(c), clauses + [c];
  }

  /** Appending a clause appends its text to the query and its values to the tuple. */
  lemma Extend(cs: seq<Clause>, c: Clause)
    ensures Render(cs + [c]) == Render(cs) + Sql(c)
    ensures ParamsOf(cs + [c]) == ParamsOf(cs) + Params(c)
  {
    assert (cs + [c])[..|cs|] == cs;
  }

  lemma {:induction false} PlaceholdersAppend(a: string, b: string)
    ensures Placeholders(a + b) == Placeholders(a) + Placeholders(b)
  {
    if a == [] {
      assert a + b == b;
    } else {
      assert (a + b)[1..] == a[1..] + b;
      PlaceholdersAppend(a[1..], b);
    }
  }

  lemma {:induction false} NoPlaceholders(s: string)
    requires '?' !in s
    ensures Placeholders(s) == 0
  {
    if s != [] {
      NoPlaceholders(s[1..]);
    }
  }

  /** Text glued from placeholder-free pieces has one placeholder between each two pieces. */
  lemma {:induction false} JoinPlaceholders(pieces: seq<string>)
    requires pieces != []
    requires forall k :: 0 <= k < |pieces| ==> '?' !in pieces[k]
    ensures Placeholders(Join(pieces)) == |pieces| - 1
  {
    NoPlaceholders(pieces[0]);
    if |pieces| > 1 {
      JoinPlaceholders(pieces[1..]);
      assert Placeholders("?") == 1 by {
        assert "?"[1..] == [];
      }
      PlaceholdersAppend(pieces[0], "?");
      PlaceholdersAppend(pieces[0] + "?", Join(pieces[1..]));
    }
  }

  lemma ClausePlaceholders(c: Clause)
    ensures Placeholders(Sql(c)) == |Params(c)|
  {
    JoinPlaceholders(Pieces(c));
  }

  lemma {:induction false} SqlPlaceholders(cs: seq<Clause>)
    ensures Placeholders(SqlOf(cs)) == |ParamsOf(cs)|
  {
    if cs == [] {
      assert Placeholders("") == 0;
    } else {
      var front, c := cs[..|cs| - 1], cs[|cs| - 1];
      SqlPlaceholders(front);
      ClausePlaceholders(c);
      PlaceholdersAppend(SqlOf(front), Sql(c));
    }
  }

  lemma SelectHasNoPlaceholders()
    ensures Placeholders(SelectPrefix) == 0
  {
    NoPlaceholders(SelectPrefix);
  }

  /** Every query built from clauses has as many placeholders as bound parameters. */
  lemma PlaceholdersMatchParams(cs: seq<Clause>)
    ensures Placeholders(Render(cs)) == |ParamsOf(cs)|
  {
    SelectHasNoPlaceholders();
    SqlPlaceholders(cs);
    PlaceholdersAppend(SelectPrefix, SqlOf(cs));
  }

  lemma AllHoldAppend(cs: seq<Clause>, ds: seq<Clause>, t: Task)
    ensures AllHold(cs + ds, t) <==> AllHold(cs, t) && AllHold(ds, t)
  {
    if AllHold(cs, t) && AllHold(ds, t) {
      forall i | 0 <= i < |cs + ds| ensures Holds((cs + ds)[i], t) {
        if i >= |cs| { assert (cs + ds)[i] == ds[i - |cs|]; }
      }
    }
    if AllHold(cs + ds, t) {
      forall i | 0 <= i < |cs| ensures Holds(cs[i], t) {
        assert (cs + ds)[i] == cs[i];
      }
      forall i | 0 <= i < |ds| ensures Holds(ds[i], t) {
        assert (cs + ds)[|cs| + i] == ds[i];
      }
    }
  }

  /** A query scans the table row by row. */
  lemma WhereSnoc(front: seq<Task>, x: Task, cs: seq<Clause>)
    ensures Where(front + [x], cs) == Where(front, cs) + (if AllHold(cs, x) then [x] else [])
  {
    assert (front + [x])[..|front|] == front;
  }

  /** Adding conjuncts to a query narrows it: the new result is the old result filtered
      by the added clauses, in the same order. */
  lemma {:induction false} WhereAppend(tasks: seq<Task>, cs: seq<Clause>, ds: seq<Clause>)
    ensures Where(tasks, cs + ds) == Where(Where(tasks, cs), ds)
  {
    if tasks != [] {
      var front, last := tasks[..|tasks| - 1], tasks[|tasks| - 1];
      assert tasks == front + [last];
      WhereSnoc(front, last, cs + ds);
      WhereSnoc(front, last, cs);
      WhereAppend(front, cs, ds);
      AllHoldAppend(cs, ds, last);
      var w := Where(front, cs);
      WhereSnoc(w, last, ds);
      if AllHold(cs, last) {
        assert (w + [last])[..|w|] == w;
      } else {
        assert w + [] == w;
      }
    }
  }

  /** A query returns rows of the table in storage order. */
  lemma {:induction false} WhereIsSubsequence(tasks: seq<Task>, cs: seq<Clause>)
    ensures IsSubsequence(Where(tasks, cs), tasks)
  {
    if tasks != [] {
      var front, last := tasks[..|tasks| - 1], tasks[|tasks| - 1];
      assert tasks == front + [last];
      WhereSnoc(front, last, cs);
      WhereIsSubsequence(front, cs);
      var w := Where(front, cs);
      SubsequenceSnoc(w, front, last);
      if !AllHold(cs, last) {
        assert w + [] == w;
      }
    }
  }

  /** The rows `load_tasks` shows: the current user's, in storage order. */
  function Owned(tasks: seq<Task>, userId: int): seq<Task> {
    Where(tasks, [UserIs(userId)])
  }

  /** `load_tasks` shows exactly the user's rows and never another user's. */
  lemma OwnedRows(tasks: seq<Task>, userId: int)
    ensures forall t :: t in Owned(tasks, userId) <==> t in tasks && t.userId == userId
    ensures IsSubsequence(Owned(tasks, userId), tasks)
  {
    WhereIsSubsequence(tasks, [UserIs(userId)]);
    forall t ensures AllHold([UserIs(userId)], t) <==> t.userId == userId {
      assert [UserIs(userId)][0] == UserIs(userId);
    }
  }

  /** `filter_tasks` returns, in storage order, a part of what `load_tasks` shows. */
  lemma FilterWithinLoad(tasks: seq<Task>, userId: int, text: string, priority: string, start: string, end: string)
    ensures IsSubsequence(Where(tasks, FilterClauses(userId, text, priority, start, end)), Owned(tasks, userId))
  {
    var cs := FilterClauses(userId, text, priority, start, end);
    assert cs == [UserIs(userId)] + cs[1..];
    WhereAppend(tasks, [UserIs(userId)], cs[1..]);
    WhereIsSubsequence(Owned(tasks, userId), cs[1..]);
  }

  /** A row is in the filter's result exactly when it is the user's and meets every
      criterion that was given. */
  lemma FilterMembership(tasks: seq<Task>, userId: int, text: string, priority: string, start: string, end: string, t: Task)
    ensures t in Where(tasks, FilterClauses(userId, text, priority, start, end)) <==>
      t in tasks && t.userId == userId
      && (text != "" ==> Contains(t.title, text) || Contains(t.description, text))
      && (priority != "" ==> t.priority == priority)
      && (start != "" && end != "" ==> LexLe(start, t.deadline) && LexLe(t.deadline, end))
  {
    var cs := FilterClauses(userId, text, priority, start, end);
    var a := [UserIs(userId)];
    var b := if text != "" then [TextLike(text)] else [];
    var c := if priority != "" then [PriorityIs(priority)] else [];
    var d := if start != "" && end != "" then [DeadlineBetween(start, end)] else [];
    assert cs == a + b + c + d;
    AllHoldAppend(a + b + c, d, t);
    AllHoldAppend(a + b, c, t);
    AllHoldAppend(a, b, t);
    assert AllHold(a, t) <==> Holds(a[0], t);
    assert b != [] ==> (AllHold(b, t) <==> Holds(b[0], t));
    assert c != [] ==> (AllHold(c, t) <==> Holds(c[0], t));
    assert d != [] ==> (AllHold(d, t) <==> Holds(d[0], t));
  }

  /** With no text, no priority and no complete date range, the filter is `load_tasks`. */
  lemma FilterIdentity(tasks: seq<Task>, userId: int, start: string, end: string)
    requires start == "" || end == ""
    ensures Where(tasks, FilterClauses(userId, "", "", start, end)) == Owned(tasks, userId)
  {
    assert FilterClauses(userId, "", "", start, end) == [UserIs(userId)];
  }

  /** Filtering by priority alone returns exactly the user's rows of that priority, in
      storage order. */
  lemma FilterByPriority(tasks: seq<Task>, userId: int, priority: string)
    requires priority != ""
    ensures Where(tasks, FilterClauses(userId, "", priority, "", "")) == Where(Owned(tasks, userId), [PriorityIs(priority)])
  {
    assert FilterClauses(userId, "", priority, "", "") == [UserIs(userId)] + [PriorityIs(priority)];
    WhereAppend(tasks, [UserIs(userId)], [PriorityIs(priority)]);
  }

  lemma {:induction false} LexLeReflexive(s: string)
    ensures LexLe(s, s)
  {
    if s != [] {
      LexLeReflexive(s[1..]);
    }
  }

  /** The date range includes both of its ends. */
  lemma DeadlineRangeInclusive(t: Task, start: string, end: string)
    requires LexLe(start, end)
    requires t.deadline == start || t.deadline == end
    ensures Holds(DeadlineBetween(start, end), t)
  {
    LexLeReflexive(t.deadline);
  }
}
