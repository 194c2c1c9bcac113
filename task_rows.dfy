/** What the content-matched DELETE and UPDATE statements do to the `tasks` table, and
    the order facts (subsequences, increasing ids) the other operations rely on. */
module TaskRows {
  import opened Records

  /** The WHERE clause shared by delete and edit: `title=? AND description=? AND user_id=?`. */
  predicate Matches(t: Task, title: string, description: string, userId: int) {
    t.title == title && t.description == description && t.userId == userId
  }

  /** `a` is `b` with some rows left out and the rest kept in order. */
  ghost predicate IsSubsequence<T>(a: seq<T>, b: seq<T>)
    decreases |b|
  {
    if a == [] then true
    else if b == [] then false
    else
      (a[|a| - 1] == b[|b| - 1] && IsSubsequence(a[..|a| - 1], b[..|b| - 1]))
      || IsSubsequence(a, b[..|b| - 1])
  }

  /** Ids strictly increase in storage order, so they are pairwise distinct. */
  ghost predicate IdsIncreasing(tasks: seq<Task>) {
    forall i, j :: 0 <= i < j < |tasks| ==> tasks[i].id < tasks[j].id
  }

  /** `DELETE FROM tasks WHERE title=? AND description=? AND user_id=?`: the table with
      every matching row removed, whether there are none, one or several. */
  function Deleted(tasks: seq<Task>, title: string, description: string, userId: int): (r: seq<Task>)
    ensures forall t :: t in r <==> t in tasks && !Matches(t, title, description, userId)
    ensures |r| <= |tasks|
  {
    if tasks == [] then []
    else
      var last := tasks[|tasks| - 1];
      assert tasks == tasks[..|tasks| - 1] + [last];
      Deleted(tasks[..|tasks| - 1], title, description, userId)
        + (if Matches(last, title, description, userId) then [] else [last])
  }

  /** The SET part of the UPDATE: a matching row gets the four new field values. */
  function Revised(t: Task, title: string, description: string, userId: int,
                   newTitle: string, newDescription: string, newDeadline: string, newPriority: string): Task
  {
    if Matches(t, title, description, userId)
    then t.(title := newTitle, description := newDescription, deadline := newDeadline, priority := newPriority)
    else t
  }

  /** `UPDATE tasks SET title=?, description=?, deadline=?, priority=? WHERE title=? AND
      description=? AND user_id=?` applied to the whole table. */
  function Edited(tasks: seq<Task>, title: string, description: string, userId: int,
                  newTitle: string, newDescription: string, newDeadline: string, newPriority: string): (r: seq<Task>)
    ensures |r| == |tasks|
    ensures forall i :: 0 <= i < |tasks| ==> r[i].id == tasks[i].id && r[i].userId == tasks[i].userId
    ensures forall i :: 0 <= i < |tasks| && !Matches(tasks[i], title, description, userId) ==> r[i] == tasks[i]
    ensures forall i :: 0 <= i < |tasks| && Matches(tasks[i], title, description, userId) ==>
      r[i].title == newTitle && r[i].description == newDescription
      && r[i].deadline == newDeadline && r[i].priority == newPriority
  {
    seq(|tasks|, i requires 0 <= i < |tasks| =>
      Revised(tasks[i], title, description, userId, newTitle, newDescription, newDeadline, newPriority))
  }

  /** Delete scans the table row by row. */
  lemma DeletedSnoc(front: seq<Task>, x: Task, title: string, description: string, userId: int)
    ensures Deleted(front + [x], title, description, userId)
      == Deleted(front, title, description, userId) + (if Matches(x, title, description, userId) then [] else [x])
  {
    assert (front + [x])[..|front|] == front;
  }

  /** A subsequence only holds rows of the sequence it was taken from. */
  lemma {:induction false} SubsequenceMembers<T>(a: seq<T>, b: seq<T>)
    requires IsSubsequence(a, b)
    ensures forall x :: x in a ==> x in b
    decreases |b|
  {
    if a != [] {
      var b' := b[..|b| - 1];
      assert b == b' + [b[|b| - 1]];
      if a[|a| - 1] == b[|b| - 1] && IsSubsequence(a[..|a| - 1], b') {
        SubsequenceMembers(a[..|a| - 1], b');
        assert a == a[..|a| - 1] + [a[|a| - 1]];
      } else {
        SubsequenceMembers(a, b');
      }
    }
  }

  /** Leaving rows out of a table whose ids increase leaves ids increasing. */
  lemma {:induction false} SubsequenceKeepsIdsIncreasing(a: seq<Task>, b: seq<Task>)
    requires IsSubsequence(a, b) && IdsIncreasing(b)
    ensures IdsIncreasing(a)
    decreases |b|
  {
    if a != [] {
      var a', b' := a[..|a| - 1], b[..|b| - 1];
      assert IdsIncreasing(b');
      if a[|a| - 1] == b[|b| - 1] && IsSubsequence(a', b') {
        SubsequenceKeepsIdsIncreasing(a', b');
        SubsequenceMembers(a', b');
        forall i, j | 0 <= i < j < |a| ensures a[i].id < a[j].id {
          if j == |a| - 1 {
            assert a[i] == a'[i] && a'[i] in b';
            var k :| 0 <= k < |b'| && b'[k] == a[i];
          }
        }
      } else {
        SubsequenceKeepsIdsIncreasing(a, b');
      }
    }
  }

  /** A row added at the end of both sides keeps the subsequence relation. */
  lemma SubsequenceSnoc<T>(a: seq<T>, b: seq<T>, x: T)
    requires IsSubsequence(a, b)
    ensures IsSubsequence(a + [x], b + [x]) && IsSubsequence(a, b + [x])
  {
    assert (a + [x])[..|a|] == a;
    assert (b + [x])[..|b|] == b;
  }

  /** Delete keeps every other row in its original order. */
  lemma {:induction false} DeletedIsSubsequence(tasks: seq<Task>, title: string, description: string, userId: int)
    ensures IsSubsequence(Deleted(tasks, title, description, userId), tasks)
  {
    if tasks == [] {
    } else {
      var front, last := tasks[..|tasks| - 1], tasks[|tasks| - 1];
      var kept := Deleted(front, title, description, userId);
      assert Deleted(tasks, title, description, userId)
        == kept + (if Matches(last, title, description, userId) then [] else [last]);
      assert tasks == front + [last];
      DeletedIsSubsequence(front, title, description, userId);
      SubsequenceSnoc(kept, front, last);
      if Matches(last, title, description, userId) {
        assert kept + [] == kept;
      }
    }
  }

  /** Delete keeps ids increasing and below the table's counter. */
  lemma DeletedKeepsIds(tasks: seq<Task>, title: string, description: string, userId: int, nextId: int)
    requires IdsIncreasing(tasks) && forall i :: 0 <= i < |tasks| ==> tasks[i].id < nextId
    ensures var r := Deleted(tasks, title, description, userId);
      IdsIncreasing(r) && forall i :: 0 <= i < |r| ==> r[i].id < nextId
  {
    var r := Deleted(tasks, title, description, userId);
    DeletedIsSubsequence(tasks, title, description, userId);
    SubsequenceKeepsIdsIncreasing(r, tasks);
    forall i | 0 <= i < |r| ensures r[i].id < nextId {
      assert r[i] in tasks;
    }
  }

  /** Number of rows matching the content key. */
  function CountMatching(tasks: seq<Task>, title: string, description: string, userId: int): nat {
    if tasks == [] then 0
    else
      CountMatching(tasks[..|tasks| - 1], title, description, userId)
      + (if Matches(tasks[|tasks| - 1], title, description, userId) then 1 else 0)
  }

  /** Delete counts: the rows removed are exactly the matching ones. */
  lemma {:induction false} DeletedCount(tasks: seq<Task>, title: string, description: string, userId: int)
    ensures |Deleted(tasks, title, description, userId)| + CountMatching(tasks, title, description, userId) == |tasks|
  {
    if tasks != [] {
      DeletedCount(tasks[..|tasks| - 1], title, description, userId);
    }
  }

  /** An edit that changes the title or the description leaves no row matching the old key. */
  lemma EditedLeavesNoOldMatch(tasks: seq<Task>, title: string, description: string, userId: int,
                               newTitle: string, newDescription: string, newDeadline: string, newPriority: string)
    requires newTitle != title || newDescription != description
    ensures forall t ::
      t in Edited(tasks, title, description, userId, newTitle, newDescription, newDeadline, newPriority)
      ==> !Matches(t, title, description, userId)
  {
  }

  /** Edit keeps ids as they were, so an increasing id order survives it. */
  lemma EditedKeepsIdsIncreasing(tasks: seq<Task>, title: string, description: string, userId: int,
                                 newTitle: string, newDescription: string, newDeadline: string, newPriority: string)
    requires IdsIncreasing(tasks)
    ensures IdsIncreasing(Edited(tasks, title, description, userId, newTitle, newDescription, newDeadline, newPriority))
  {
  }
}
