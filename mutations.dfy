/**
 * The three statements that change the `tasks` table: the INSERT of POST /add,
 * the UPDATE of POST /complete/:id and the DELETE of GET /delete/:id, as
 * functions from the old table to the new one, and what they preserve.
 */
module Mutations {
  import opened Wrappers
  import opened Records
  import opened Visibility

  /** `completed_at` is non-NULL exactly when `is_completed` holds. */
  predicate Consistent(r: Row) {
    r.completedAt.Some? <==> r.isCompleted
  }

  /**
   * The table invariant: ids are unique (strictly increasing in table order,
   * as auto-increment keys are), every id is below the next one to be
   * assigned, and every row is consistent.
   */
  ghost predicate WellFormed(rows: seq<Row>, nextId: nat) {
    && (forall i, j :: 0 <= i < j < |rows| ==> rows[i].id < rows[j].id)
    && (forall i :: 0 <= i < |rows| ==> rows[i].id < nextId)
    && (forall i :: 0 <= i < |rows| ==> Consistent(rows[i]))
  }

  /** Every user other than `user` owns the same rows, in the same order, after as before. */
  ghost predicate OthersUnchanged(before: seq<Row>, after: seq<Row>, user: nat) {
    forall other :: other != user ==> OwnedBy(after, other) == OwnedBy(before, other)
  }

  /**
   * The row `INSERT INTO tasks (task, user_id) VALUES (?, ?)` creates, with the
   * column defaults the schema is assumed to give: not completed, NULL
   * completion time, created now, and the next auto-increment id.
   */
  function NewTask(id: nat, text: string, user: nat, now: int): (r: Row)
    ensures r.id == id && r.task == text && r.userId == user && r.createdAt == now
    ensures !r.isCompleted && Consistent(r)
    ensures forall t :: Shown(r, t)
  {
    Row(id, text, user, false, now, None)
  }

  /** The `WHERE id = ? AND user_id = ?` filter. */
  predicate Targets(r: Row, id: int, user: nat) {
    r.id == id && r.userId == user
  }

  /** `SET is_completed = ?, completed_at = ?` on one row. */
  function Completed(r: Row, done: bool, now: int): (c: Row)
    ensures c.isCompleted == done && Consistent(c)
    ensures c.completedAt.Some? ==> c.completedAt.value == now
    ensures c.(isCompleted := r.isCompleted, completedAt := r.completedAt) == r
  {
    r.(isCompleted := done, completedAt := if done then Some(now) else None)
  }

  /** `UPDATE tasks SET is_completed = done, completed_at = ... WHERE id = ? AND user_id = ?`. */
  function SetCompletion(rows: seq<Row>, id: int, user: nat, done: bool, now: int): (r: seq<Row>)
    ensures |r| == |rows|
    ensures forall i :: 0 <= i < |r| ==>
      && r[i].id == rows[i].id && r[i].userId == rows[i].userId
      && r[i].task == rows[i].task && r[i].createdAt == rows[i].createdAt
  {
    if rows == [] then []
    else
      var head := if Targets(rows[0], id, user) then Completed(rows[0], done, now) else rows[0];
      [head] + SetCompletion(rows[1..], id, user, done, now)
  }

  /** `DELETE FROM tasks WHERE id = ? AND user_id = ?`. */
  function RemoveOwned(rows: seq<Row>, id: int, user: nat): (r: seq<Row>)
    ensures |r| <= |rows|
    ensures forall x :: x in r ==> x in rows && !Targets(x, id, user)
  {
    if rows == [] then []
    else if Targets(rows[0], id, user) then RemoveOwned(rows[1..], id, user)
    else [rows[0]] + RemoveOwned(rows[1..], id, user)
  }

  // ----- INSERT -----

  /** A new task is incomplete, owned by its creator, and keeps the invariant. */
  lemma AddWellFormed(rows: seq<Row>, nextId: nat, text: string, user: nat, now: int)
    requires WellFormed(rows, nextId)
    ensures WellFormed(rows + [NewTask(nextId, text, user, now)], nextId + 1)
  {
  }

  /** Adding a task for `user` leaves the rows of every other user as they were. */
  lemma AddKeepsOthers(rows: seq<Row>, nextId: nat, text: string, user: nat, now: int, other: nat)
    requires other != user
    ensures OwnedBy(rows + [NewTask(nextId, text, user, now)], other) == OwnedBy(rows, other)
  {
    var r := NewTask(nextId, text, user, now);
    OwnedByAppend(rows, [r], other);
    assert OwnedBy([r], other) == [];
  }

  /** A task just added is listed for its owner at every later (or earlier) time. */
  lemma AddedTaskListed(rows: seq<Row>, nextId: nat, text: string, user: nat, now: int, later: int)
    ensures NewTask(nextId, text, user, now) in Visible(rows + [NewTask(nextId, text, user, now)], user, later)
  {
    var r := NewTask(nextId, text, user, now);
    IncompleteAlwaysVisible(rows + [r], user, later, r);
  }

  /**
   * Create-then-list: for a user with no tasks, the list after adding one task
   * is exactly that task, incomplete and without a completion time.
   */
  lemma AddThenList(rows: seq<Row>, nextId: nat, text: string, user: nat, now: int, later: int)
    requires OwnedBy(rows, user) == []
    ensures Visible(rows + [NewTask(nextId, text, user, now)], user, later) == [NewTask(nextId, text, user, now)]
  {
    var r := NewTask(nextId, text, user, now);
    OwnedByAppend(rows, [r], user);
    assert OwnedBy([r], user) == [r];
    VisibleDependsOnlyOnOwnRows(rows + [r], [r], user, later);
    assert Select([r], user, later) == [r];
  }

  // ----- UPDATE -----

  /** The update touches exactly the rows matching both id and owner, and nothing else. */
  lemma {:induction false} SetCompletionAt(rows: seq<Row>, id: int, user: nat, done: bool, now: int)
    ensures |SetCompletion(rows, id, user, done, now)| == |rows|
    ensures forall i :: 0 <= i < |rows| ==>
      SetCompletion(rows, id, user, done, now)[i] ==
        if Targets(rows[i], id, user) then Completed(rows[i], done, now) else rows[i]
  {
    if rows != [] {
      SetCompletionAt(rows[1..], id, user, done, now);
    }
  }

  /** The matched row ends with `is_completed = done` and a completion time exactly when `done`, set to `now`. */
  lemma SetCompletionResult(rows: seq<Row>, id: int, user: nat, done: bool, now: int, i: nat)
    requires i < |rows| && Targets(rows[i], id, user)
    ensures i < |SetCompletion(rows, id, user, done, now)|
    ensures SetCompletion(rows, id, user, done, now)[i].isCompleted == done
    ensures SetCompletion(rows, id, user, done, now)[i].completedAt == (if done then Some(now) else None)
    ensures Consistent(SetCompletion(rows, id, user, done, now)[i])
  {
    SetCompletionAt(rows, id, user, done, now);
  }

  /** The update keeps the table invariant; in particular it re-establishes "completed_at non-NULL iff completed". */
  lemma SetCompletionWellFormed(rows: seq<Row>, nextId: nat, id: int, user: nat, done: bool, now: int)
    requires WellFormed(rows, nextId)
    ensures WellFormed(SetCompletion(rows, id, user, done, now), nextId)
  {
    SetCompletionAt(rows, id, user, done, now);
  }

  /** Because ids are unique, the update changes at most one row. */
  lemma SetCompletionAtMostOne(rows: seq<Row>, nextId: nat, id: int, user: nat, done: bool, now: int)
    requires WellFormed(rows, nextId)
    ensures var rows' := SetCompletion(rows, id, user, done, now);
      && |rows'| == |rows|
      && forall i, j :: 0 <= i < |rows| && 0 <= j < |rows| && rows'[i] != rows[i] && rows'[j] != rows[j] ==> i == j
  {
    SetCompletionAt(rows, id, user, done, now);
  }

  /** The update leaves every other user's rows exactly as they were. */
  lemma {:induction false} SetCompletionKeepsOthers(rows: seq<Row>, id: int, user: nat, done: bool, now: int, other: nat)
    requires other != user
    ensures OwnedBy(SetCompletion(rows, id, user, done, now), other) == OwnedBy(rows, other)
  {
    if rows != [] {
      SetCompletionKeepsOthers(rows[1..], id, user, done, now, other);
      var head := if Targets(rows[0], id, user) then Completed(rows[0], done, now) else rows[0];
      var tail := SetCompletion(rows[1..], id, user, done, now);
      assert ([head] + tail)[1..] == tail;
    }
  }

  /** Repeating the same update changes nothing more. */
  lemma {:induction false} SetCompletionIdempotent(rows: seq<Row>, id: int, user: nat, done: bool, now: int)
    ensures SetCompletion(SetCompletion(rows, id, user, done, now), id, user, done, now)
         == SetCompletion(rows, id, user, done, now)
  {
    if rows != [] {
      SetCompletionIdempotent(rows[1..], id, user, done, now);
      var head := if Targets(rows[0], id, user) then Completed(rows[0], done, now) else rows[0];
      var tail := SetCompletion(rows[1..], id, user, done, now);
      assert ([head] + tail)[1..] == tail;
    }
  }

  // ----- DELETE -----

  /** After the delete, the table holds exactly the rows that did not match id and owner. */
  lemma {:induction false} RemoveOwnedMembers(rows: seq<Row>, id: int, user: nat, x: Row)
    ensures x in RemoveOwned(rows, id, user) <==> x in rows && !Targets(x, id, user)
  {
    if rows != [] {
      RemoveOwnedMembers(rows[1..], id, user, x);
      assert rows == [rows[0]] + rows[1..];
    }
  }

  /** Deleting twice is deleting once. */
  lemma {:induction false} RemoveOwnedIdempotent(rows: seq<Row>, id: int, user: nat)
    ensures RemoveOwned(RemoveOwned(rows, id, user), id, user) == RemoveOwned(rows, id, user)
  {
    if rows != [] {
      RemoveOwnedIdempotent(rows[1..], id, user);
      if !Targets(rows[0], id, user) {
        var tail := RemoveOwned(rows[1..], id, user);
        assert ([rows[0]] + tail)[1..] == tail;
      }
    }
  }

  /** A delete whose id and owner match no row (already deleted, never existed, or someone else's) leaves the table as it was. */
  lemma {:induction false} RemoveOwnedNoMatch(rows: seq<Row>, id: int, user: nat)
    requires forall i :: 0 <= i < |rows| ==> !Targets(rows[i], id, user)
    ensures RemoveOwned(rows, id, user) == rows
  {
    if rows != [] {
      RemoveOwnedNoMatch(rows[1..], id, user);
      assert rows == [rows[0]] + rows[1..];
    }
  }

  /** The delete leaves every other user's rows exactly as they were. */
  lemma {:induction false} RemoveOwnedKeepsOthers(rows: seq<Row>, id: int, user: nat, other: nat)
    requires other != user
    ensures OwnedBy(RemoveOwned(rows, id, user), other) == OwnedBy(rows, other)
  {
    if rows != [] {
      RemoveOwnedKeepsOthers(rows[1..], id, user, other);
      if !Targets(rows[0], id, user) {
        var tail := RemoveOwned(rows[1..], id, user);
        assert ([rows[0]] + tail)[1..] == tail;
      }
    }
  }

  /** A consistent row with a fresh id below every id of a well-formed table can go in front of it. */
  lemma ConsWellFormed(r: Row, rest: seq<Row>, nextId: nat)
    requires WellFormed(rest, nextId) && r.id < nextId && Consistent(r)
    requires forall k :: 0 <= k < |rest| ==> r.id < rest[k].id
    ensures WellFormed([r] + rest, nextId)
  {
  }

  /** The delete keeps the table invariant. */
  lemma {:induction false} RemoveOwnedWellFormed(rows: seq<Row>, nextId: nat, id: int, user: nat)
    requires WellFormed(rows, nextId)
    ensures WellFormed(RemoveOwned(rows, id, user), nextId)
  {
    if rows != [] {
      var tail := RemoveOwned(rows[1..], id, user);
      assert WellFormed(rows[1..], nextId);
      RemoveOwnedWellFormed(rows[1..], nextId, id, user);
      if !Targets(rows[0], id, user) {
        forall k | 0 <= k < |tail|
          ensures rows[0].id < tail[k].id
        {
          RemoveOwnedMembers(rows[1..], id, user, tail[k]);
          var j :| 0 <= j < |rows[1..]| && rows[1..][j] == tail[k];
          assert rows[j + 1] == tail[k];
        }
        ConsWellFormed(rows[0], tail, nextId);
      }
    }
  }
}
