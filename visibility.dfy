/**
 * The task list a user sees at GET /: the caller's rows that are incomplete
 * or were completed less than six hours ago, newest first. The query only
 * reads the table.
 */
module Visibility {
  import opened Wrappers
  import opened Records

  /** The retention window for completed tasks, in seconds. */
  const SIX_HOURS: int := 6 * 60 * 60

  /**
   * `is_completed = FALSE OR completed_at > NOW() - INTERVAL 6 HOUR`, read with
   * SQL's three-valued logic: a NULL `completed_at` makes the comparison
   * unknown, so a completed row without a completion time is not shown.
   */
  predicate Shown(r: Row, now: int)
    ensures !r.isCompleted ==> Shown(r, now)
    ensures r.isCompleted && r.completedAt.Some? ==> (Shown(r, now) <==> now < r.completedAt.value + SIX_HOURS)
    ensures r.isCompleted && r.completedAt.None? ==> !Shown(r, now)
  {
    !r.isCompleted || (r.completedAt.Some? && r.completedAt.value > now - SIX_HOURS)
  }

  /** The rows of `user`, in table order. */
  function OwnedBy(rows: seq<Row>, user: nat): seq<Row> {
    if rows == [] then []
    else if rows[0].userId == user then [rows[0]] + OwnedBy(rows[1..], user)
    else OwnedBy(rows[1..], user)
  }

  /** The WHERE clause of the query: rows of `user` that are shown at `now`, in table order. */
  function Select(rows: seq<Row>, user: nat, now: int): (r: seq<Row>)
    ensures |r| <= |rows|
    ensures forall x :: x in r ==> x in rows && x.userId == user && Shown(x, now)
  {
    if rows == [] then []
    else if rows[0].userId == user && Shown(rows[0], now) then [rows[0]] + Select(rows[1..], user, now)
    else Select(rows[1..], user, now)
  }

  /** `ORDER BY created_at DESC`. */
  ghost predicate SortedByCreatedDesc(s: seq<Row>) {
    forall i, j :: 0 <= i < j < |s| ==> s[i].createdAt >= s[j].createdAt
  }

  /** Inserts `x` before the first row of `s` created no later than `x`. */
  function Insert(x: Row, s: seq<Row>): (r: seq<Row>)
    requires SortedByCreatedDesc(s)
    ensures SortedByCreatedDesc(r)
    ensures multiset(r) == multiset(s) + multiset{x}
  {
    if s == [] || s[0].createdAt <= x.createdAt then [x] + s
    else
      var rest := Insert(x, s[1..]);
      assert s == [s[0]] + s[1..];
      NoLaterThan(rest, s[1..], x, s[0].createdAt);
      SortedCons(s[0], rest);
      [s[0]] + rest
  }

  /** A row created no earlier than every row of a sorted list can go in front of it. */
  lemma SortedCons(h: Row, rest: seq<Row>)
    requires SortedByCreatedDesc(rest)
    requires forall k :: 0 <= k < |rest| ==> rest[k].createdAt <= h.createdAt
    ensures SortedByCreatedDesc([h] + rest)
  {
  }

  /** A permutation of `s` plus `x` has no row created after a bound that `s` and `x` respect. */
  lemma NoLaterThan(rest: seq<Row>, s: seq<Row>, x: Row, bound: int)
    requires multiset(rest) == multiset(s) + multiset{x}
    requires x.createdAt <= bound
    requires forall k :: 0 <= k < |s| ==> s[k].createdAt <= bound
    ensures forall k :: 0 <= k < |rest| ==> rest[k].createdAt <= bound
  {
    forall k | 0 <= k < |rest|
      ensures rest[k].createdAt <= bound
    {
      assert rest[k] in multiset(rest);
      if rest[k] != x {
        assert rest[k] in multiset(s);
        var i :| 0 <= i < |s| && s[i] == rest[k];
      }
    }
  }

  /** Orders rows by creation time, newest first; rows created at the same instant keep their table order. */
  function Sort(s: seq<Row>): (r: seq<Row>)
    ensures SortedByCreatedDesc(r)
    ensures multiset(r) == multiset(s)
  {
    if s == [] then []
    else
      assert s == [s[0]] + s[1..];
      Insert(s[0], Sort(s[1..]))
  }

  /** The list GET / renders for `user` at time `now`. */
  function Visible(rows: seq<Row>, user: nat, now: int): (r: seq<Row>)
    ensures SortedByCreatedDesc(r)
    ensures multiset(r) == multiset(Select(rows, user, now))
  {
    Sort(Select(rows, user, now))
  }

  lemma {:induction false} SelectMembers(rows: seq<Row>, user: nat, now: int, x: Row)
    ensures x in Select(rows, user, now) <==> x in rows && x.userId == user && Shown(x, now)
  {
    if rows != [] {
      SelectMembers(rows[1..], user, now, x);
      assert rows == [rows[0]] + rows[1..];
    }
  }

  /** A row is listed exactly when it belongs to the caller and is shown at `now`. */
  lemma VisibleMembers(rows: seq<Row>, user: nat, now: int, x: Row)
    ensures x in Visible(rows, user, now) <==> x in rows && x.userId == user && Shown(x, now)
  {
    SelectMembers(rows, user, now, x);
    assert x in Visible(rows, user, now) <==> x in multiset(Visible(rows, user, now));
    assert x in Select(rows, user, now) <==> x in multiset(Select(rows, user, now));
  }

  /** Every listed row belongs to the caller. */
  lemma VisibleOnlyOwn(rows: seq<Row>, user: nat, now: int)
    ensures forall x :: x in Visible(rows, user, now) ==> x.userId == user && x in rows
  {
    forall x | x in Visible(rows, user, now)
      ensures x.userId == user && x in rows
    {
      VisibleMembers(rows, user, now, x);
    }
  }

  /**
   * A task of the caller completed at time `t` is listed exactly while
   * `now < t + 6h`: the cutoff is strict, so at `t + 6h` it is gone.
   */
  lemma CompletedVisibleWindow(rows: seq<Row>, user: nat, now: int, x: Row, t: int)
    requires x in rows && x.userId == user
    requires x.isCompleted && x.completedAt == Some(t)
    ensures x in Visible(rows, user, now) <==> now < t + SIX_HOURS
  {
    VisibleMembers(rows, user, now, x);
  }

  /** An incomplete task of the caller is listed whatever its age. */
  lemma IncompleteAlwaysVisible(rows: seq<Row>, user: nat, now: int, x: Row)
    requires x in rows && x.userId == user && !x.isCompleted
    ensures x in Visible(rows, user, now)
  {
    VisibleMembers(rows, user, now, x);
  }

  lemma {:induction false} SelectOnlyOwned(rows: seq<Row>, user: nat, now: int)
    ensures Select(rows, user, now) == Select(OwnedBy(rows, user), user, now)
  {
    if rows != [] {
      SelectOnlyOwned(rows[1..], user, now);
      if rows[0].userId == user {
        var tail := OwnedBy(rows[1..], user);
        assert ([rows[0]] + tail)[1..] == tail;
      }
    }
  }

  /** What a user sees depends only on that user's own rows. */
  lemma VisibleDependsOnlyOnOwnRows(rows: seq<Row>, rows': seq<Row>, user: nat, now: int)
    requires OwnedBy(rows, user) == OwnedBy(rows', user)
    ensures Visible(rows, user, now) == Visible(rows', user, now)
  {
    SelectOnlyOwned(rows, user, now);
    SelectOnlyOwned(rows', user, now);
  }

  lemma {:induction false} OwnedByAppend(a: seq<Row>, b: seq<Row>, user: nat)
    ensures OwnedBy(a + b, user) == OwnedBy(a, user) + OwnedBy(b, user)
  {
    if a != [] {
      OwnedByAppend(a[1..], b, user);
      assert (a + b)[1..] == a[1..] + b;
    } else {
      assert a + b == b;
    }
  }

  /** When none of the caller's rows is shown at `now`, the list is empty. */
  lemma NothingShown(rows: seq<Row>, user: nat, now: int)
    requires forall i :: 0 <= i < |rows| && rows[i].userId == user ==> !Shown(rows[i], now)
    ensures Visible(rows, user, now) == []
  {
    if Visible(rows, user, now) != [] {
      var x := Visible(rows, user, now)[0];
      VisibleMembers(rows, user, now, x);
    }
  }
}
