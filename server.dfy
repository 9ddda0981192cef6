/**
 * The protected task routes over the `tasks` table. The table is an object
 * whose handlers change it in place; each handler applies the ownership
 * filter of its SQL statement, and every request passes the authentication
 * gate first. A failing store statement is an input (`storeError`): the
 * statement then has no effect and the handler answers with status 500.
 */
module Server {
  import opened Wrappers
  import opened Records
  import opened Visibility
  import opened Mutations
  import opened Auth

  /** A request to one of the protected routes, with the fields its handler reads. */
  datatype Request =
    | GetIndex
    | PostAdd(task: Option<string>)
    | PostComplete(id: int, completed: Option<string>)
    | GetDelete(id: int)

  /** `req.body.completed === 'true'`: only the exact string marks a task done. */
  predicate MarksDone(completed: Option<string>)
    ensures completed.None? ==> !MarksDone(completed)
    ensures completed.Some? ==> (MarksDone(completed) <==> completed.value == "true")
  {
    completed == Some("true")
  }

  /** `!task` in JavaScript: a missing field or the empty string. */
  predicate Blank(task: Option<string>)
    ensures task.None? ==> Blank(task)
    ensures task.Some? ==> (Blank(task) <==> |task.value| == 0)
  {
    task.None? || task.value == ""
  }

  /** The `tasks` table, in auto-increment order, and the next id it will assign. */
  class TaskTable {
    var rows: seq<Row>
    var nextId: nat

    ghost predicate Valid()
      reads this
    {
      WellFormed(rows, nextId)
    }

    constructor ()
      ensures Valid()
      ensures rows == [] && nextId == 1
    {
      rows := [];
      nextId := 1;
    }

    /** GET /: renders the caller's visible tasks; the query changes nothing. */
    method Index(user: Claims, now: int, storeError: bool) returns (resp: Response)
      ensures resp == if storeError then DatabaseError else RenderIndex(Visible(rows, user.id, now), user)
      ensures resp.RenderIndex? ==> forall x :: x in resp.tasks ==> x in rows && x.userId == user.id
    {
      if storeError {
        return DatabaseError;
      }
      VisibleOnlyOwn(rows, user.id, now);
      resp := RenderIndex(Visible(rows, user.id, now), user);
    }

    /**
     * POST /add: a blank task is ignored before the store is asked; otherwise
     * one new row for the caller is appended, unless the INSERT fails.
     */
    method Add(user: nat, task: Option<string>, now: int, storeError: bool) returns (resp: Response)
      requires Valid()
      modifies this
      ensures Valid()
      ensures resp == if !Blank(task) && storeError then DatabaseError else Redirect(HOME_PAGE)
      ensures Blank(task) || storeError ==> rows == old(rows) && nextId == old(nextId)
      ensures !Blank(task) && !storeError ==>
        && rows == old(rows) + [NewTask(old(nextId), task.value, user, now)]
        && nextId == old(nextId) + 1
      ensures OthersUnchanged(old(rows), rows, user)
    {
      if Blank(task) {
        return Redirect(HOME_PAGE);
      }
      if storeError {
        return DatabaseError;
      }
      forall other | other != user
        ensures OwnedBy(rows + [NewTask(nextId, task.value, user, now)], other) == OwnedBy(rows, other)
      {
        AddKeepsOthers(rows, nextId, task.value, user, now, other);
      }
      AddWellFormed(rows, nextId, task.value, user, now);
      rows := rows + [NewTask(nextId, task.value, user, now)];
      nextId := nextId + 1;
      resp := Redirect(HOME_PAGE);
    }

    /**
     * POST /complete/:id: sets the completion flag and time of the row with
     * that id owned by the caller. The answer is `{success: true}` whether or
     * not any row matched.
     */
    method Toggle(id: int, user: nat, completed: Option<string>, now: int, storeError: bool)
      returns (resp: Response)
      requires Valid()
      modifies this
      ensures Valid() && nextId == old(nextId)
      ensures resp == if storeError then DatabaseError else JsonSuccess
      ensures rows == if storeError then old(rows)
                      else SetCompletion(old(rows), id, user, MarksDone(completed), now)
      ensures OthersUnchanged(old(rows), rows, user)
    {
      if storeError {
        return DatabaseError;
      }
      var done := MarksDone(completed);
      forall other | other != user
        ensures OwnedBy(SetCompletion(rows, id, user, done, now), other) == OwnedBy(rows, other)
      {
        SetCompletionKeepsOthers(rows, id, user, done, now, other);
      }
      SetCompletionWellFormed(rows, nextId, id, user, done, now);
      rows := SetCompletion(rows, id, user, done, now);
      resp := JsonSuccess;
    }

    /**
     * GET /delete/:id: removes the row with that id owned by the caller. The
     * answer is a redirect home whether the row existed, was gone already, or
     * belongs to someone else.
     */
    method Delete(id: int, user: nat, storeError: bool) returns (resp: Response)
      requires Valid()
      modifies this
      ensures Valid() && nextId == old(nextId)
      ensures resp == if storeError then DatabaseError else Redirect(HOME_PAGE)
      ensures rows == if storeError then old(rows) else RemoveOwned(old(rows), id, user)
      ensures OthersUnchanged(old(rows), rows, user)
    {
      if storeError {
        return DatabaseError;
      }
      forall other | other != user
        ensures OwnedBy(RemoveOwned(rows, id, user), other) == OwnedBy(rows, other)
      {
        RemoveOwnedKeepsOthers(rows, id, user, other);
      }
      RemoveOwnedWellFormed(rows, nextId, id, user);
      rows := RemoveOwned(rows, id, user);
      resp := Redirect(HOME_PAGE);
    }

    /**
     * A protected request: the gate runs first. Turned away, the caller is
     * redirected to the login page and no handler runs, so the table is
     * untouched. Admitted, the route's handler runs as the identity the token
     * carries, and no other user's rows change.
     */
    method Handle(req: Request, cookie: Option<string>, verify: (string, int) -> Option<Claims>,
                  now: int, storeError: bool) returns (resp: Response)
      requires Valid()
      modifies this
      ensures Valid()
      ensures Authenticate(cookie, verify, now).Deny? ==>
        resp == Redirect(LOGIN_PAGE) && rows == old(rows) && nextId == old(nextId)
      ensures Authenticate(cookie, verify, now).Admit? ==>
        var user := Authenticate(cookie, verify, now).user;
        && OthersUnchanged(old(rows), rows, user.id)
        && match req
           case GetIndex =>
             && rows == old(rows) && nextId == old(nextId)
             && resp == if storeError then DatabaseError else RenderIndex(Visible(rows, user.id, now), user)
           case PostAdd(task) =>
             && resp == (if !Blank(task) && storeError then DatabaseError else Redirect(HOME_PAGE))
             && nextId == (if Blank(task) || storeError then old(nextId) else old(nextId) + 1)
             && if Blank(task) || storeError then rows == old(rows)
                else rows == old(rows) + [NewTask(old(nextId), task.value, user.id, now)]
           case PostComplete(id, completed) =>
             && resp == (if storeError then DatabaseError else JsonSuccess)
             && nextId == old(nextId)
             && rows == if storeError then old(rows)
                        else SetCompletion(old(rows), id, user.id, MarksDone(completed), now)
           case GetDelete(id) =>
             && resp == (if storeError then DatabaseError else Redirect(HOME_PAGE))
             && nextId == old(nextId)
             && rows == if storeError then old(rows) else RemoveOwned(old(rows), id, user.id)
    {
      match Authenticate(cookie, verify, now)
      case Deny =>
        resp := Redirect(LOGIN_PAGE);
      case Admit(user) =>
        match req {
          case GetIndex =>
            resp := Index(user, now, storeError);
          case PostAdd(task) =>
            resp := Add(user.id, task, now, storeError);
          case PostComplete(id, completed) =>
            resp := Toggle(id, user.id, completed, now, storeError);
          case GetDelete(id) =>
            resp := Delete(id, user.id, storeError);
        }
    }
  }

  /**
   * A request authenticated as one user has no effect on what any other user
   * sees, at any time: a mutation by B is invisible to A.
   */
  lemma OthersSeeNoChange(before: seq<Row>, after: seq<Row>, user: nat, other: nat, now: int)
    requires other != user
    requires OthersUnchanged(before, after, user)
    ensures Visible(after, other, now) == Visible(before, other, now)
  {
    VisibleDependsOnlyOnOwnRows(after, before, other, now);
  }

  /**
   * The first part of a session on a fresh table: alice adds "Write spec" at
   * time 0 and sees it; she completes task 1 a minute later and gets
   * `{success: true}`. The table then holds that one row, completed at 60.
   */
  method AddListComplete(token: string, verify: (string, int) -> Option<Claims>)
    returns (table: TaskTable, listed: Response, completed: Response)
    requires token != ""
    requires verify(token, 0) == verify(token, 30) == verify(token, 60) == Some(Claims(1, "alice"))
    ensures fresh(table) && table.Valid()
    ensures table.rows == [Row(1, "Write spec", 1, true, 0, Some(60))] && table.nextId == 2
    ensures listed == RenderIndex([Row(1, "Write spec", 1, false, 0, None)], Claims(1, "alice"))
    ensures completed == JsonSuccess
  {
    table := new TaskTable();
    var added := table.Handle(PostAdd(Some("Write spec")), Some(token), verify, 0, false);
    var row := NewTask(1, "Write spec", 1, 0);
    assert table.rows == [] + [row];
    AddThenList([], 1, "Write spec", 1, 0, 30);
    listed := table.Handle(GetIndex, Some(token), verify, 30, false);
    completed := table.Handle(PostComplete(1, Some("true")), Some(token), verify, 60, false);
  }

  /**
   * The second part: six hours and one minute after the completion, the first
   * token has expired, so the list request is sent to the login page; with a
   * token from a new login the list is empty, because the completed task has
   * dropped out.
   */
  method ExpireAndRelist(table: TaskTable, token: string, newToken: string,
                         verify: (string, int) -> Option<Claims>)
    returns (expired: Response, later: Response)
    requires table.Valid() && table.rows == [Row(1, "Write spec", 1, true, 0, Some(60))]
    requires token != "" && newToken != ""
    requires verify(token, 60 + SIX_HOURS + 60) == None
    requires verify(newToken, 60 + SIX_HOURS + 60) == Some(Claims(1, "alice"))
    modifies table
    ensures expired == Redirect(LOGIN_PAGE)
    ensures later == RenderIndex([], Claims(1, "alice"))
  {
    expired := table.Handle(GetIndex, Some(token), verify, 60 + SIX_HOURS + 60, false);
    NothingShown(table.rows, 1, 60 + SIX_HOURS + 60);
    later := table.Handle(GetIndex, Some(newToken), verify, 60 + SIX_HOURS + 60, false);
  }

  /** The whole session: the two parts above, one after the other. */
  method Walkthrough(token: string, newToken: string, verify: (string, int) -> Option<Claims>)
    returns (listed: Response, completed: Response, expired: Response, later: Response)
    requires token != "" && newToken != ""
    requires verify(token, 0) == verify(token, 30) == verify(token, 60) == Some(Claims(1, "alice"))
    requires verify(token, 60 + SIX_HOURS + 60) == None
    requires verify(newToken, 60 + SIX_HOURS + 60) == Some(Claims(1, "alice"))
    ensures listed == RenderIndex([Row(1, "Write spec", 1, false, 0, None)], Claims(1, "alice"))
    ensures completed == JsonSuccess
    ensures expired == Redirect(LOGIN_PAGE)
    ensures later == RenderIndex([], Claims(1, "alice"))
  {
    var table;
    table, listed, completed := AddListComplete(token, verify);
    expired, later := ExpireAndRelist(table, token, newToken, verify);
  }
}
