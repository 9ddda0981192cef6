/**
 * The records the application works with: rows of its two tables, the
 * identity a session token carries, and the responses its handlers send.
 */
module Records {
  import opened Wrappers

  /**
   * A row of the `tasks` table (id, task, user_id, is_completed, created_at,
   * completed_at). Timestamps are seconds on one integer clock; `completedAt`
   * is the nullable column.
   */
  datatype Row = Row(
    id: nat,
    task: string,
    userId: nat,
    isCompleted: bool,
    createdAt: int,
    completedAt: Option<int>)

  /** A row of the `users` table; `password` holds the stored hash. */
  datatype UserRow = UserRow(id: nat, username: string, password: string)

  /** The payload of a session token: `{id, username}`. */
  datatype Claims = Claims(id: nat, username: string)

  /** What a handler sends back. */
  datatype Response =
    | Redirect(location: string)
      // a redirect that also sets the `token` cookie to a token carrying these claims
    | RedirectWithToken(location: string, token: Claims)
      // `{success: true}` as JSON
    | JsonSuccess
      // status 500, "Database error"
    | DatabaseError
      // the index page listing `tasks` for `user`
    | RenderIndex(tasks: seq<Row>, user: Claims)
}
