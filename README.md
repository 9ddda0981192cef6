# Task-Vault: per-user task table, visibility window and authentication decisions

Task-Vault is a small web application. Each user keeps a private list of tasks.
Users can add tasks, mark them complete or incomplete, and delete them. A
completed task drops out of the list six hours after it was completed. Every
task route sits behind a gate that checks a session token from the `token`
cookie. `POST /login` issues that token.

This project models that logic in Dafny:

- `Records`: the `tasks` and `users` rows, the token payload `{id, username}`,
  and the responses the handlers send.
- `Visibility`: the `GET /` query as a pure function, `Visible`. It keeps the
  caller's rows that are incomplete or have `completed_at > now - 6h`, ordered
  by `created_at` descending.
- `Mutations`: the INSERT, UPDATE and DELETE statements as functions from the
  old table to the new one, with the table invariant they keep:
  - ids are unique;
  - ids are below the next auto-increment value;
  - `completed_at` is non-NULL exactly when `is_completed` holds.
- `Auth`: the `authenticateToken` gate and the `POST /login` decision. Token
  verification (signature and expiry) and bcrypt's comparison are oracles
  passed in as functions.
- `Server`: the class `TaskTable`, which holds the table as a sequence in
  auto-increment order. Its handler methods change that state in place.
  `Handle` runs the gate and then the route's handler.

Time is one integer clock in seconds. It stands both for the database's
`NOW()` and for the `new Date()` the toggle handler uses. A failing store
statement is a boolean input, `storeError`. The statement then has no effect
and the handler answers with status 500.

Schema assumptions (the table definitions are not in `server.js`):

- an inserted task gets `is_completed = false`, `completed_at = NULL` and
  `created_at = now`;
- `id` is a fresh auto-increment key, starting at 1;
- `users.username` is unique. Only `Auth.LoginRegisteredUser` relies on this;
  `Auth.Login` takes the first matching row, as `results[0]` does.

Two behaviours follow the code exactly, although a reader might expect otherwise:

- The toggle route answers `{success: true}` whenever the UPDATE statement
  does not fail, even if no row matched. It never reports a
  "failure" result.
- An empty cookie is turned away just like a missing one, because the code
  tests `!token`.

## Model

| member | source | states |
|---|---|---|
| Visibility.Shown | server.js:104 | an incomplete row is always shown; a completed row with a completion time `t` is shown iff `now < t + 6h`; a completed row with a NULL completion time is never shown (SQL's unknown comparison) |
| Visibility.Select | server.js:102-104 | the WHERE clause as a filter: it never grows the table, and everything it keeps is a table row of the caller that is shown at `now` |
| Visibility.Insert | server.js:105 | inserting into a list sorted by `created_at` descending keeps it sorted and adds exactly that row (multiset) |
| Visibility.Sort | server.js:105 | `ORDER BY created_at DESC`: the result is sorted newest first and is a permutation of the input |
| Visibility.Visible | server.js:101-106 | the listed rows are sorted newest first and are a permutation of the rows that pass the WHERE clause |
| Visibility.SelectMembers | server.js:103-104 | a row passes the WHERE clause iff it is in the table, has the caller's `user_id`, and is incomplete or completed less than 6 hours ago |
| Visibility.VisibleMembers | server.js:101-106 | a row is listed iff it is in the table, owned by the caller, and shown at `now` (both directions) |
| Visibility.VisibleOnlyOwn | server.js:103 | every listed row belongs to the caller and comes from the table |
| Visibility.CompletedVisibleWindow | server.js:104 | a task completed at `t` is listed iff `now < t + 6h`, so at exactly 6 hours it is hidden (strict cutoff) |
| Visibility.IncompleteAlwaysVisible | server.js:104 | an incomplete task of the caller is listed at every time, whatever its age |
| Visibility.NothingShown | server.js:101-106 | when none of the caller's rows pass the time filter, the list is empty |
| Visibility.SelectOnlyOwned | server.js:103 | the WHERE clause reads only the caller's own rows |
| Visibility.VisibleDependsOnlyOnOwnRows | server.js:101-106 | two tables that agree on a user's rows give that user the same list at every time |
| Mutations.NewTask | server.js:124 | the inserted row carries the given id, text, caller's `user_id` and creation time `now`; it is incomplete, has a NULL completion time (so it is consistent) and is shown at every time |
| Mutations.Completed | server.js:139-141 | the two SET columns on one row: `is_completed` becomes `done`; `completed_at` is set iff done, and then equals `now`; every other column is unchanged |
| Mutations.SetCompletion | server.js:141 | the UPDATE keeps the number of rows, and never changes any row's id, owner, text or creation time (ownership cannot be transferred) |
| Mutations.RemoveOwned | server.js:155 | the DELETE never grows the table, and no remaining row matches both the id and the caller's `user_id` |
| Mutations.AddWellFormed | server.js:124 | an inserted row (incomplete, NULL completion time, next id) keeps the table invariant |
| Mutations.AddKeepsOthers | server.js:124 | inserting a task for one user leaves every other user's rows unchanged |
| Mutations.AddedTaskListed | server.js:124 | a newly inserted task is listed for its owner at every time |
| Mutations.AddThenList | server.js:118-133 | create-then-list: for a user with no tasks, the list after one insert is exactly that one incomplete row, with a NULL completion time |
| Mutations.SetCompletionAt | server.js:141 | the UPDATE keeps the table length; it rewrites exactly the rows matching both id and `user_id`, and every other row is unchanged |
| Mutations.SetCompletionResult | server.js:138-141 | the matched row ends with `is_completed = done` and `completed_at = now` when done, NULL otherwise, so it is consistent |
| Mutations.SetCompletionWellFormed | server.js:141 | the UPDATE keeps the table invariant, including "completed_at non-NULL iff is_completed" |
| Mutations.SetCompletionAtMostOne | server.js:141 | since ids are unique, the UPDATE changes at most one row |
| Mutations.SetCompletionKeepsOthers | server.js:141 | the UPDATE leaves every other user's rows exactly as they were |
| Mutations.SetCompletionIdempotent | server.js:141 | repeating the same UPDATE changes nothing further |
| Mutations.RemoveOwnedMembers | server.js:155 | after the DELETE, a row is in the table iff it was before and does not match both id and `user_id` |
| Mutations.RemoveOwnedIdempotent | server.js:155 | deleting twice is the same as deleting once |
| Mutations.RemoveOwnedNoMatch | server.js:155 | a DELETE matching no row leaves the table as it was: the row is gone already, never existed, or belongs to someone else |
| Mutations.RemoveOwnedKeepsOthers | server.js:155 | the DELETE leaves every other user's rows exactly as they were |
| Mutations.RemoveOwnedWellFormed | server.js:155 | the DELETE keeps the table invariant |
| Auth.Authenticate | server.js:37-46 | the handler runs iff the cookie is present, non-empty and accepted by the verifier at the request's time; it then runs with the identity the verifier decoded |
| Auth.FindUser | server.js:57-62 | yields no user iff no row has that username; otherwise the first row with that username |
| Auth.Login | server.js:55-70 | only two answers: a redirect to `/login` with no token, or a redirect to `/` that sets a token; a token is set only for a row with that username whose hash the password matches, and carries that row's `{id, username}`; an unknown username always gets `/login`; a token is set iff the first row with that username (`results[0]`) passes the password check |
| Auth.LoginRegisteredUser | server.js:60-69 | with unique usernames, a registered user's login succeeds iff the password matches the stored hash, and the token carries that user's id and name |
| Server.MarksDone | server.js:138 | a missing field never marks a task done; a present one does iff it is exactly the string "true" |
| Server.Blank | server.js:120 | `!task`: a missing field is blank; a present one is blank iff it is the empty string |
| Server.TaskTable.constructor | server.js:124 | the table before any INSERT: no rows, the first auto-increment id is 1, and the invariant holds |
| Server.TaskTable.Index | server.js:96-116 | GET / answers with the caller's `Visible` list (or status 500) and changes nothing; every listed row is the caller's |
| Server.TaskTable.Add | server.js:118-133 | a missing or empty task redirects home and changes nothing; otherwise exactly one new row for the caller is appended and the next id advances; a store failure gives 500 and no change; other users' rows never change |
| Server.TaskTable.Toggle | server.js:136-150 | the table becomes the UPDATE with `done` iff the field is exactly "true"; the answer is `{success: true}` whatever matched; other users' rows never change; the invariant is kept |
| Server.TaskTable.Delete | server.js:153-164 | the table becomes the DELETE on id and owner; the answer is a redirect home whatever matched; other users' rows never change; the invariant is kept |
| Server.TaskTable.Handle | server.js:37-46 | a denied request gets a redirect to `/login` and leaves the table untouched; an admitted one runs its route's handler as the decoded identity and changes no other user's rows; the new rows and next id are those of that handler (the next id advances only on a successful add) |
| Server.OthersSeeNoChange | server.js:141 | a request authenticated as one user leaves every other user's list unchanged at every time |
| Server.AddListComplete | server.js:118-150 | on a fresh table: add "Write spec" at time 0 and it is listed; complete task 1 a minute later and get `{success: true}`; the table then holds that one row, completed at 60, and the next id is 2 |
| Server.ExpireAndRelist | server.js:37-46 | with that completed row, 6 h 1 min later the expired token makes GET / redirect to `/login`; with a token from a new login the list is empty |
| Server.Walkthrough | server.js:118-150 | a typical session: add "Write spec" at time 0 and it is listed; complete task 1 and get `{success: true}`; 6 h 1 min later the first token has expired, so GET / redirects to `/login`; with a token from a new login the list is empty |

## Left out

- MySQL connection setup and the driver (server.js:21-34): the table is in
  memory. A failing statement is the input `storeError`, and a failed
  statement has no effect.
- Login: a store error in the lookup is rethrown from the callback
  (server.js:59). That crashes the process instead of sending a response, and
  the model has no process to crash, so this path is not modelled.
- JWT signing, verification and the one-hour expiry (server.js:41, 64): these
  belong to a foreign library. The verifier is the oracle `verify(token, now)`:
  its verdict at the time of the request. A token that has expired at `now`
  gets None. The model does not tie a token's expiry to its issue time, and
  the token itself is its payload `Claims`.
- bcrypt hashing and comparison (server.js:63, 79): cryptography from a
  foreign library, modelled as the oracle `passwordMatches`.
- Login with a missing body field (server.js:56-63): `username` and
  `password` are modelled as strings that are always present. A missing
  `username` is bound as NULL, matches no row and ends at `/login`. A missing
  `password` with a known username makes `bcrypt.compareSync` throw inside the
  query callback (server.js:63), so no response is sent. Neither path is
  modelled; the second is the same kind of crash as the rethrown store error.
- Registration (server.js:77-88): its duplicate-username behaviour depends on
  a schema constraint that is not shown, so it is not modelled.
  `UniqueUsernames` states the constraint where a lemma needs it.
- Logout and the form pages (server.js:51-53, 73-75, 90-93): they only render
  a page or clear the cookie, and touch no table.
- Express wiring, body and cookie parsing, static files, EJS rendering,
  logging and `app.listen` (server.js:10-18, 114, 166-168): this is plumbing.
- MySQL's case-insensitive string collation: `WHERE username = ?` is modelled
  as exact equality.
- The real clock, and the timezone gap between `new Date()` and `NOW()`: both
  are one integer clock.
- String-to-integer coercion of `req.params.id`: the id is an integer. A
  non-numeric body field for `task` or `completed` (an array, say) is not
  modelled; a field is either missing or a string.
- Ties in `created_at`: SQL leaves their order open. The model keeps table
  order among equal timestamps. The lemmas about `Visible` hold for any order
  among ties, except that the sequence itself is one fixed choice.
- Concurrency between requests: each handler is one atomic step on the table.
