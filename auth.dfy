/**
 * The two authentication decisions: the gate in front of every task route
 * (authenticateToken) and the outcome of POST /login. Token verification and
 * password comparison are oracles passed in as functions.
 */
module Auth {
  import opened Wrappers
  import opened Records

  /** Where both decisions send a caller they turn away. */
  const LOGIN_PAGE: string := "/login"

  /** Where a successful login sends the caller. */
  const HOME_PAGE: string := "/"

  /** Whether the protected handler runs, and for whom. */
  datatype GateDecision = Deny | Admit(user: Claims)

  /**
   * authenticateToken: a missing `token` cookie or an empty one (both falsy)
   * is turned away without asking the verifier; otherwise the verifier's
   * verdict decides, and an accepted token's payload becomes the caller's
   * identity. `verify(token, now)` is the verifier's verdict at the moment
   * of the request: it stands for signature and expiry checking and yields
   * None for a token that is forged, malformed or expired at `now`.
   */
  function Authenticate(cookie: Option<string>, verify: (string, int) -> Option<Claims>, now: int): (d: GateDecision)
    ensures d.Admit? <==> cookie.Some? && cookie.value != "" && verify(cookie.value, now).Some?
    ensures d.Admit? ==> verify(cookie.value, now) == Some(d.user)
  {
    if cookie.None? || cookie.value == "" then Deny
    else match verify(cookie.value, now)
      case None => Deny
      case Some(claims) => Admit(claims)
  }

  /** `SELECT * FROM users WHERE username = ?`, then `results[0]`: the first row with that name. */
  function FindUser(users: seq<UserRow>, name: string): (r: Option<UserRow>)
    ensures r.None? <==> forall u :: u in users ==> u.username != name
    ensures r.Some? ==> exists i :: (0 <= i < |users| && users[i] == r.value && users[i].username == name
                                     && forall j :: 0 <= j < i ==> users[j].username != name)
  {
    if users == [] then None
    else if users[0].username == name then Some(users[0])
    else
      var r := FindUser(users[1..], name);
      assert users == [users[0]] + users[1..];
      if r.Some? then
        var i :| 0 <= i < |users[1..]| && users[1..][i] == r.value && users[1..][i].username == name
          && forall j :: 0 <= j < i ==> users[1..][j].username != name;
        assert users[i + 1] == r.value;
        r
      else r
  }

  /**
   * POST /login: with no user of that name, or a password the oracle rejects,
   * the caller is sent back to the login page and no token is set; otherwise
   * a token carrying the row's id and username is set and the caller goes home.
   */
  function Login(users: seq<UserRow>, username: string, password: string,
                 passwordMatches: (string, string) -> bool): (r: Response)
    ensures r == Redirect(LOGIN_PAGE) || (r.RedirectWithToken? && r.location == HOME_PAGE)
    ensures r.RedirectWithToken? ==>
      exists u :: u in users && u.username == username && passwordMatches(password, u.password)
        && r.token == Claims(u.id, u.username)
    ensures (forall u :: u in users ==> u.username != username) ==> r == Redirect(LOGIN_PAGE)
    ensures r.RedirectWithToken? <==>
      FindUser(users, username).Some? && passwordMatches(password, FindUser(users, username).value.password)
  {
    match FindUser(users, username)
    case None => Redirect(LOGIN_PAGE)
    case Some(u) =>
      if passwordMatches(password, u.password) then RedirectWithToken(HOME_PAGE, Claims(u.id, u.username))
      else Redirect(LOGIN_PAGE)
  }

  /** The uniqueness constraint on `users.username`. */
  ghost predicate UniqueUsernames(users: seq<UserRow>) {
    forall i, j :: 0 <= i < j < |users| ==> users[i].username != users[j].username
  }

  /**
   * With unique usernames, logging in as a registered user succeeds exactly
   * when the password oracle accepts the password against that user's stored
   * hash, and the token carries that user's id and name.
   */
  lemma LoginRegisteredUser(users: seq<UserRow>, username: string, password: string,
                            passwordMatches: (string, string) -> bool, k: nat)
    requires UniqueUsernames(users)
    requires k < |users| && users[k].username == username
    ensures Login(users, username, password, passwordMatches) ==
      if passwordMatches(password, users[k].password)
      then RedirectWithToken(HOME_PAGE, Claims(users[k].id, users[k].username))
      else Redirect(LOGIN_PAGE)
  {
  }
}
