/**
 * The state-free part of the auth flow: POST /signin and GET /username.
 * POST /signup changes the users table and is a method of `Db.Store`.
 */
module Auth {
  import opened Wrappers
  import opened Tables
  import opened Services
  import opened Responses

  /**
   * POST /signin: take the first user row whose username or email matches,
   * compare the password with its stored hash, and on success sign a 24-hour
   * token over that row's id, username and email.
   */
  function Signin(
    svc: Services, users: seq<User>,
    username: Option<string>, email: Option<string>, password: Option<string>): (r: Response)
    // no user matches: 400 with a message, whatever the password
    ensures (forall u :: u in users ==> !UserByLogin(username, email)(u))
        <==> r == Response(400, Message(SIGNIN_UNKNOWN))
    // a user matches but no password was sent: bcrypt.compare throws
    ensures r == FAILED
        <==> password.None? && exists u :: u in users && UserByLogin(username, email)(u)
    // the first matching user's hash rejects the password: 400 {auth: false, token: null}
    ensures r == Response(400, AuthResult(false, None))
        <==> exists i :: IsFirst(users, UserByLogin(username, email), i) &&
                         password.Some? && !svc.compare(password.value, users[i].password)
    // success exactly when the first matching user's hash accepts the password
    ensures r.status == 200
        <==> exists i :: IsFirst(users, UserByLogin(username, email), i) &&
                         password.Some? && svc.compare(password.value, users[i].password)
    // the token is signed over the first matching row, with a 24-hour expiry
    ensures r.status == 200 ==>
      exists i :: IsFirst(users, UserByLogin(username, email), i) &&
                  r.body == AuthResult(true, Some(svc.sign(ClaimsOf(users[i]), TOKEN_TTL)))
    // no failure path carries a token
    ensures r.body.AuthResult? && r.body.token.Some? ==> r.status == 200
  {
    var rows := Filter(users, UserByLogin(username, email));
    FilterFirst(users, UserByLogin(username, email));
    assert rows != [] ==> forall i :: IsFirst(users, UserByLogin(username, email), i) ==> rows[0] == users[i] by {
      if rows != [] {
        var k :| IsFirst(users, UserByLogin(username, email), k) && rows[0] == users[k];
        forall i | IsFirst(users, UserByLogin(username, email), i) ensures rows[0] == users[i] {
          FirstIsUnique(users, UserByLogin(username, email), i, k);
        }
      }
    }
    if rows == [] then Response(400, Message(SIGNIN_UNKNOWN))
    else if password.None? then FAILED
    else if !svc.compare(password.value, rows[0].password) then Response(400, AuthResult(false, None))
    else Response(200, AuthResult(true, Some(svc.sign(ClaimsOf(rows[0]), TOKEN_TTL))))
  }

  /**
   * GET /username: reject a missing (or empty, hence falsy) Authorization
   * header, then verify the token and answer with the username it carries.
   * The tables are not consulted.
   */
  function Username(svc: Services, authorization: Option<string>): (r: Response)
    ensures r == Response(400, Error(ACCESS_DENIED))
        <==> authorization.None? || authorization == Some("")
    ensures r == Response(400, Error(INVALID_TOKEN))
        <==> authorization.Some? && authorization.value != "" && svc.verify(authorization.value).None?
    ensures r.status == 200
        <==> authorization.Some? && authorization.value != "" && svc.verify(authorization.value).Some?
    ensures r.status == 200 ==> r.body == UsernameOf(svc.verify(authorization.value).value.username)
  {
    if authorization.None? || authorization.value == "" then Response(400, Error(ACCESS_DENIED))
    else match svc.verify(authorization.value)
      case None => Response(400, Error(INVALID_TOKEN))
      case Some(claims) => Response(200, UsernameOf(claims.username))
  }

  /**
   * The session flow: when the token library round-trips its own tokens and
   * never issues an empty one, the token a successful sign-in returns makes
   * GET /username answer with the username of the row that signed in.
   */
  lemma SigninThenUsername(
    svc: Services, users: seq<User>,
    username: Option<string>, email: Option<string>, password: Option<string>)
    requires forall c :: svc.verify(svc.sign(c, TOKEN_TTL)) == Some(c)
    requires forall c :: svc.sign(c, TOKEN_TTL) != ""
    requires Signin(svc, users, username, email, password).status == 200
    ensures exists i ::
      && IsFirst(users, UserByLogin(username, email), i)
      && Username(svc, Signin(svc, users, username, email, password).body.token)
         == Response(200, UsernameOf(users[i].username))
  {
    var r := Signin(svc, users, username, email, password);
    var i :| IsFirst(users, UserByLogin(username, email), i) &&
             r.body == AuthResult(true, Some(svc.sign(ClaimsOf(users[i]), TOKEN_TTL)));
    assert svc.verify(svc.sign(ClaimsOf(users[i]), TOKEN_TTL)) == Some(ClaimsOf(users[i]));
  }
}
