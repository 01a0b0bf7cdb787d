/**
 * Clients of the handlers, in the style of a test harness: alice registers,
 * a second registration as alice is refused, alice signs in with the right
 * and a wrong password, the issued token yields the username "alice", and a post for
 * user 999, who does not exist, is refused. The library hypotheses say that bcrypt
 * accepts the password it hashed and rejects a wrong one, and that the token
 * signed for alice is non-empty and verifies to the claims signed for alice.
 */
module Scenario {
  import opened Wrappers
  import opened Tables
  import opened Services
  import opened Responses
  import Auth
  import Db

  const ALICE := User(1, Some("alice"), Some("a@x.com"), "")

  method Registration(svc: Services)
  {
    var store := new Db.Store([], [], 1, 1);
    var r := store.Signup(svc, Some("alice"), Some("a@x.com"), Some("pw"));
    assert r == Response(200, Message(SIGNUP_OK));
    assert store.users == [ALICE.(password := svc.hash("pw"))];

    r := store.Signup(svc, Some("alice"), Some("b@x.com"), Some("pw2"));
    assert UserByLogin(Some("alice"), Some("b@x.com"))(store.users[0]);
    assert r == Response(400, Message(SIGNUP_DUPLICATE));

    r := store.CreatePost(Some(999), Some("t"), Some("c"), 0);
    assert r == Response(404, Error(USER_NOT_FOUND));
    assert store.posts == [];
  }

  method Login(svc: Services)
    requires svc.compare("pw", svc.hash("pw")) && !svc.compare("wrong", svc.hash("pw"))
    requires svc.sign(Claims(1, Some("alice"), Some("a@x.com")), TOKEN_TTL) != ""
    requires svc.verify(svc.sign(Claims(1, Some("alice"), Some("a@x.com")), TOKEN_TTL))
             == Some(Claims(1, Some("alice"), Some("a@x.com")))
  {
    var users := [ALICE.(password := svc.hash("pw"))];
    assert IsFirst(users, UserByLogin(Some("alice"), None), 0);
    var s := Auth.Signin(svc, users, Some("alice"), None, Some("pw"));
    assert s.status == 200;
    var w := Auth.Signin(svc, users, Some("alice"), None, Some("wrong"));
    assert w == Response(400, AuthResult(false, None));

    var who := Auth.Username(svc, s.body.token);
    assert who == Response(200, UsernameOf(Some("alice")));
  }
}
