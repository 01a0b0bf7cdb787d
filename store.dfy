/**
 * The database as the writing handlers see it: the users and posts tables
 * and the two id sequences (SERIAL columns) that number new rows. POST
 * /signup, POST /posts, PUT /posts/:id and DELETE /posts/:id change it in
 * place; the read handlers of `Auth` and `Reads` take its tables as values.
 */
module Db {
  import opened Wrappers
  import opened Tables
  import opened Services
  import opened Responses

  /**
   * The integrity the writing handlers keep: distinct ids below the next
   * value of their sequence, no username or email registered twice, and
   * every post owned by an existing user (posts are created only for an
   * existing user, and users are never deleted).
   */
  ghost predicate Consistent(users: seq<User>, posts: seq<Post>, nextUserId: int, nextPostId: int)
  {
    && UniqueUserIds(users)
    && UniquePostIds(posts)
    && UniqueLogins(users)
    && PostsHaveUsers(users, posts)
    && (forall u :: u in users ==> u.id < nextUserId)
    && (forall p :: p in posts ==> p.id < nextPostId)
  }

  /** The SET clause of the PUT handler's UPDATE, applied to the rows its WHERE clause selects. */
  function Revised(p: Post, id: int, title: Option<string>, content: Option<string>, now: Timestamp): Post
  {
    if p.id == id then p.(title := title, content := content, updatedAt := Some(now)) else p
  }

  class Store {
    var users: seq<User>
    var posts: seq<Post>
    var nextUserId: int
    var nextPostId: int

    ghost predicate Valid()
      reads this
    {
      Consistent(users, posts, nextUserId, nextPostId)
    }

    constructor (users0: seq<User>, posts0: seq<Post>, nextUserId0: int, nextPostId0: int)
      requires Consistent(users0, posts0, nextUserId0, nextPostId0)
      ensures Valid()
      ensures users == users0 && posts == posts0
      ensures nextUserId == nextUserId0 && nextPostId == nextPostId0
    {
      users, posts := users0, posts0;
      nextUserId, nextPostId := nextUserId0, nextPostId0;
    }

    /**
     * POST /signup: hash the password, refuse when a user already has the
     * username or the email, otherwise insert the new user with the hash.
     */
    method Signup(svc: Services, username: Option<string>, email: Option<string>, password: Option<string>)
      returns (r: Response)
      requires Valid()
      modifies this
      ensures Valid()
      ensures posts == old(posts) && nextPostId == old(nextPostId)
      // bcrypt.hash runs before the lookup and throws on an absent password,
      // so this happens whether or not the user exists
      ensures password.None? ==>
        r == FAILED && users == old(users) && nextUserId == old(nextUserId)
      ensures password.Some? && (exists u :: u in old(users) && UserByLogin(username, email)(u)) ==>
        && r == Response(400, Message(SIGNUP_DUPLICATE))
        && users == old(users) && nextUserId == old(nextUserId)
      ensures password.Some? && (forall u :: u in old(users) ==> !UserByLogin(username, email)(u)) ==>
        && r == Response(200, Message(SIGNUP_OK))
        && users == old(users) + [User(old(nextUserId), username, email, svc.hash(password.value))]
        && nextUserId == old(nextUserId) + 1
    {
      if password.None? {
        return FAILED;
      }
      var hashed := svc.hash(password.value);
      var existing := Filter(users, UserByLogin(username, email));
      if |existing| > 0 {
        assert existing[0] in existing;
        return Response(400, Message(SIGNUP_DUPLICATE));
      }
      var added := User(nextUserId, username, email, hashed);
      ghost var before := users;
      users := users + [added];
      nextUserId := nextUserId + 1;
      forall p | p in posts ensures HasUser(users, p.userId) {
        var u :| u in before && u.id == p.userId;
        assert u in users;
      }
      forall i | 0 <= i < |before| ensures added.id != users[i].id && !UserByLogin(username, email)(users[i]) {
        assert users[i] == before[i] && before[i] in before;
      }
      r := Response(200, Message(SIGNUP_OK));
    }

    /**
     * POST /posts: insert a post for an existing user, stamped with the
     * current time, and answer with the inserted row.
     */
    method CreatePost(userId: Option<int>, title: Option<string>, content: Option<string>, now: Timestamp)
      returns (r: Response)
      requires Valid()
      modifies this
      ensures Valid()
      ensures users == old(users) && nextUserId == old(nextUserId)
      ensures (forall u :: u in users ==> Some(u.id) != userId) ==>
        && r == Response(404, Error(USER_NOT_FOUND))
        && posts == old(posts) && nextPostId == old(nextPostId)
      ensures (exists u :: u in users && Some(u.id) == userId) ==>
        var created := Post(old(nextPostId), userId.value, title, content, now, None);
        && r == Response(200, PostRow(Some(created)))
        && posts == old(posts) + [created]
        && nextPostId == old(nextPostId) + 1
    {
      var found := Filter(users, UserWithId(userId));
      if |found| > 0 {
        assert found[0] in found;
        var created := Post(nextPostId, userId.value, title, content, now, None);
        ghost var before := posts;
        posts := posts + [created];
        nextPostId := nextPostId + 1;
        assert HasUser(users, created.userId) by {
          assert found[0] in users;
        }
        forall i | 0 <= i < |before| ensures posts[i].id != created.id {
          assert posts[i] == before[i] && before[i] in before;
        }
        r := Response(200, PostRow(Some(created)));
      } else {
        forall u | u in users ensures Some(u.id) != userId {
          assert !UserWithId(userId)(u);
        }
        r := Response(404, Error(USER_NOT_FOUND));
      }
    }

    /**
     * PUT /posts/:id: overwrite title and content and stamp updated_at on
     * the rows with that id, and answer with the first updated row (an empty
     * body when no row has that id). Ownership is not checked.
     */
    method UpdatePost(id: int, title: Option<string>, content: Option<string>, now: Timestamp)
      returns (r: Response)
      requires Valid()
      modifies this
      ensures Valid()
      ensures users == old(users) && nextUserId == old(nextUserId) && nextPostId == old(nextPostId)
      ensures |posts| == |old(posts)|
      ensures forall i :: 0 <= i < |posts| ==>
        posts[i] == if old(posts)[i].id == id
                    then old(posts)[i].(title := title, content := content, updatedAt := Some(now))
                    else old(posts)[i]
      ensures r.status == 200
      ensures r.body == PostRow(None) <==> forall p :: p in old(posts) ==> p.id != id
      ensures r.body != PostRow(None) ==>
        exists i :: 0 <= i < |posts| && old(posts)[i].id == id && r.body == PostRow(Some(posts[i]))
    {
      var before := posts;
      posts := seq(|before|, i requires 0 <= i < |before| => Revised(before[i], id, title, content, now));
      assert forall i :: 0 <= i < |posts| ==> posts[i].id == before[i].id && posts[i].userId == before[i].userId;
      forall p | p in posts ensures HasUser(users, p.userId) && p.id < nextPostId {
        var i :| 0 <= i < |posts| && posts[i] == p;
        assert before[i] in before;
      }
      var returning := Filter(posts, PostWithId(id));
      FilterFirst(posts, PostWithId(id));
      if |returning| > 0 {
        r := Response(200, PostRow(Some(returning[0])));
      } else {
        forall p | p in before ensures p.id != id {
          var i :| 0 <= i < |before| && before[i] == p;
          assert !PostWithId(id)(posts[i]);
        }
        r := Response(200, PostRow(None));
      }
    }

    /**
     * DELETE /posts/:id: remove the rows with that id, keeping the others in
     * order, and report success whether or not any row matched. Ownership
     * is not checked.
     */
    method DeletePost(id: int) returns (r: Response)
      requires Valid()
      modifies this
      ensures Valid()
      ensures users == old(users) && nextUserId == old(nextUserId) && nextPostId == old(nextPostId)
      ensures posts == Filter(old(posts), PostOtherThan(id))
      ensures forall p :: p in posts <==> p in old(posts) && p.id != id
      ensures multiset(posts) + multiset(Filter(old(posts), PostWithId(id))) == multiset(old(posts))
      ensures (forall p :: p in old(posts) ==> p.id != id) ==> posts == old(posts)
      ensures r == Response(200, Message(POST_DELETED))
    {
      ghost var before := posts;
      posts := Filter(posts, PostOtherThan(id));
      FilterKeepsUniquePostIds(before, PostOtherThan(id));
      FilterPartition(before, PostOtherThan(id), PostWithId(id));
      if forall p :: p in before ==> p.id != id {
        forall i | 0 <= i < |before| ensures PostOtherThan(id)(before[i]) {
          assert before[i] in before;
        }
        FilterAll(before, PostOtherThan(id));
      }
      r := Response(200, Message(POST_DELETED));
    }
  }
}
