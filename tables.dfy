/**
 * The two tables of the blog database, `users` and `posts`, and the row
 * semantics of the SQL statements the handlers run over them: filters by
 * `WHERE column = $n`, and the `INNER JOIN users ON posts.user_id = users.id`.
 * A table is a sequence of rows in storage order; a query without ORDER BY
 * returns its rows in that order.
 */
module Tables {
  import opened Wrappers

  type Timestamp = int

  /** A row of `users`. The password column holds a bcrypt hash. */
  datatype User = User(id: int, username: Option<string>, email: Option<string>, password: string)

  /** A row of `posts`. `updatedAt` stays NULL until the post is updated. */
  datatype Post = Post(
    id: int,
    userId: int,
    title: Option<string>,
    content: Option<string>,
    createdAt: Timestamp,
    updatedAt: Option<Timestamp>)

  /** A row of the joined queries: the post's columns plus `users.username`. */
  datatype JoinedPost = JoinedPost(post: Post, username: Option<string>)

  /** SQL `column = $n`: NULL on either side matches no row. */
  predicate SqlEq<T(==)>(column: Option<T>, param: Option<T>)
  {
    column.Some? && param.Some? && column.value == param.value
  }

  /** The rows of `s` that satisfy `keep`, in table order (a `WHERE` clause). */
  function Filter<T(!new)>(s: seq<T>, keep: T -> bool): (r: seq<T>)
    ensures |r| <= |s|
    ensures forall x :: x in r <==> x in s && keep(x)
  {
    if s == [] then []
    else if keep(s[0]) then [s[0]] + Filter(s[1..], keep)
    else Filter(s[1..], keep)
  }

  /** `i` is the position of the first row of `s` that satisfies `keep`. */
  ghost predicate IsFirst<T>(s: seq<T>, keep: T -> bool, i: int)
  {
    0 <= i < |s| && keep(s[i]) && forall j :: 0 <= j < i ==> !keep(s[j])
  }

  /** There is at most one first matching row. */
  lemma FirstIsUnique<T>(s: seq<T>, keep: T -> bool, i: int, k: int)
    requires IsFirst(s, keep, i) && IsFirst(s, keep, k)
    ensures i == k
  {
  }

  /** `rows[0]` of a query result is the first matching row of the table. */
  lemma {:induction false} FilterFirst<T(!new)>(s: seq<T>, keep: T -> bool)
    ensures Filter(s, keep) == [] <==> forall i :: 0 <= i < |s| ==> !keep(s[i])
    ensures Filter(s, keep) != [] ==> exists i :: IsFirst(s, keep, i) && Filter(s, keep)[0] == s[i]
  {
    if s != [] {
      FilterFirst(s[1..], keep);
      if !keep(s[0]) && Filter(s, keep) != [] {
        var i :| IsFirst(s[1..], keep, i) && Filter(s[1..], keep)[0] == s[1..][i];
        assert IsFirst(s, keep, i + 1);
      } else if keep(s[0]) {
        assert IsFirst(s, keep, 0);
      }
    }
  }

  /** Filtering a concatenation filters each part and keeps their order. */
  lemma {:induction false} FilterConcat<T(!new)>(a: seq<T>, b: seq<T>, keep: T -> bool)
    ensures Filter(a + b, keep) == Filter(a, keep) + Filter(b, keep)
  {
    if a == [] {
      assert a + b == b;
    } else {
      assert (a + b)[1..] == a[1..] + b;
      FilterConcat(a[1..], b, keep);
    }
  }

  /** A filter that every row passes returns the table itself. */
  lemma {:induction false} FilterAll<T(!new)>(s: seq<T>, keep: T -> bool)
    requires forall i :: 0 <= i < |s| ==> keep(s[i])
    ensures Filter(s, keep) == s
  {
    if s != [] {
      FilterAll(s[1..], keep);
    }
  }

  /** The rows a filter keeps and the rows its complement keeps make up the table. */
  lemma {:induction false} FilterPartition<T(!new)>(s: seq<T>, keep: T -> bool, drop: T -> bool)
    requires forall x :: drop(x) == !keep(x)
    ensures multiset(Filter(s, keep)) + multiset(Filter(s, drop)) == multiset(s)
  {
    if s != [] {
      FilterPartition(s[1..], keep, drop);
      assert s == [s[0]] + s[1..];
    }
  }

  // Row predicates of the WHERE clauses.

  /** `WHERE id = $1` on posts. */
  function PostWithId(id: int): Post -> bool
  {
    (p: Post) => p.id == id
  }

  /** The complement of `PostWithId`: the rows a `DELETE ... WHERE id = $1` keeps. */
  function PostOtherThan(id: int): Post -> bool
  {
    (p: Post) => p.id != id
  }

  /** `WHERE user_id = $1` on posts. */
  function PostByUser(userId: int): Post -> bool
  {
    (p: Post) => p.userId == userId
  }

  /** `WHERE id = $1` on users, with a parameter that may be absent. */
  function UserWithId(id: Option<int>): User -> bool
  {
    (u: User) => SqlEq(Some(u.id), id)
  }

  /** `WHERE username = $1 OR email = $2` on users. */
  function UserByLogin(username: Option<string>, email: Option<string>): User -> bool
  {
    (u: User) => SqlEq(u.username, username) || SqlEq(u.email, email)
  }

  /** Some row of `users` has id `id`. */
  ghost predicate HasUser(users: seq<User>, id: int)
  {
    exists u :: u in users && u.id == id
  }

  // Integrity conditions on the tables.

  ghost predicate UniqueUserIds(users: seq<User>)
  {
    forall i, j :: 0 <= i < j < |users| ==> users[i].id != users[j].id
  }

  ghost predicate UniquePostIds(posts: seq<Post>)
  {
    forall i, j :: 0 <= i < j < |posts| ==> posts[i].id != posts[j].id
  }

  /** No two users share a (non-NULL) username or a (non-NULL) email. */
  ghost predicate UniqueLogins(users: seq<User>)
  {
    forall i, j :: 0 <= i < j < |users| ==>
      !SqlEq(users[i].username, users[j].username) && !SqlEq(users[i].email, users[j].email)
  }

  /** Every post belongs to an existing user. */
  ghost predicate PostsHaveUsers(users: seq<User>, posts: seq<Post>)
  {
    forall p :: p in posts ==> HasUser(users, p.userId)
  }

  /** Removing rows keeps the post ids distinct. */
  lemma {:induction false} FilterKeepsUniquePostIds(posts: seq<Post>, keep: Post -> bool)
    requires UniquePostIds(posts)
    ensures UniquePostIds(Filter(posts, keep))
  {
    if posts != [] {
      var rest := Filter(posts[1..], keep);
      FilterKeepsUniquePostIds(posts[1..], keep);
      if keep(posts[0]) {
        forall j | 0 <= j < |rest|
          ensures posts[0].id != rest[j].id
        {
          assert rest[j] in posts[1..];
        }
      }
    }
  }

  /** With unique post ids, a lookup by id finds at most one row. */
  lemma {:induction false} AtMostOneWithId(posts: seq<Post>, id: int)
    requires UniquePostIds(posts)
    ensures |Filter(posts, PostWithId(id))| <= 1
  {
    if posts != [] {
      AtMostOneWithId(posts[1..], id);
      if posts[0].id == id {
        assert Filter(posts[1..], PostWithId(id)) == [] by {
          FilterFirst(posts[1..], PostWithId(id));
          forall i | 0 <= i < |posts[1..]| ensures !PostWithId(id)(posts[1..][i]) {
            assert posts[1..][i] == posts[i + 1];
          }
        }
      }
    }
  }

  // The INNER JOIN.

  /** The username of a joined row is that of a user whose id is the post's user_id. */
  ghost predicate AuthoredBy(users: seq<User>, j: JoinedPost)
  {
    exists u :: u in users && u.id == j.post.userId && j.username == u.username
  }

  /** The joined rows one post contributes: one per user whose id is the post's user_id. */
  function JoinOne(p: Post, users: seq<User>): (r: seq<JoinedPost>)
    ensures forall j :: j in r ==> j.post == p && AuthoredBy(users, j)
    ensures forall u :: u in users && u.id == p.userId ==> JoinedPost(p, u.username) in r
    ensures |r| == |Filter(users, UserWithId(Some(p.userId)))|
    ensures r == [] <==> !HasUser(users, p.userId)
  {
    if users == [] then []
    else
      var rest := JoinOne(p, users[1..]);
      assert forall u :: u in users[1..] ==> u in users;
      if users[0].id == p.userId then [JoinedPost(p, users[0].username)] + rest else rest
  }

  /** `posts INNER JOIN users ON posts.user_id = users.id`, post by post. */
  function Join(posts: seq<Post>, users: seq<User>): (r: seq<JoinedPost>)
    ensures forall j :: j in r ==> j.post in posts && AuthoredBy(users, j)
    ensures r == [] <==> forall p :: p in posts ==> !HasUser(users, p.userId)
  {
    if posts == [] then []
    else
      assert forall p :: p in posts[1..] ==> p in posts;
      JoinOne(posts[0], users) + Join(posts[1..], users)
  }

  /** The post columns of joined rows. */
  function PostsOf(rows: seq<JoinedPost>): (r: seq<Post>)
    ensures |r| == |rows|
    ensures forall i :: 0 <= i < |rows| ==> r[i] == rows[i].post
  {
    if rows == [] then [] else [rows[0].post] + PostsOf(rows[1..])
  }

  /** The posts whose author exists. */
  function HasAuthor(users: seq<User>): Post -> bool
  {
    (p: Post) => exists u :: u in users && u.id == p.userId
  }

  lemma {:induction false} JoinOneUnique(p: Post, users: seq<User>)
    requires UniqueUserIds(users)
    ensures PostsOf(JoinOne(p, users)) == if HasUser(users, p.userId) then [p] else []
  {
    if users != [] {
      JoinOneUnique(p, users[1..]);
      if users[0].id == p.userId {
        assert !HasUser(users[1..], p.userId) by {
          forall u | u in users[1..] ensures u.id != p.userId {
            var k :| 0 <= k < |users[1..]| && users[1..][k] == u;
            assert users[k + 1] == u;
          }
        }
      } else {
        assert HasUser(users, p.userId) == HasUser(users[1..], p.userId);
      }
    }
  }

  /**
   * With unique user ids, the join yields each post that has an author exactly
   * once, in table order, and drops the others.
   */
  lemma {:induction false} JoinUnique(posts: seq<Post>, users: seq<User>)
    requires UniqueUserIds(users)
    ensures PostsOf(Join(posts, users)) == Filter(posts, HasAuthor(users))
  {
    if posts != [] {
      JoinUnique(posts[1..], users);
      JoinOneUnique(posts[0], users);
      PostsOfConcat(JoinOne(posts[0], users), Join(posts[1..], users));
    }
  }

  lemma PostsOfConcat(a: seq<JoinedPost>, b: seq<JoinedPost>)
    ensures PostsOf(a + b) == PostsOf(a) + PostsOf(b)
  {
    assert |PostsOf(a + b)| == |PostsOf(a) + PostsOf(b)|;
    forall i | 0 <= i < |a + b|
      ensures PostsOf(a + b)[i] == (PostsOf(a) + PostsOf(b))[i]
    {
    }
  }

  /** When every post has an author, the joined read returns every post, in order. */
  lemma JoinComplete(posts: seq<Post>, users: seq<User>)
    requires UniqueUserIds(users) && PostsHaveUsers(users, posts)
    ensures PostsOf(Join(posts, users)) == posts
  {
    JoinUnique(posts, users);
    forall i | 0 <= i < |posts| ensures HasAuthor(users)(posts[i]) {
      assert posts[i] in posts;
    }
    FilterAll(posts, HasAuthor(users));
  }
}
