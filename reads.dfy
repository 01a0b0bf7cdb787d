/**
 * The GET handlers over posts. Every list read answers with the rows its
 * query returns, or with 404 and the route's message when there are none;
 * the `/postss` routes run the same query joined with `users` to add the
 * author's username. None of them changes the tables.
 */
module Reads {
  import opened Wrappers
  import opened Tables
  import opened Responses

  /** The shared shape of the plain list reads: `rowCount > 0` decides between the rows and 404. */
  function ListPosts(rows: seq<Post>, notFound: string): Response
  {
    if |rows| > 0 then Response(200, PostRows(rows)) else Response(404, Error(notFound))
  }

  /** The same shape for the joined reads. */
  function ListJoined(rows: seq<JoinedPost>, notFound: string): Response
  {
    if |rows| > 0 then Response(200, JoinedRows(rows)) else Response(404, Error(notFound))
  }

  /** GET /posts: `SELECT * FROM posts`. */
  function GetPosts(posts: seq<Post>): (r: Response)
    ensures r == Response(404, Error(ALL_POSTS_NOT_FOUND)) <==> posts == []
    ensures r.status != 404 ==> r == Response(200, PostRows(posts))
  {
    ListPosts(posts, ALL_POSTS_NOT_FOUND)
  }

  /** GET /postss: every post joined with its author. */
  function GetPostsJoined(users: seq<User>, posts: seq<Post>): (r: Response)
    ensures r == Response(404, Error(ALL_POSTS_NOT_FOUND))
        <==> forall p :: p in posts ==> !HasUser(users, p.userId)
    ensures r.status != 404 ==>
      && r.status == 200 && r.body.JoinedRows?
      && forall j :: j in r.body.joined ==> j.post in posts && AuthoredBy(users, j)
  {
    ListJoined(Join(posts, users), ALL_POSTS_NOT_FOUND)
  }

  /** GET /posts/:id. */
  function GetPost(posts: seq<Post>, id: int): (r: Response)
    ensures r == Response(404, Error(POST_NOT_FOUND)) <==> forall p :: p in posts ==> p.id != id
    ensures r.status != 404 ==>
      && r.status == 200 && r.body.PostRows?
      && forall p :: p in r.body.rows <==> p in posts && p.id == id
  {
    FilterFirst(posts, PostWithId(id));
    ListPosts(Filter(posts, PostWithId(id)), POST_NOT_FOUND)
  }

  /** GET /postss/:id: the post with that id, joined with its author. */
  function GetPostJoined(users: seq<User>, posts: seq<Post>, id: int): (r: Response)
    ensures r == Response(404, Error(POST_NOT_FOUND))
        <==> forall p :: p in posts && p.id == id ==> !HasUser(users, p.userId)
    ensures r.status != 404 ==>
      && r.status == 200 && r.body.JoinedRows?
      && forall j :: j in r.body.joined ==> j.post in posts && j.post.id == id && AuthoredBy(users, j)
  {
    ListJoined(Join(Filter(posts, PostWithId(id)), users), POST_NOT_FOUND)
  }

  /** GET /postTitle/:id: the title column of the first row with that id. */
  function GetPostTitle(posts: seq<Post>, id: int): (r: Response)
    ensures r == Response(404, Error(TITLE_NOT_FOUND)) <==> forall p :: p in posts ==> p.id != id
    ensures r.status != 404 ==>
      && r.status == 200
      && exists i :: IsFirst(posts, PostWithId(id), i) && r.body == Scalar(posts[i].title)
  {
    var rows := Filter(posts, PostWithId(id));
    FilterFirst(posts, PostWithId(id));
    if |rows| > 0 then Response(200, Scalar(rows[0].title)) else Response(404, Error(TITLE_NOT_FOUND))
  }

  /** GET /postContent/:id: the content column of the first row with that id. */
  function GetPostContent(posts: seq<Post>, id: int): (r: Response)
    ensures r == Response(404, Error(CONTENT_NOT_FOUND)) <==> forall p :: p in posts ==> p.id != id
    ensures r.status != 404 ==>
      && r.status == 200
      && exists i :: IsFirst(posts, PostWithId(id), i) && r.body == Scalar(posts[i].content)
  {
    var rows := Filter(posts, PostWithId(id));
    FilterFirst(posts, PostWithId(id));
    if |rows| > 0 then Response(200, Scalar(rows[0].content)) else Response(404, Error(CONTENT_NOT_FOUND))
  }

  /** GET /posts/user/:user_id. */
  function GetUserPosts(posts: seq<Post>, userId: int): (r: Response)
    ensures r == Response(404, Error(USER_POSTS_NOT_FOUND)) <==> forall p :: p in posts ==> p.userId != userId
    ensures r.status != 404 ==>
      && r.status == 200 && r.body.PostRows?
      && forall p :: p in r.body.rows <==> p in posts && p.userId == userId
  {
    FilterFirst(posts, PostByUser(userId));
    ListPosts(Filter(posts, PostByUser(userId)), USER_POSTS_NOT_FOUND)
  }

  /** GET /postss/user/:user_id: that user's posts, joined with the user. */
  function GetUserPostsJoined(users: seq<User>, posts: seq<Post>, userId: int): (r: Response)
    ensures r == Response(404, Error(USER_POSTS_NOT_FOUND))
        <==> !HasUser(users, userId) || forall p :: p in posts ==> p.userId != userId
    ensures r.status != 404 ==>
      && r.status == 200 && r.body.JoinedRows?
      && forall j :: j in r.body.joined ==> j.post in posts && j.post.userId == userId && AuthoredBy(users, j)
  {
    ListJoined(Join(Filter(posts, PostByUser(userId)), users), USER_POSTS_NOT_FOUND)
  }

  /** With unique post ids, GET /posts/:id finds exactly the one row with that id. */
  lemma GetPostFindsOne(posts: seq<Post>, id: int)
    requires UniquePostIds(posts)
    ensures GetPost(posts, id).status == 200 ==> |GetPost(posts, id).body.rows| == 1
  {
    AtMostOneWithId(posts, id);
  }

  /**
   * GET /posts/user/:user_id returns each of the user's rows exactly as often
   * as the table holds it; with unique post ids no row is repeated.
   */
  lemma GetUserPostsExact(posts: seq<Post>, userId: int)
    ensures GetUserPosts(posts, userId).status == 200 ==>
      forall p: Post :: p.userId == userId ==>
        multiset(GetUserPosts(posts, userId).body.rows)[p] == multiset(posts)[p]
    ensures GetUserPosts(posts, userId).status == 200 && UniquePostIds(posts) ==>
      UniquePostIds(GetUserPosts(posts, userId).body.rows)
  {
    var others := (p: Post) => p.userId != userId;
    FilterPartition(posts, PostByUser(userId), others);
    if UniquePostIds(posts) {
      FilterKeepsUniquePostIds(posts, PostByUser(userId));
    }
    forall p: Post | p.userId == userId
      ensures multiset(Filter(posts, PostByUser(userId)))[p] == multiset(posts)[p]
    {
      assert p !in Filter(posts, others);
    }
  }

  /**
   * With unique user ids, GET /postss lists each post whose author exists
   * exactly once, in table order, and drops the posts without one.
   */
  lemma JoinedReadDropsOrphans(users: seq<User>, posts: seq<Post>)
    requires UniqueUserIds(users)
    ensures GetPostsJoined(users, posts).status == 200 ==>
      PostsOf(GetPostsJoined(users, posts).body.joined) == Filter(posts, HasAuthor(users))
  {
    JoinUnique(posts, users);
  }

  /**
   * Reads after POST /posts appends a row with a fresh id: GET /posts/:id
   * finds exactly that row, and GET /posts/user/:user_id answers with the
   * user's earlier posts, in order, followed by the new one.
   */
  lemma ReadAfterCreate(posts: seq<Post>, created: Post)
    requires forall q :: q in posts ==> q.id != created.id
    ensures GetPost(posts + [created], created.id) == Response(200, PostRows([created]))
    ensures GetUserPosts(posts + [created], created.userId)
            == Response(200, PostRows(Filter(posts, PostByUser(created.userId)) + [created]))
  {
    FilterConcat(posts, [created], PostWithId(created.id));
    FilterConcat(posts, [created], PostByUser(created.userId));
    FilterFirst(posts, PostWithId(created.id));
    assert Filter([created], PostWithId(created.id)) == [created];
    assert Filter([created], PostByUser(created.userId)) == [created];
    forall i | 0 <= i < |posts| ensures !PostWithId(created.id)(posts[i]) {
      assert posts[i] in posts;
    }
  }

  /**
   * When every post has an author and user ids are unique (as `Db.Store`
   * keeps them), each joined read answers with the same status as its
   * plain counterpart and with the same posts, in the same order.
   */
  lemma JoinedReadsAgree(users: seq<User>, posts: seq<Post>, id: int, userId: int)
    requires UniqueUserIds(users) && PostsHaveUsers(users, posts)
    ensures GetPostsJoined(users, posts).status == GetPosts(posts).status
    ensures GetPosts(posts).status == 200 ==>
      PostsOf(GetPostsJoined(users, posts).body.joined) == GetPosts(posts).body.rows
    ensures GetPostJoined(users, posts, id).status == GetPost(posts, id).status
    ensures GetPost(posts, id).status == 200 ==>
      PostsOf(GetPostJoined(users, posts, id).body.joined) == GetPost(posts, id).body.rows
    ensures GetUserPostsJoined(users, posts, userId).status == GetUserPosts(posts, userId).status
    ensures GetUserPosts(posts, userId).status == 200 ==>
      PostsOf(GetUserPostsJoined(users, posts, userId).body.joined) == GetUserPosts(posts, userId).body.rows
  {
    JoinComplete(posts, users);
    var byId := Filter(posts, PostWithId(id));
    var byUser := Filter(posts, PostByUser(userId));
    JoinComplete(byId, users);
    JoinComplete(byUser, users);
    PostsOfEmpty(Join(posts, users));
    PostsOfEmpty(Join(byId, users));
    PostsOfEmpty(Join(byUser, users));
  }

  lemma PostsOfEmpty(rows: seq<JoinedPost>)
    ensures PostsOf(rows) == [] <==> rows == []
  {
  }
}
