# Blog backend: request-handling logic over the users and posts tables

This project models the route handlers of a small Express blog API (`index.js`).
The API offers account sign-up and sign-in, a token-based identity lookup, and
CRUD access to posts stored in PostgreSQL. The database is modelled as two
tables held in memory:

- `users(id, username, email, password)`;
- `posts(id, user_id, title, content, created_at, updated_at)`.

Each table is a sequence of rows in storage order. Each SERIAL id column has a
counter for the next id. Every handler is an operation that returns a response
(a status and a JSON body); the writing handlers also update the tables.

- `Tables`: the row types and the row semantics of the SQL the handlers run.
  `Filter` is a `WHERE` clause, `Join` is the `INNER JOIN users ON
  posts.user_id = users.id`, and `SqlEq` is SQL `=`, where NULL matches nothing.
  A request field the client did not send (`undefined`) is `None`. An absent
  parameter binds as NULL, and NULL is also what an insert stores for it, so
  the text columns are `Option<string>`.
- `Services`: bcryptjs and jsonwebtoken, kept uninterpreted. `hash`, `compare`,
  `sign` and `verify` are function-valued fields of one configuration value.
  `sign` and `verify` are already bound to the process-wide secret. Tokens are
  signed with `expiresIn` = `TOKEN_TTL` = 86400 seconds.
- `Responses`: response bodies, status codes and the exact message strings.
- `Auth`: POST /signin and GET /username, as functions of the users table and
  the request.
- `Reads`: the GET handlers for posts, as functions of the tables.
- `Db`: class `Store` with the two tables and the two id counters as fields.
  Its methods are POST /signup, POST /posts, PUT /posts/:id and
  DELETE /posts/:id. `Valid()` is the integrity they keep:
  - user ids and post ids are distinct and below their counters;
  - no two users share a non-NULL username or a non-NULL email;
  - every post belongs to an existing user.
- `Scenario`: two client methods that replay a short session:
  - register alice, then refuse a second alice;
  - sign in with the right and the wrong password;
  - look up the username with the issued token;
  - try to post for user 999, who does not exist.

The current time (`CURRENT_TIMESTAMP`) is a parameter `now` of the handlers
that stamp rows.

Points where the code behaves differently from what a reader of the API's
intent might expect (the model follows the code):

- Sign-up hashes the password before it looks for a duplicate user
  (index.js:49-53). bcrypt throws when no password was sent, so a sign-up
  without a password fails with 500, even for a username that is already taken.
  One would expect a duplicate to be refused with 400 before any hashing; the
  code does not do that.
- Sign-in answers "user not found" and "wrong password" with different bodies:
  `{message: "Incorrect username or email"}` and `{auth: false, token: null}`
  (index.js:93, 103). A caller can therefore tell the two failures apart,
  although the `{auth: false, token: null}` shape suggests the intent of not
  revealing which factor failed.
  A matching user with no password sent gets 500, because `bcrypt.compare`
  throws.
- GET /username treats an empty `Authorization` header like a missing one.
  The check is JavaScript falsiness (`!authToken`, index.js:126).
- PUT /posts/:id always answers 200. When no row has the id, `rows[0]` is
  undefined and the body is empty (index.js:361). DELETE /posts/:id always
  reports success (index.js:377).

## Model

| member | source | states |
|---|---|---|
| Tables.Filter | index.js:187 | the rows a WHERE clause returns are exactly the table's rows that satisfy it, never more rows than the table |
| Tables.FilterFirst | index.js:90 | a query result is empty iff no row matches; otherwise `rows[0]` is the first matching row in table order |
| Tables.FilterConcat | index.js:333 | filtering keeps the relative order of rows: a filtered concatenation is the concatenation of the filtered parts |
| Tables.FilterAll | index.js:376 | a filter every row passes returns the table unchanged |
| Tables.FilterPartition | index.js:376 | the rows a DELETE removes and the rows it keeps make up the old table as a multiset |
| Tables.FilterKeepsUniquePostIds | index.js:376 | removing rows keeps post ids distinct |
| Tables.AtMostOneWithId | index.js:187 | with distinct post ids, `WHERE id = $1` returns at most one row |
| Tables.JoinOne | index.js:167 | one post joins with exactly the users whose id is its user_id: every row comes from such a user, every such user contributes a row, the row count equals the number of such users, and there is no row iff no such user exists |
| Tables.Join | index.js:167 | every joined row is a table post carrying the username of a user with the post's user_id; the join is empty iff no post has an existing author |
| Tables.JoinOneUnique | index.js:167 | with distinct user ids a post yields one joined row if its author exists and none otherwise |
| Tables.JoinUnique | index.js:167 | with distinct user ids the join lists each post that has an author exactly once, in table order, and drops the others |
| Tables.JoinComplete | index.js:167 | when user ids are distinct and every post has an author (as the store keeps it), the join returns every post once, in order |
| Auth.Signin | index.js:79-119 | 400 "Incorrect username or email" iff no user matches username OR email; 500 iff a user matches but no password was sent; 400 `{auth: false, token: null}` iff the first match's hash rejects the password; 200 iff it accepts it, with a token signed over the first match's id, username and email for 86400 s; no failure carries a token |
| Auth.Username | index.js:122-139 | 400 "Access denied" iff the header is missing or empty; 400 "Invalid token" iff it is present and does not verify; otherwise 200 with the username from the verified claims; the tables are not consulted |
| Auth.SigninThenUsername | index.js:106-134 | if the token library round-trips its tokens and never issues an empty one, the token from a successful sign-in makes /username answer with the username of the signed-in row |
| Reads.GetPosts | index.js:144-159 | 404 "All posts not found" iff the table is empty; otherwise 200 with all posts |
| Reads.GetPostsJoined | index.js:162-179 | 404 iff no post has an existing author; otherwise 200 with joined rows, each a table post with a username of a user whose id is its user_id |
| Reads.GetPost | index.js:182-200 | 404 "Post with that id is not found" iff no post has the id; otherwise 200 with exactly the posts with that id |
| Reads.GetPostJoined | index.js:203-224 | 404 iff no post with the id has an existing author; otherwise 200 with joined rows of posts with that id and their authors' usernames |
| Reads.GetPostTitle | index.js:227-247 | 404 "Post title with that id is not found" iff no post has the id; otherwise 200 with the title of the first post with that id |
| Reads.GetPostContent | index.js:250-270 | 404 "Post content with that id is not found" iff no post has the id; otherwise 200 with the content of the first post with that id |
| Reads.GetUserPosts | index.js:273-293 | 404 "No post found for this user" iff no post has the user_id; otherwise 200 with rows that are that user's posts and only those |
| Reads.GetUserPostsExact | index.js:278-283 | a 200 from GET /posts/user/:user_id holds each of the user's rows exactly as often as the table does; with distinct post ids no row is repeated |
| Reads.GetUserPostsJoined | index.js:296-317 | 404 iff the user does not exist or has no posts; otherwise 200 with joined rows of that user's posts and the user's username |
| Reads.GetPostFindsOne | index.js:187-190 | with distinct post ids, a successful GET /posts/:id returns exactly one row |
| Reads.JoinedReadDropsOrphans | index.js:166-171 | with distinct user ids, GET /postss lists each post whose author exists exactly once, in order, and drops orphaned posts |
| Reads.ReadAfterCreate | index.js:333-338 | after a post with a fresh id is appended, GET /posts/:id returns exactly that row and GET /posts/user/:user_id returns the user's earlier posts in order followed by the new one |
| Reads.JoinedReadsAgree | index.js:166-309 | in a consistent store each `/postss` read answers with the same status and the same posts, in the same order, as its `/posts` counterpart |
| Db.Store.constructor | index.js:38-384 | the database state the handlers find at start-up: any tables and id counters that satisfy the integrity the writing handlers keep, installed unchanged |
| Db.Store.Signup | index.js:42-76 | no password: 500 and nothing changes; a user with the same username or email: 400 "Username or email already exist" and nothing changes; otherwise 200 and exactly one user appended with the next id, the given username and email and `hash(password)`; posts untouched; the invariant (unique usernames and emails included) is kept |
| Db.Store.CreatePost | index.js:320-348 | user_id of no user (or absent): 404 "User not found" and the posts table is unchanged; otherwise exactly one post appended with the next id, that user_id, title and content, `created_at` = now and NULL `updated_at`, and that row returned; users untouched |
| Db.Store.UpdatePost | index.js:351-368 | rows with the id get the new title, content and `updated_at` = now; every other row and field is unchanged; always 200, with an updated row, or an empty body iff no row had the id |
| Db.Store.DeletePost | index.js:371-384 | the table becomes the rows without that id, in their old order; deleted and kept rows make up the old table; an absent id changes nothing; always 200 with the success message |

## Left out

- The Express app, routing, CORS, JSON body parsing, GET / and `app.listen` (index.js:13-16, 387-393): HTTP plumbing.
- The pg pool, `pool.connect()`, `client.release()` and `getPostgresVersion` (index.js:18-36): connection management and I/O. The `/posts` and `/postss` handlers never release their client (index.js:144-179). Each call leaks one pooled client; once all are leaked, `pool.connect()` waits forever and every handler except GET /username stops answering. The model's responses describe the server only before that point.
- The internals of bcryptjs (salt generation, cost factor 12) and jsonwebtoken (HMAC signing, the `iat` claim, checking expiry against the wall clock): foreign library code and cryptography. `hash` is a deterministic function here. Expiry is not expressible: `verify` takes no time and is fixed at start-up, so a token's validity never changes in the model; `verify` stands for verification within the 24-hour window, and the round-trip hypothesis of `Auth.SigninThenUsername` holds only inside that window. No hash or token round-trip is proved; the lemma and the scenario that need one take it as a hypothesis.
- The 500 responses for database driver failures and the `console.log` calls: driver failures and logging. The one 500 path modelled is bcrypt throwing on an absent password, with its error message abstracted to `ServerError`.
- Environment configuration (`DATABASE_URL`, `SECRET_KEY`, `PORT`).
- The model assumes `SECRET_KEY` is set in the process environment. index.js:7 reads it before `dotenv` is loaded at index.js:11, so a secret set only in `.env` is `undefined`: then `jwt.sign` throws and every correct sign-in answers 500, and `jwt.verify` always fails so GET /username always answers "Invalid token". That configuration is not modelled.
- Path parameters and ids are unbounded integers. A non-numeric `:id` makes PostgreSQL reject the query with a 500, which is not modelled. An id outside the column's integer range (a SERIAL column is a 32-bit `integer`), in a path parameter or in the `user_id` of POST /posts, or an exhausted id sequence on insert, also gives a 500, which is not modelled.
- Request body fields: `username`, `email`, `password`, `title` and `content` are strings or absent, and the `user_id` of POST /posts is an integer or absent. Other JSON types are not modelled; in particular a `user_id` PostgreSQL cannot read as an integer gives a 500, which is not modelled.
- The SQL engine beyond the row semantics of the statements: query results and `RETURNING` rows come in table order, although PostgreSQL does not promise an order without ORDER BY. The table schema is not part of the source, so NOT NULL, UNIQUE and foreign-key constraints are not modelled, and `updated_at` is taken to be NULL on insert.
- Concurrency: requests are handled one at a time, with no interleaving between a handler's statements. This matters for `Db.Store.Valid()`: its unique-username and unique-email guarantee holds only because requests never interleave. In the real server two concurrent sign-ups with the same username can both pass the lookup (index.js:50-58) before either inserts (index.js:65), since the handler runs no transaction and no UNIQUE constraint is visible in the source; both users would then be stored.
