/** The HTTP responses the handlers send: a status code and a JSON body. */
module Responses {
  import opened Wrappers
  import opened Tables
  import opened Services

  datatype Body =
    | Message(message: string)                        // {message}
    | Error(error: string)                            // {error}
    | AuthResult(auth: bool, token: Option<Token>)    // {auth, token}; None is `null`
    | UsernameOf(username: Option<string>)            // {username}
    | PostRows(rows: seq<Post>)                       // an array of post rows
    | JoinedRows(joined: seq<JoinedPost>)             // an array of joined rows
    | Scalar(value: Option<string>)                   // one column value; None is `null`
    | PostRow(row: Option<Post>)                      // one row; None is an empty body
    | ServerError                                     // {error: <library or driver message>}

  datatype Response = Response(status: int, body: Body)

  const SIGNUP_DUPLICATE := "Username or email already exist"
  const SIGNUP_OK := "User has been registered successfully"
  const SIGNIN_UNKNOWN := "Incorrect username or email"
  const ACCESS_DENIED := "Access denied"
  const INVALID_TOKEN := "Invalid token"
  const ALL_POSTS_NOT_FOUND := "All posts not found"
  const POST_NOT_FOUND := "Post with that id is not found"
  const TITLE_NOT_FOUND := "Post title with that id is not found"
  const CONTENT_NOT_FOUND := "Post content with that id is not found"
  const USER_POSTS_NOT_FOUND := "No post found for this user"
  const USER_NOT_FOUND := "User not found"
  const POST_DELETED := "The item has been deleted successfully"

  /** The response of a handler whose library call threw (bcrypt on an absent password). */
  const FAILED := Response(500, ServerError)
}
