/**
 * The two foreign libraries the handlers call, kept uninterpreted: bcryptjs
 * (hash with cost factor 12, compare) and jsonwebtoken (sign, verify), the
 * latter already bound to the process-wide secret. A value of `Services` is
 * the configuration object built once at start-up and passed to every handler.
 */
module Services {
  import opened Wrappers
  import opened Tables

  type Token = string

  /** The claims a token carries: the signed-in user's id, username and email. */
  datatype Claims = Claims(id: int, username: Option<string>, email: Option<string>)

  datatype Services = Services(
    hash: string -> string,
    compare: (string, string) -> bool,
    sign: (Claims, nat) -> Token,
    verify: Token -> Option<Claims>)

  /** `expiresIn` of every issued token: 24 hours, in seconds. */
  const TOKEN_TTL: nat := 86400

  /** The payload `{id, username, email}` signed for a user row. */
  function ClaimsOf(u: User): Claims
  {
    Claims(u.id, u.username, u.email)
  }
}
