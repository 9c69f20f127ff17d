/** The responses the handlers write: a status code and the meaningful part of the JSON body. */
module Http {
  import opened Options
  import opened Users
  import opened Jwt

  const OK: nat := 200
  const CREATED: nat := 201
  const BAD_REQUEST: nat := 400
  const UNAUTHORIZED: nat := 401
  const SERVER_ERROR: nat := 500

  datatype Body =
    | Msg(msg: string)                                   // { msg: "..." }
    | ErrorText(error: string)                           // { error: "..." }
    | ErrorObject                                        // { error: err }, the caught exception
    | Row(user: User)                                    // the inserted row
    | LoggedIn(token: Token, user: User)                 // { token, ...user }
    | Flag(flag: bool)                                   // true / false
    | UserWithToken(found: Option<User>, attached: Option<Token>)  // { ...user, token }

  datatype Response = Response(status: nat, body: Body)
}
