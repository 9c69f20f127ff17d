/**
 * The `auth` middleware: it reads the `x-auth-token` header, verifies it
 * with the fixed key, looks the claimed id up in the users table and either
 * answers the request itself (401, or 500 when verification throws) or
 * attaches the id and the raw token to the request and calls `next`.
 */
module AuthMiddleware {
  import opened Options
  import opened Users
  import opened Jwt
  import opened Http

  const NO_TOKEN_MSG: string := "No auth token, access denied!!"
  const VERIFY_FAILED_MSG: string := "Token verification faild!!"
  const USER_NOT_FOUND_MSG: string := "User not found!!"

  /**
   * What the gate does with a request: `Reject` is the response it writes
   * without calling `next`; `Admit` is `req.user = user; req.token = token;
   * next()`.
   */
  datatype GateOutcome = Reject(response: Response) | Admit(user: UserId, token: Token)

  /** `if (!token)`: an absent header and the empty string are both falsy. */
  predicate Truthy(header: Option<Token>): (b: bool)
    ensures header.None? || header == Some(Malformed("")) ==> !b
    ensures header.Some? && header.value.Signed? ==> b
  {
    header.Some? && header.value != Malformed("")
  }

  /** The id a header's token verifies to under the key, if there is one. */
  function ClaimedId(header: Option<Token>): (r: Option<UserId>)
    ensures r.Some? <==> Truthy(header) && Verify(KEY, header.value).Decoded?
                         && Verify(KEY, header.value).claims.IdClaim?
    ensures r.Some? ==> header == Some(Sign(KEY, r.value))
  {
    if !Truthy(header) then None
    else
      match Verify(KEY, header.value)
      case Decoded(IdClaim(id)) => Some(id)
      case _ => None
  }

  /** The header's token verifies to the id of a user in the table. */
  ghost predicate Authentic(rows: seq<User>, header: Option<Token>)
  {
    ClaimedId(header).Some? && HasUserId(rows, ClaimedId(header).value)
  }

  /** The middleware. It only reads the table: there is no `modifies` clause. */
  method Auth(db: UserTable, header: Option<Token>) returns (outcome: GateOutcome)
    ensures !Truthy(header) ==> outcome == Reject(Response(UNAUTHORIZED, ErrorText(NO_TOKEN_MSG)))
    ensures Truthy(header) && Verify(KEY, header.value).Rejected? ==>
              outcome == Reject(Response(SERVER_ERROR, ErrorObject))
    ensures Truthy(header) && Verify(KEY, header.value) == Decoded(EmptyPayload) ==>
              outcome == Reject(Response(UNAUTHORIZED, ErrorText(VERIFY_FAILED_MSG)))
    ensures ClaimedId(header).Some? && !HasUserId(db.rows, ClaimedId(header).value) ==>
              outcome == Reject(Response(UNAUTHORIZED, ErrorText(USER_NOT_FOUND_MSG)))
    ensures outcome.Admit? <==> Authentic(db.rows, header)
    ensures outcome.Admit? ==> Some(outcome.user) == ClaimedId(header) && Some(outcome.token) == header
  {
    if !Truthy(header) {
      return Reject(Response(UNAUTHORIZED, ErrorText(NO_TOKEN_MSG)));
    }
    var token := header.value;
    var verified := Verify(KEY, token);
    if verified.Rejected? {
      // jwt.verify threw: the catch block answers
      return Reject(Response(SERVER_ERROR, ErrorObject));
    }
    if verified.claims.EmptyPayload? {
      return Reject(Response(UNAUTHORIZED, ErrorText(VERIFY_FAILED_MSG)));
    }
    var id := verified.claims.id;
    var found := Select(db.rows, IdIs(id));
    if found == [] {
      return Reject(Response(UNAUTHORIZED, ErrorText(USER_NOT_FOUND_MSG)));
    }
    assert found[0] in db.rows;
    outcome := Admit(id, token);
  }
}
