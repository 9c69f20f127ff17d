/**
 * The `/auth` router: signup inserts into the users table; login,
 * tokenIsValid and the body of `GET /` only read it. `GET /` runs behind
 * the `auth` middleware.
 */
module AuthRoutes {
  import opened Options
  import opened Bcrypt
  import opened Users
  import opened Jwt
  import opened Http
  import opened AuthMiddleware

  const DUPLICATE_EMAIL_MSG: string := "User with the same email exists!!"
  const UNKNOWN_EMAIL_MSG: string := "User with this email does not exist!!"
  const WRONG_PASSWORD_MSG: string := "Incorrect password!!"
  const NO_USER_MSG: string := "User not found!"

  datatype SignUpBody = SignUpBody(name: string, email: string, password: string)

  datatype LoginBody = LoginBody(email: string, password: string)

  /** The row signup stores for a request, given the salt and the id the database drew. */
  function NewRow(req: SignUpBody, salt: nat, id: UserId): (u: User)
    ensures u.id == id && u.name == req.name && u.email == req.email
    ensures Compare(req.password, u.password)
  {
    CompareHash(req.password, salt);
    User(id, req.name, req.email, Hash(req.password, salt))
  }

  /**
   * `POST /signup`: rejects a taken email with 400, otherwise stores the
   * name, the email and the password's digest under the new id and answers
   * 201 with the stored row. An insert the primary key refuses is caught: 500.
   */
  method Signup(db: UserTable, req: SignUpBody, salt: nat, newId: UserId) returns (resp: Response)
    requires db.Valid()
    modifies db
    ensures db.Valid()
    ensures EmailsUnique(old(db.rows)) ==> EmailsUnique(db.rows)
    ensures EmailTaken(old(db.rows), req.email) ==>
              resp == Response(BAD_REQUEST, Msg(DUPLICATE_EMAIL_MSG)) && db.rows == old(db.rows)
    ensures !EmailTaken(old(db.rows), req.email) && HasUserId(old(db.rows), newId) ==>
              resp == Response(SERVER_ERROR, ErrorObject) && db.rows == old(db.rows)
    ensures !EmailTaken(old(db.rows), req.email) && !HasUserId(old(db.rows), newId) ==>
              resp == Response(CREATED, Row(NewRow(req, salt, newId)))
              && db.rows == old(db.rows) + [NewRow(req, salt, newId)]
  {
    var existing := Select(db.rows, EmailIs(req.email));
    if |existing| > 0 {
      assert existing[0] in db.rows;
      return Response(BAD_REQUEST, Msg(DUPLICATE_EMAIL_MSG));
    }
    var hashed := Hash(req.password, salt);
    var user := User(newId, req.name, req.email, hashed);
    ghost var before := db.rows;
    var inserted := db.Insert(user);
    if inserted.None? {
      return Response(SERVER_ERROR, ErrorObject);
    }
    if EmailsUnique(before) {
      AppendKeepsEmailsUnique(before, user);
    }
    resp := Response(CREATED, Row(inserted.value));
  }

  /**
   * `POST /login`: looks the email up, compares the password with the first
   * matching row's digest, and only then signs a token for that row's id.
   */
  function Login(rows: seq<User>, req: LoginBody): (r: Response)
    ensures r.status == OK || r.status == BAD_REQUEST
    ensures r.status == OK <==> r.body.LoggedIn?
    ensures !EmailTaken(rows, req.email) ==> r == Response(BAD_REQUEST, Msg(UNKNOWN_EMAIL_MSG))
    ensures r.body.LoggedIn? ==>
              r.body.user in rows && r.body.user.email == req.email
              && Compare(req.password, r.body.user.password)
              && r.body.token == Sign(KEY, r.body.user.id)
  {
    var found := Select(rows, EmailIs(req.email));
    if found == [] then
      Response(BAD_REQUEST, Msg(UNKNOWN_EMAIL_MSG))
    else
      var user := found[0];
      assert user in found;
      if !Compare(req.password, user.password) then
        Response(BAD_REQUEST, Msg(WRONG_PASSWORD_MSG))
      else
        Response(OK, LoggedIn(Sign(KEY, user.id), user))
  }

  /**
   * `POST /tokenIsValid`: answers whether the header's token verifies to the
   * id of a stored user. A token that does not verify makes `jwt.verify`
   * throw, which the catch block answers with 500.
   */
  function TokenIsValid(rows: seq<User>, header: Option<Token>): (r: Response)
    ensures r.status == SERVER_ERROR <==> Truthy(header) && Verify(KEY, header.value).Rejected?
    ensures r.status != SERVER_ERROR ==> r == Response(OK, Flag(Authentic(rows, header)))
  {
    if !Truthy(header) then
      Response(OK, Flag(false))
    else
      match Verify(KEY, header.value)
      case Rejected => Response(SERVER_ERROR, ErrorObject)
      case Decoded(EmptyPayload) => Response(OK, Flag(false))
      case Decoded(IdClaim(id)) =>
        var found := Select(rows, IdIs(id));
        assert found != [] ==> found[0] in found;
        Response(OK, Flag(found != []))
  }

  /**
   * The handler of `GET /`, given the `user` and `token` fields the
   * middleware left on the request: 401 without a user, otherwise the row
   * with that id (absent if there is none) together with the token.
   */
  function CurrentUser(rows: seq<User>, user: Option<UserId>, token: Option<Token>): (r: Response)
    ensures user.None? ==> r == Response(UNAUTHORIZED, ErrorText(NO_USER_MSG))
    ensures user.Some? ==> r.status == OK && r.body.UserWithToken? && r.body.attached == token
    ensures user.Some? ==> (r.body.found.Some? <==> HasUserId(rows, user.value))
    ensures user.Some? && r.body.found.Some? ==>
              r.body.found.value in rows && r.body.found.value.id == user.value
  {
    if user.None? then
      Response(UNAUTHORIZED, ErrorText(NO_USER_MSG))
    else
      var found := Select(rows, IdIs(user.value));
      assert found != [] ==> found[0] in found;
      Response(OK, UserWithToken(if found == [] then None else Some(found[0]), token))
  }

  /**
   * `authRouter.get("/", auth, handler)`: the handler runs exactly when the
   * gate calls `next`, with the request fields the gate set.
   */
  method GetCurrentUser(db: UserTable, header: Option<Token>) returns (resp: Response)
    ensures resp.status == OK <==> Authentic(db.rows, header)
    ensures Authentic(db.rows, header) ==>
              resp.body.UserWithToken? && resp.body.attached == header
              && resp.body.found.Some? && resp.body.found.value in db.rows
              && Some(resp.body.found.value.id) == ClaimedId(header)
    ensures !Authentic(db.rows, header) ==>
              resp.status == (if Truthy(header) && Verify(KEY, header.value).Rejected?
                              then SERVER_ERROR else UNAUTHORIZED)
  {
    var outcome := Auth(db, header);
    match outcome
    case Reject(r) =>
      resp := r;
    case Admit(user, token) =>
      resp := CurrentUser(db.rows, Some(user), Some(token));
  }

  // Properties that relate several calls

  /** With unique emails, a known email whose digest does not match the password is refused. */
  lemma LoginWrongPassword(rows: seq<User>, req: LoginBody, u: User)
    requires EmailsUnique(rows)
    requires u in rows && u.email == req.email && !Compare(req.password, u.password)
    ensures Login(rows, req) == Response(BAD_REQUEST, Msg(WRONG_PASSWORD_MSG))
  {
    EmailsUniqueFor(rows, req.email);
    SelectMember(rows, u, EmailIs(req.email));
  }

  /** With unique emails, the right password for a stored email logs that user in. */
  lemma LoginSucceeds(rows: seq<User>, req: LoginBody, u: User)
    requires EmailsUnique(rows)
    requires u in rows && u.email == req.email && Compare(req.password, u.password)
    ensures Login(rows, req) == Response(OK, LoggedIn(Sign(KEY, u.id), u))
  {
    EmailsUniqueFor(rows, req.email);
    SelectMember(rows, u, EmailIs(req.email));
  }

  /** A token issued by login is accepted by the gate as the logged-in user's. */
  lemma LoginTokenAuthentic(rows: seq<User>, req: LoginBody)
    requires Login(rows, req).status == OK
    ensures Authentic(rows, Some(Login(rows, req).body.token))
    ensures ClaimedId(Some(Login(rows, req).body.token)) == Some(Login(rows, req).body.user.id)
    ensures TokenIsValid(rows, Some(Login(rows, req).body.token)) == Response(OK, Flag(true))
  {
    var r := Login(rows, req);
    VerifySign(KEY, r.body.user.id);
  }

  /** A user just signed up can log in with the same email and password. */
  lemma SignupThenLogin(rows: seq<User>, req: SignUpBody, salt: nat, id: UserId)
    requires !EmailTaken(rows, req.email)
    ensures Login(rows + [NewRow(req, salt, id)], LoginBody(req.email, req.password))
            == Response(OK, LoggedIn(Sign(KEY, id), NewRow(req, salt, id)))
  {
    var u := NewRow(req, salt, id);
    SelectNone(rows, EmailIs(req.email));
    SelectAppend(rows, u, EmailIs(req.email));
    CompareHash(req.password, salt);
  }

  /** With unique ids, the handler behind an admitting gate returns the one stored row of the admitted id. */
  lemma CurrentUserIsStoredRow(rows: seq<User>, u: User, token: Token)
    requires IdsUnique(rows) && u in rows
    ensures CurrentUser(rows, Some(u.id), Some(token)) == Response(OK, UserWithToken(Some(u), Some(token)))
  {
    IdsUniqueFor(rows, u.id);
    SelectMember(rows, u, IdIs(u.id));
  }

  /**
   * A whole session: after a successful signup, logging in with the same
   * credentials yields a token that the gate admits as the new user, and the
   * handler of `GET /` then returns the stored row with that token.
   */
  lemma SignupSession(rows: seq<User>, req: SignUpBody, salt: nat, id: UserId)
    requires IdsUnique(rows) && !EmailTaken(rows, req.email) && !HasUserId(rows, id)
    ensures var rows' := rows + [NewRow(req, salt, id)];
            var t := Sign(KEY, id);
            && Login(rows', LoginBody(req.email, req.password)) == Response(OK, LoggedIn(t, NewRow(req, salt, id)))
            && Authentic(rows', Some(t)) && ClaimedId(Some(t)) == Some(id)
            && CurrentUser(rows', ClaimedId(Some(t)), Some(t))
               == Response(OK, UserWithToken(Some(NewRow(req, salt, id)), Some(t)))
  {
    var u := NewRow(req, salt, id);
    SignupThenLogin(rows, req, salt, id);
    LoginTokenAuthentic(rows + [u], LoginBody(req.email, req.password));
    AppendKeepsIdsUnique(rows, u);
    assert u in rows + [u];
    CurrentUserIsStoredRow(rows + [u], u, Sign(KEY, id));
  }
}
