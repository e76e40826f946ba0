/**
 * The guards of the `register` and `login` handlers in backend/routes.py.
 * A request body is a JSON object; a field the object lacks is `None`.
 * Issuing the access token is not modelled: a successful call returns the
 * user fields the response carries beside the token.
 */
module Auth {
  import opened Wrappers
  import opened Query
  import opened Models

  datatype RegisterRequest = RegisterRequest(username: Option<string>, password: Option<string>, email: Option<string>)
  datatype LoginRequest = LoginRequest(username: Option<string>, password: Option<string>)

  datatype AuthError = MissingFields | UsernameTaken | EmailTaken | InvalidCredentials

  /** The HTTP status each rejection is answered with. */
  function Status(e: AuthError): (code: nat)
    ensures code == 401 <==> e == InvalidCredentials
    ensures code != 401 ==> code == 400
  {
    match e
    case MissingFields => 400
    case UsernameTaken => 400
    case EmailTaken => 400
    case InvalidCredentials => 401
  }

  /** The `user` object of a successful response. */
  datatype UserView = UserView(id: nat, username: string, email: string)

  function ViewOf(u: UserRow): UserView {
    UserView(u.id, u.username, u.email)
  }

  function ByUsername(name: string): UserRow -> bool { (u: UserRow) => u.username == name }
  function ByEmail(email: string): UserRow -> bool { (u: UserRow) => u.email == email }

  predicate RegisterFieldsPresent(req: RegisterRequest) {
    req.username.Some? && req.password.Some? && req.email.Some?
  }

  ghost predicate UsernameTakenIn(users: seq<UserRow>, name: string) {
    exists i :: 0 <= i < |users| && users[i].username == name
  }

  ghost predicate EmailTakenIn(users: seq<UserRow>, email: string) {
    exists i :: 0 <= i < |users| && users[i].email == email
  }

  /**
   * The checks `register` makes before inserting, in the order it makes them:
   * all three keys present, then the username free, then the email free.
   */
  function RegisterCheck(users: seq<UserRow>, req: RegisterRequest): (r: Option<AuthError>)
    ensures r == Some(MissingFields) <==> !RegisterFieldsPresent(req)
    ensures r == Some(UsernameTaken) <==> RegisterFieldsPresent(req) && UsernameTakenIn(users, req.username.value)
    ensures r == Some(EmailTaken) <==>
              RegisterFieldsPresent(req) && !UsernameTakenIn(users, req.username.value) && EmailTakenIn(users, req.email.value)
    ensures r.None? <==>
              RegisterFieldsPresent(req) && !UsernameTakenIn(users, req.username.value) && !EmailTakenIn(users, req.email.value)
  {
    if !RegisterFieldsPresent(req) then Some(MissingFields)
    else if First(users, ByUsername(req.username.value)).Some? then Some(UsernameTaken)
    else if First(users, ByEmail(req.email.value)).Some? then Some(EmailTaken)
    else None
  }

  /** The row `register` inserts: `User(username, email)` followed by `set_password(password)`. */
  function NewUser(id: nat, req: RegisterRequest, kdf: Kdf, salt: string): (u: UserRow)
    requires RegisterFieldsPresent(req)
    ensures u.id == id && u.username == req.username.value && u.email == req.email.value
    ensures u.CheckPassword(kdf, req.password.value)
  {
    UserRow(id, req.username.value, req.email.value, PasswordHash("", "")).SetPassword(kdf, salt, req.password.value)
  }

  /** Inserting the row `register` builds keeps usernames and emails unique. */
  lemma RegisterKeepsUserTable(users: seq<UserRow>, nextId: nat, req: RegisterRequest, kdf: Kdf, salt: string)
    requires UserTable(users, nextId)
    requires RegisterCheck(users, req).None?
    ensures UserTable(users + [NewUser(nextId, req, kdf, salt)], nextId + 1)
  {
    var us := users + [NewUser(nextId, req, kdf, salt)];
    forall i, j | 0 <= i < j < |us|
      ensures us[i].id != us[j].id && us[i].username != us[j].username && us[i].email != us[j].email
    {
      if j == |users| {
        assert us[i] == users[i];
      }
    }
  }

  /** `login`: both keys present, then the first user with that username, whose password must check. */
  function Login(users: seq<UserRow>, kdf: Kdf, req: LoginRequest): (r: Result<UserView, AuthError>)
    ensures r == Failure(MissingFields) <==> req.username.None? || req.password.None?
    ensures r.Failure? ==> r.error == MissingFields || r.error == InvalidCredentials
    ensures r.Success? ==> exists i :: 0 <= i < |users| && users[i].username == req.username.value
                                       && users[i].CheckPassword(kdf, req.password.value) && r.value == ViewOf(users[i])
    ensures req.username.Some? && req.password.Some? && !UsernameTakenIn(users, req.username.value)
            ==> r == Failure(InvalidCredentials)
  {
    if req.username.None? || req.password.None? then Failure(MissingFields)
    else
      match First(users, ByUsername(req.username.value))
      case Some(u) =>
        if u.CheckPassword(kdf, req.password.value) then Success(ViewOf(u)) else Failure(InvalidCredentials)
      case None => Failure(InvalidCredentials)
  }

  /**
   * With unique usernames, login succeeds exactly when some user has that
   * username and the password checks against that user's hash.
   */
  lemma LoginExact(users: seq<UserRow>, nextId: nat, kdf: Kdf, req: LoginRequest)
    requires UserTable(users, nextId)
    requires req.username.Some? && req.password.Some?
    ensures Login(users, kdf, req).Success? <==>
              exists i :: 0 <= i < |users| && users[i].username == req.username.value
                          && users[i].CheckPassword(kdf, req.password.value)
  {
    if exists i :: 0 <= i < |users| && users[i].username == req.username.value
                   && users[i].CheckPassword(kdf, req.password.value) {
      var i :| 0 <= i < |users| && users[i].username == req.username.value
               && users[i].CheckPassword(kdf, req.password.value);
      assert ByUsername(req.username.value)(users[i]);
      var u := First(users, ByUsername(req.username.value));
      var k :| 0 <= k < |users| && users[k] == u.value && ByUsername(req.username.value)(users[k]);
      assert i == k;
    }
  }

  /**
   * After a successful registration, logging in with the same username succeeds
   * with the registered password and returns the new user, and fails with 401
   * for any other password.
   */
  lemma RegisterThenLogin(users: seq<UserRow>, nextId: nat, kdf: Kdf, salt: string, req: RegisterRequest, password: string)
    requires Injective(kdf)
    requires RegisterCheck(users, req).None?
    ensures var u := NewUser(nextId, req, kdf, salt);
            Login(users + [u], kdf, LoginRequest(req.username, Some(password)))
            == if password == req.password.value then Success(ViewOf(u)) else Failure(InvalidCredentials)
  {
    var u := NewUser(nextId, req, kdf, salt);
    var us := users + [u];
    var p := ByUsername(req.username.value);
    assert p(us[|users|]);
    var f := First(us, p);
    var k :| 0 <= k < |us| && us[k] == f.value && p(us[k]);
    assert f == Some(u);
    if u.CheckPassword(kdf, password) {
      assert kdf(salt, password) == kdf(salt, req.password.value);
    }
  }
}
