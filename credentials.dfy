/** Registration and login: `POST /register` (server.js:112-186) and
    `POST /login` (server.js:188-220). Password hashing and comparison are
    bcrypt's and enter as function parameters over strings; bcrypt rejects
    any other argument, which the handlers answer with 500. Token signing is
    left out and responses carry the claims the token would be signed over. */
module Credentials {
  import opened Values
  import opened Tables
  import opened Query

  /** Role every self-registered account gets (the student role). */
  const STUDENT_ROLE: int := 50
  /** `auth_provider` of accounts created with a password. */
  const LOCAL_PROVIDER: string := "local"
  /** Lifetime passed to the token signer. */
  const TOKEN_EXPIRY: string := "1h"

  /** The payload of an issued token; login does not put the email in it. */
  datatype Claims = Claims(userId: nat, userName: Value, email: Option<Value>, roleId: int, expiresIn: string)

  /** The `user` object of a 201 registration response. */
  datatype UserSummary = UserSummary(id: nat, name: Value, email: Value, roleId: int)

  datatype RegisterRequest = RegisterRequest(name: Value, email: Value, password: Value)
  {
    /** None of `!name || !email || !password` holds. */
    predicate Complete() {
      name.Truthy() && email.Truthy() && password.Truthy()
    }
  }

  datatype RegisterResponse =
    | MissingFields
    | EmailTaken
    | HashRejected
    | Registered(token: Claims, user: UserSummary)
  {
    function Status(): int {
      match this
      case MissingFields => 400
      case EmailTaken => 409
      case HashRejected => 500
      case Registered(_, _) => 201
    }
  }

  /** The `user` table together with its auto-increment counter. */
  datatype UserTable = UserTable(rows: seq<UserRow>, nextId: nat)

  datatype RegisterOutcome = RegisterOutcome(response: RegisterResponse, table: UserTable)

  datatype LoginResponse =
    | UserNotFound
    | InvalidCredentials
    | CompareRejected
    | LoggedIn(token: Claims, userName: Value)
  {
    function Status(): int {
      match this
      case UserNotFound => 400
      case InvalidCredentials => 400
      case CompareRejected => 500
      case LoggedIn(_, _) => 200
    }
  }

  /** `WHERE email = ?`, for one row. */
  predicate HasEmail(row: UserRow, email: Value) {
    SqlEq(row.email, email)
  }

  /** No two accounts share an email. */
  predicate DistinctEmails(rows: seq<UserRow>) {
    forall i, j :: 0 <= i < j < |rows| ==> !HasEmail(rows[i], rows[j].email)
  }

  /** Every stored user id was issued before the counter's current value. */
  predicate UserIdsBelow(rows: seq<UserRow>, nextId: nat) {
    forall i :: 0 <= i < |rows| ==> rows[i].userId < nextId
  }

  /** Index of the first account with the email, if any. */
  function FindUser(rows: seq<UserRow>, email: Value): (r: Option<nat>)
    ensures r.Some? ==> r.value < |rows| && HasEmail(rows[r.value], email)
    ensures r.Some? ==> forall j :: 0 <= j < r.value ==> !HasEmail(rows[j], email)
    ensures r.None? <==> forall j :: 0 <= j < |rows| ==> !HasEmail(rows[j], email)
  {
    First(rows, (row: UserRow) => HasEmail(row, email))
  }

  /** The row registration inserts: the hash of the password under `salt`,
      the student role, the local provider and no external id. */
  function NewUser(id: nat, req: RegisterRequest, salt: string, hash: (string, string) -> string): UserRow
    requires req.password.Str?
  {
    UserRow(id, req.name, req.email, Str(hash(req.password.s, salt)), STUDENT_ROLE, LOCAL_PROVIDER, Null)
  }

  /** The registration handler's effect on `user` and its response; `salt`
      is what the salt generator returned for this call. A falsy field gives
      400 and a known email 409; a password bcrypt refuses to hash (a
      non-string) gives 500; each leaves the table as it was. Otherwise one
      student account is appended under the next id, and the 201 response
      and the token's claims say role 50. */
  function Register(t: UserTable, req: RegisterRequest, salt: string, hash: (string, string) -> string): (r: RegisterOutcome)
    ensures r.response.Status() == 400 <==> !req.Complete()
    ensures r.response.Status() == 409 <==> req.Complete() && FindUser(t.rows, req.email).Some?
    ensures r.response.Status() == 500 <==>
      req.Complete() && FindUser(t.rows, req.email).None? && !req.password.Str?
    ensures !r.response.Registered? ==> r.table == t
    ensures r.response.Registered? ==>
      && req.password.Str?
      && r.table.rows == t.rows + [UserRow(t.nextId, req.name, req.email, Str(hash(req.password.s, salt)), 50, "local", Null)]
      && r.table.nextId == t.nextId + 1
      && r.response.user == UserSummary(t.nextId, req.name, req.email, 50)
      && r.response.token == Claims(t.nextId, req.name, Some(req.email), 50, "1h")
  {
    if !req.Complete() then RegisterOutcome(MissingFields, t)
    else if FindUser(t.rows, req.email).Some? then RegisterOutcome(EmailTaken, t)
    else if !req.password.Str? then RegisterOutcome(HashRejected, t)
    else
      var id := t.nextId;
      var claims := Claims(id, req.name, Some(req.email), STUDENT_ROLE, TOKEN_EXPIRY);
      var summary := UserSummary(id, req.name, req.email, STUDENT_ROLE);
      RegisterOutcome(Registered(claims, summary), UserTable(t.rows + [NewUser(id, req, salt, hash)], id + 1))
  }

  /** Both arguments of `compare` are strings, as bcrypt demands. */
  predicate Comparable(password: Value, stored: Value) {
    password.Str? && stored.Str?
  }

  /** Login reads the first account with the email: "user not found" when
      there is none, 500 when bcrypt refuses the arguments, "invalid
      credentials" when `compare` rejects the password against its stored
      hash, and otherwise a token carrying that account's id, name and role. */
  function Login(rows: seq<UserRow>, email: Value, password: Value, compare: (string, string) -> bool): (r: LoginResponse)
    ensures r.UserNotFound? <==> forall j :: 0 <= j < |rows| ==> !HasEmail(rows[j], email)
    ensures r.CompareRejected? <==>
      FindUser(rows, email).Some? && !Comparable(password, rows[FindUser(rows, email).value].password)
    ensures r.InvalidCredentials? <==>
      FindUser(rows, email).Some?
      && var stored := rows[FindUser(rows, email).value].password;
         Comparable(password, stored) && !compare(password.s, stored.s)
    ensures r.LoggedIn? ==>
      var u := rows[FindUser(rows, email).value];
      r == LoggedIn(Claims(u.userId, u.userName, None, u.roleId, TOKEN_EXPIRY), u.userName)
  {
    match FindUser(rows, email)
    case None => UserNotFound
    case Some(i) =>
      var u := rows[i];
      if !Comparable(password, u.password) then CompareRejected
      else if !compare(password.s, u.password.s) then InvalidCredentials
      else LoggedIn(Claims(u.userId, u.userName, None, u.roleId, TOKEN_EXPIRY), u.userName)
  }

  /** Registration keeps emails unique and ids below the counter; a new
      account's id differs from every stored one. */
  lemma RegisterPreservesInvariants(t: UserTable, req: RegisterRequest, salt: string, hash: (string, string) -> string)
    requires DistinctEmails(t.rows) && UserIdsBelow(t.rows, t.nextId)
    ensures var o := Register(t, req, salt, hash);
      DistinctEmails(o.table.rows) && UserIdsBelow(o.table.rows, o.table.nextId)
    ensures var o := Register(t, req, salt, hash);
      o.response.Registered? ==> forall i :: 0 <= i < |t.rows| ==> t.rows[i].userId != o.response.user.id
  {
    var o := Register(t, req, salt, hash);
    if o.response.Registered? {
      var rows := o.table.rows;
      assert forall j :: 0 <= j < |t.rows| ==> rows[j] == t.rows[j];
    }
  }

  /** After a successful registration, logging in with the same email
      succeeds exactly when the password is a string that `compare` accepts
      against the stored hash, and then names the new student; registering
      the email again is a conflict. */
  lemma RegisterThenLogin(t: UserTable, req: RegisterRequest, salt: string, hash: (string, string) -> string,
                          password: Value, compare: (string, string) -> bool, again: RegisterRequest, salt': string)
    requires Register(t, req, salt, hash).response.Registered?
    requires again.Complete() && again.email == req.email
    ensures var rows := Register(t, req, salt, hash).table.rows;
      var r := Login(rows, req.email, password, compare);
      && (r.LoggedIn? <==> password.Str? && compare(password.s, hash(req.password.s, salt)))
      && (r.LoggedIn? ==> r == LoggedIn(Claims(t.nextId, req.name, None, 50, "1h"), req.name))
      && Register(Register(t, req, salt, hash).table, again, salt', hash).response == EmailTaken
  {
    var row := NewUser(t.nextId, req, salt, hash);
    var p := (u: UserRow) => HasEmail(u, req.email);
    FirstAppend(t.rows, row, p);
    assert FindUser(t.rows + [row], req.email) == Some(|t.rows|);
  }
}
