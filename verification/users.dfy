/**
 * The user store (`App\Model\UserManager`): a table of users looked up by
 * e-mail, with the Nette authenticator and the three password-reset state
 * changes. Both generations of the class run the same statements (the
 * legacy one calls `Passwords` statically), so this one model serves both.
 *
 * Password hashing and verification are foreign (`Passwords`); a newReset hash
 * or a random reset hash (`newReset`) is passed in as the value the call produced.
 */
module Users {
  import opened Common

  datatype UserRow = UserRow(id: int, name: string, email: string, role: string, password: string, resetHash: Option<string>)

  /** The `user` table, one row per e-mail address. */
  type UserTable = map<string, UserRow>

  ghost predicate WellKeyed(users: UserTable) {
    forall e :: e in users ==> users[e].email == e
  }

  /** `IAuthenticator::IDENTITY_NOT_FOUND` and `IAuthenticator::INVALID_CREDENTIAL`. */
  const IdentityNotFound: int := 1
  const InvalidCredential: int := 2

  /** The foreign password routines the authenticator consults. */
  datatype Passwords = Passwords(verify: (string, string) -> bool, needsRehash: string -> bool)

  /** The identity's data: the row without its password hash. */
  datatype IdentityData = IdentityData(id: int, name: string, email: string, role: string, resetHash: Option<string>)

  datatype Identity = Identity(id: int, role: string, data: IdentityData)

  datatype AuthOutcome =
    | Authenticated(users: UserTable, identity: Identity)
    | AuthFailed(code: int)

  /** `getUserByEmail`: the row, or a UserNotFoundException. */
  function GetUserByEmail(users: UserTable, email: string): (r: Result<UserRow, ()>)
    ensures r.Err? <==> email !in users
    ensures r.Ok? ==> r.value == users[email]
  {
    if email in users then Ok(users[email]) else Err(())
  }

  function Strip(row: UserRow): IdentityData {
    IdentityData(row.id, row.name, row.email, row.role, row.resetHash)
  }

  /**
   * `authenticate`: unknown e-mail, then wrong password, fail with their
   * codes; a success rehashes the stored password when the hash is outdated
   * (`rehashed` is the new hash) and returns the identity.
   */
  function Authenticate(users: UserTable, email: string, password: string, pw: Passwords, rehashed: string): (r: AuthOutcome)
    ensures r.AuthFailed? <==> email !in users || !pw.verify(password, users[email].password)
    ensures r.AuthFailed? ==> r.code == if email !in users then IdentityNotFound else InvalidCredential
    ensures r.Authenticated? ==>
      && r.users.Keys == users.Keys
      && (forall e :: e in users && e != email ==> r.users[e] == users[e])
      && r.users[email] == users[email].(password := if pw.needsRehash(users[email].password) then rehashed else users[email].password)
      && r.identity.id == users[email].id
      && r.identity.role == users[email].role
  {
    match GetUserByEmail(users, email)
    case Err(_) => AuthFailed(IdentityNotFound)
    case Ok(row) =>
      if !pw.verify(password, row.password) then AuthFailed(InvalidCredential)
      else
        var row1 := if pw.needsRehash(row.password) then row.(password := rehashed) else row;
        Authenticated(users[email := row1], Identity(row.id, row.role, Strip(row1)))
  }

  /** `startReset`: store a newReset reset hash and return it. */
  function StartReset(users: UserTable, email: string, newReset: string): (r: Result<(UserTable, string), ()>)
    ensures r.Err? <==> email !in users
    ensures r.Ok? ==> r.value.1 == newReset && r.value.0.Keys == users.Keys
    ensures r.Ok? ==> r.value.0[email] == users[email].(resetHash := Some(newReset))
    ensures r.Ok? ==> forall e :: e in users && e != email ==> r.value.0[e] == users[e]
  {
    match GetUserByEmail(users, email)
    case Err(_) => Err(())
    case Ok(row) => Ok((users[email := row.(resetHash := Some(newReset))], newReset))
  }

  /** `stopReset`: clear the reset hash. */
  function StopReset(users: UserTable, email: string): (r: Result<UserTable, ()>)
    ensures r.Err? <==> email !in users
    ensures r.Ok? ==> r.value.Keys == users.Keys && r.value[email] == users[email].(resetHash := None)
    ensures r.Ok? ==> forall e :: e in users && e != email ==> r.value[e] == users[e]
  {
    match GetUserByEmail(users, email)
    case Err(_) => Err(())
    case Ok(row) => Ok(users[email := row.(resetHash := None)])
  }

  /** `setPassword`: store the new hash and clear the reset hash. */
  function SetPassword(users: UserTable, email: string, newHash: string): (r: Result<UserTable, ()>)
    ensures r.Err? <==> email !in users
    ensures r.Ok? ==> r.value.Keys == users.Keys && r.value[email] == users[email].(password := newHash, resetHash := None)
    ensures r.Ok? ==> forall e :: e in users && e != email ==> r.value[e] == users[e]
  {
    match GetUserByEmail(users, email)
    case Err(_) => Err(())
    case Ok(row) => Ok(users[email := row.(password := newHash, resetHash := None)])
  }

  // ---------------------------------------------------------------------------
  // Properties
  // ---------------------------------------------------------------------------

  /** A failed login changes nothing; a successful one changes at most the password column of that user. */
  lemma AuthenticateOnlyRehashes(users: UserTable, email: string, password: string, pw: Passwords, rehashed: string)
    requires Authenticate(users, email, password, pw, rehashed).Authenticated?
    ensures var r := Authenticate(users, email, password, pw, rehashed);
      && r.users[email].(password := users[email].password) == users[email]
      && (r.users == users <==> !pw.needsRehash(users[email].password) || rehashed == users[email].password)
  {
    var r := Authenticate(users, email, password, pw, rehashed);
    if r.users == users {
      assert r.users[email] == users[email];
    }
  }

  /** The identity carries every column of the row except the password hash. */
  lemma IdentityOmitsPassword(users: UserTable, email: string, password: string, pw: Passwords, rehashed: string, other: string)
    requires Authenticate(users, email, password, pw, rehashed).Authenticated?
    ensures var r := Authenticate(users, email, password, pw, rehashed);
      && r.identity.data == IdentityData(users[email].id, users[email].name, users[email].email, users[email].role, users[email].resetHash)
      && r.identity == Authenticate(users[email := users[email].(password := other)], email, password,
                                    pw.(verify := (p, h) => true), rehashed).identity
  {
  }

  /** A later reset overwrites an earlier one: only the latest hash is stored. */
  lemma LatestResetWins(users: UserTable, email: string, first: string, second: string)
    requires email in users
    ensures var u1 := StartReset(users, email, first).value.0;
      StartReset(u1, email, second).value.0 == StartReset(users, email, second).value.0
  {
  }

  /** Stopping a reset, or setting a password, leaves no reset hash behind. */
  lemma ResetHashCleared(users: UserTable, email: string, newReset: string, newHash: string)
    requires email in users
    ensures var u1 := StartReset(users, email, newReset).value.0;
      && StopReset(u1, email).value[email].resetHash.None?
      && SetPassword(u1, email, newHash).value[email].resetHash.None?
      && StopReset(u1, email) == StopReset(users, email)
  {
    var u1 := StartReset(users, email, newReset).value.0;
    var row := users[email].(resetHash := None);
    assert u1[email].(resetHash := None) == row;
    assert u1[email := row] == users[email := row];
  }

  /** The state changes keep every row filed under its own e-mail. */
  lemma ChangesPreserveWellKeyed(users: UserTable, email: string, newReset: string, newHash: string, password: string, pw: Passwords)
    requires WellKeyed(users)
    ensures StartReset(users, email, newReset).Ok? ==> WellKeyed(StartReset(users, email, newReset).value.0)
    ensures StopReset(users, email).Ok? ==> WellKeyed(StopReset(users, email).value)
    ensures SetPassword(users, email, newHash).Ok? ==> WellKeyed(SetPassword(users, email, newHash).value)
    ensures Authenticate(users, email, password, pw, newHash).Authenticated? ==> WellKeyed(Authenticate(users, email, password, pw, newHash).users)
  {
  }
}
