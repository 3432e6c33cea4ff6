/**
 * The admin sign presenter (`App\AdminModule\Presenters\SignPresenter`):
 * signing in, starting a password reset, and finishing it with a token.
 *
 * A reset token is the encrypted payload `{key, hash, email, expire}`. The
 * encryption (`App\Crypto`) is foreign: a submitted token is represented by
 * what decrypting it gives, and an issued token by the payload it carries.
 * Times are whole seconds; `now` is the clock reading of the request.
 */
module SignFlow {
  import opened Common
  import opened Users

  /** The decrypted token: the reset key shown to the user, the reset hash, the account and the expiry instant. */
  datatype TokenPayload = TokenPayload(key: string, hash: string, email: string, expire: int)

  /** What decrypting a submitted token gives. */
  datatype Decryption =
    | Plain(payload: TokenPayload)
    /** Defuse's WrongKeyOrModifiedCiphertextException: a forged or damaged token. */
    | WrongKeyOrModified
    /** Any other failure: bad Base64, bad JSON, a non-array payload. */
    | OtherFailure

  /** The four messages of SignResetPasswordTokenException, in the order they are checked. */
  datatype TokenError = Corrupted | Expired | UnknownUser | Invalidated

  /** A token is valid for one hour (`new DateTime('+ 1 hour')`). */
  const TokenLifetime: int := 3600
  /** The shown reset key is this many leading characters of the hash. */
  const KeyLength: nat := 6

  /** `getUserActiveRowFromToken`: decrypt, then expiry, then the account, then the stored hash. */
  function CheckToken(users: UserTable, token: Decryption, now: int): (r: Result<UserRow, TokenError>)
    ensures r.Ok? ==> token.Plain? && token.payload.email in users && r.value == users[token.payload.email]
  {
    match token
    case WrongKeyOrModified => Err(Corrupted)
    case OtherFailure => Err(Corrupted)
    case Plain(p) =>
      if p.expire < now then Err(Expired)
      else match GetUserByEmail(users, p.email)
        case Err(_) => Err(UnknownUser)
        case Ok(row) => if row.resetHash != Some(p.hash) then Err(Invalidated) else Ok(row)
  }

  /** The mail `sendChangeNotification` sends: the address, the shown key and the token's payload. */
  datatype Mail = Mail(to: string, key: string, payload: TokenPayload)

  /** What `resetFormSuccess` leaves behind: the user table, the key in the flash message, and the mail sent, if any. */
  datatype ResetOutcome = ResetOutcome(users: UserTable, shownKey: string, mail: Option<Mail>)

  /**
   * `resetFormSuccess`: `newReset` is the hash `startReset` draws and
   * `fakeKey` the six random characters drawn for an unknown address.
   */
  function ResetFormSuccess(users: UserTable, email: string, newReset: string, fakeKey: string, now: int): (r: ResetOutcome)
    ensures email !in users ==> r == ResetOutcome(users, Upper(fakeKey), None)
    ensures email in users ==> r.users == StartReset(users, email, newReset).value.0
    ensures email in users ==> r.mail.Some? && r.mail.value.to == email && r.mail.value.key == r.shownKey
    ensures email in users ==> r.shownKey == Upper(Prefix(newReset, KeyLength))
    ensures email in users ==> r.mail.value.payload == TokenPayload(r.shownKey, newReset, email, now + TokenLifetime)
  {
    match StartReset(users, email, newReset)
    case Err(_) => ResetOutcome(users, Upper(fakeKey), None)
    case Ok((users1, hash)) =>
      var key := Upper(Prefix(hash, KeyLength));
      ResetOutcome(users1, key, Some(Mail(email, key, TokenPayload(key, hash, email, now + TokenLifetime))))
  }

  datatype SetPasswordOutcome =
    /** The token failed a check: the message is shown on the form and nothing changes. */
    | FormError(error: TokenError)
    /** The password was changed; the user is sent to the sign-in page. */
    | PasswordChanged(users: UserTable)

  /** `setPasswordFormSuccess`: `newHash` is what `Passwords::hash` makes of the new password. */
  function SetPasswordFormSuccess(users: UserTable, token: Decryption, newHash: string, now: int): (r: SetPasswordOutcome)
    ensures r.FormError? <==> CheckToken(users, token, now).Err?
    ensures r.FormError? ==> r.error == CheckToken(users, token, now).error
    ensures r.PasswordChanged? ==> r.users == SetPassword(users, token.payload.email, newHash).value
  {
    match CheckToken(users, token, now)
    case Err(e) => FormError(e)
    case Ok(row) => PasswordChanged(SetPassword(users, token.payload.email, newHash).value)
  }

  /** `renderChangePassword`: a bad token sends the visitor to the dashboard with the message; a good one shows the form. */
  datatype ChangePasswordView = ShowForm | BackToDashboard(error: TokenError)

  function RenderChangePassword(users: UserTable, token: Decryption, now: int): (r: ChangePasswordView)
    ensures r.ShowForm? <==> CheckToken(users, token, now).Ok?
    ensures r.BackToDashboard? ==> r.error == CheckToken(users, token, now).error
  {
    match CheckToken(users, token, now)
    case Err(e) => BackToDashboard(e)
    case Ok(_) => ShowForm
  }

  /** Where a successful sign-in goes: back to the stored request, or to the dashboard. */
  datatype Target = Restored(backlink: string) | Dashboard

  datatype LoginResult =
    | LoginFailed(code: int)
    | LoggedIn(users: UserTable, identity: Identity, target: Target)

  /** The session expiration set before logging in, and the result. */
  datatype SignIn = SignIn(expiration: string, result: LoginResult)

  const Remembered: string := "14 days"
  const Unremembered: string := "20 minutes"

  /**
   * `signInFormSuccess`. `restorable(b)` says whether the session still holds
   * the request stored under backlink `b` (`restoreRequest` redirects only
   * then, and otherwise returns).
   */
  function SignInFormSuccess(users: UserTable, email: string, password: string, remember: bool,
                             pw: Passwords, rehashed: string, backlink: Option<string>, restorable: string -> bool): (r: SignIn)
    ensures r.expiration == if remember then Remembered else Unremembered
    ensures r.result.LoginFailed? <==> Authenticate(users, email, password, pw, rehashed).AuthFailed?
    ensures r.result.LoggedIn? ==>
      && r.result.users == Authenticate(users, email, password, pw, rehashed).users
      && r.result.identity == Authenticate(users, email, password, pw, rehashed).identity
      && (r.result.target.Restored? <==> backlink.Some? && restorable(backlink.value))
  {
    var expiration := if remember then Remembered else Unremembered;
    match Authenticate(users, email, password, pw, rehashed)
    case AuthFailed(code) => SignIn(expiration, LoginFailed(code))
    case Authenticated(users1, identity) =>
      var target := if backlink.Some? && restorable(backlink.value) then Restored(backlink.value) else Dashboard;
      SignIn(expiration, LoggedIn(users1, identity, target))
  }

  // ---------------------------------------------------------------------------
  // Properties
  // ---------------------------------------------------------------------------

  /** The checks as a decision table: the first failing check names the error. */
  lemma CheckTokenOrder(users: UserTable, token: Decryption, now: int)
    ensures CheckToken(users, token, now) == Err(Corrupted) <==> !token.Plain?
    ensures CheckToken(users, token, now) == Err(Expired) <==> token.Plain? && token.payload.expire < now
    ensures CheckToken(users, token, now) == Err(UnknownUser) <==>
      token.Plain? && token.payload.expire >= now && token.payload.email !in users
    ensures CheckToken(users, token, now) == Err(Invalidated) <==>
      token.Plain? && token.payload.expire >= now && token.payload.email in users
      && users[token.payload.email].resetHash != Some(token.payload.hash)
    ensures CheckToken(users, token, now).Ok? <==>
      token.Plain? && token.payload.expire >= now && token.payload.email in users
      && users[token.payload.email].resetHash == Some(token.payload.hash)
  {
  }

  /** Expiry is strict: a token is still accepted at its exact expiry instant and refused one second later. */
  lemma ExpiryIsStrict(users: UserTable, p: TokenPayload)
    requires p.email in users && users[p.email].resetHash == Some(p.hash)
    ensures CheckToken(users, Plain(p), p.expire).Ok?
    ensures CheckToken(users, Plain(p), p.expire + 1) == Err(Expired)
  {
  }

  /** A freshly issued token is accepted for the whole hour after issue and refused after it. */
  lemma IssuedTokenWorksForAnHour(users: UserTable, email: string, newReset: string, fakeKey: string, issued: int, later: int)
    requires email in users
    ensures var r := ResetFormSuccess(users, email, newReset, fakeKey, issued);
      && (later <= issued + TokenLifetime ==> CheckToken(r.users, Plain(r.mail.value.payload), later) == Ok(r.users[email]))
      && (later > issued + TokenLifetime ==> CheckToken(r.users, Plain(r.mail.value.payload), later) == Err(Expired))
  {
  }

  /** Only the latest token works: a second reset with a different hash invalidates the first token. */
  lemma OnlyLatestTokenWorks(users: UserTable, email: string, h1: string, h2: string, k1: string, k2: string, t1: int, t2: int, now: int)
    requires email in users && h1 != h2
    requires now <= t1 + TokenLifetime
    ensures var first := ResetFormSuccess(users, email, h1, k1, t1);
      var second := ResetFormSuccess(first.users, email, h2, k2, t2);
      && CheckToken(second.users, Plain(first.mail.value.payload), now) == Err(Invalidated)
      && (now <= t2 + TokenLifetime ==> CheckToken(second.users, Plain(second.mail.value.payload), now).Ok?)
  {
  }

  /** A token works once: after it has set a password, the same token is refused as invalidated. */
  lemma TokenWorksOnce(users: UserTable, token: Decryption, newHash: string, otherHash: string, now: int, later: int)
    requires SetPasswordFormSuccess(users, token, newHash, now).PasswordChanged?
    requires later <= token.payload.expire
    ensures var after := SetPasswordFormSuccess(users, token, newHash, now).users;
      && after[token.payload.email].password == newHash
      && SetPasswordFormSuccess(after, token, otherHash, later) == FormError(Invalidated)
  {
  }

  /** A refused token changes no password; an accepted one changes the token owner's password only. */
  lemma SetPasswordChangesOnlyOwner(users: UserTable, token: Decryption, newHash: string, now: int)
    requires SetPasswordFormSuccess(users, token, newHash, now).PasswordChanged?
    ensures var after := SetPasswordFormSuccess(users, token, newHash, now).users;
      && after.Keys == users.Keys
      && after[token.payload.email] == users[token.payload.email].(password := newHash, resetHash := None)
      && forall e :: e in users && e != token.payload.email ==> after[e] == users[e]
  {
  }

  /**
   * An unknown address leaves no trace: the table is unchanged, no mail is
   * sent, and when the random key happens to equal the prefix of the hash the
   * visitor sees exactly what a known address would show.
   */
  lemma UnknownEmailIsIndistinguishable(users: UserTable, known: string, unknown: string, newReset: string, fakeKey: string, now: int)
    requires known in users && unknown !in users
    requires fakeKey == Prefix(newReset, KeyLength)
    ensures ResetFormSuccess(users, unknown, newReset, fakeKey, now).users == users
    ensures ResetFormSuccess(users, unknown, newReset, fakeKey, now).mail.None?
    ensures ResetFormSuccess(users, unknown, newReset, fakeKey, now).shownKey == ResetFormSuccess(users, known, newReset, fakeKey, now).shownKey
  {
  }

  /** The shown key is the upper-cased head of the hash, six characters long when the hash has at least six. */
  lemma ShownKeyShape(users: UserTable, email: string, newReset: string, fakeKey: string, now: int)
    requires email in users && |newReset| >= KeyLength
    ensures var key := ResetFormSuccess(users, email, newReset, fakeKey, now).shownKey;
      |key| == KeyLength && forall i :: 0 <= i < KeyLength ==> key[i] == UpperChar(newReset[i])
  {
  }

  /** A failed sign-in has the same expiration choice and goes nowhere; a remembered one lasts 14 days. */
  lemma SignInExpiration(users: UserTable, email: string, password: string, pw: Passwords, rehashed: string,
                         backlink: Option<string>, restorable: string -> bool)
    ensures SignInFormSuccess(users, email, password, true, pw, rehashed, backlink, restorable).expiration == "14 days"
    ensures SignInFormSuccess(users, email, password, false, pw, rehashed, backlink, restorable).expiration == "20 minutes"
    ensures email !in users ==> SignInFormSuccess(users, email, password, true, pw, rehashed, backlink, restorable).result == LoginFailed(IdentityNotFound)
  {
  }
}
