/**
 * The legacy admin sign presenter (lower-case `app/AdminModule/presenters`).
 * It shares the user store with the current one but differs in four ways:
 *  - only a wrong-key/modified-ciphertext failure counts as a corrupted token;
 *    any other decryption failure escapes as an uncaught exception;
 *  - the account lookup throws instead of returning a falsy row, so the
 *    "user does not exist" branch cannot be reached and a deleted account
 *    ends the request with an uncaught exception;
 *  - `startReset` is called without a `try`, so an unknown address ends the
 *    reset request with an uncaught exception before the fake-key branch;
 *  - the stored hash is compared with loose `!=`, under which a null column
 *    equals the empty string.
 * An uncaught exception is the outcome `Crash` (Nette's error page).
 */
module LegacySignFlow {
  import opened Common
  import opened Users
  import opened SignFlow

  datatype LegacyTokenResult =
    | Valid(row: UserRow)
    | Refused(error: TokenError)
    | Crash

  /** Loose `!=` between the stored hash and the token's: null reads as `''`. */
  predicate LooseDiffers(stored: Option<string>, given: string) {
    stored.GetOr("") != given
  }

  /** The legacy `getUserActiveRowFromToken`, as written. */
  function LegacyCheckToken(users: UserTable, token: Decryption, now: int): (r: LegacyTokenResult)
    ensures r.Valid? ==> token.Plain? && token.payload.email in users && r.row == users[token.payload.email]
    ensures r == Refused(Corrupted) <==> token.WrongKeyOrModified?
    ensures r.Refused? ==> r.error != UnknownUser
  {
    match token
    case WrongKeyOrModified => Refused(Corrupted)
    case OtherFailure => Crash
    case Plain(p) =>
      if p.expire < now then Refused(Expired)
      else match GetUserByEmail(users, p.email)
        case Err(_) => Crash
        case Ok(row) => if LooseDiffers(row.resetHash, p.hash) then Refused(Invalidated) else Valid(row)
  }

  datatype LegacyResetOutcome =
    | Reset(outcome: ResetOutcome)
    | ResetCrash

  /** The legacy `resetFormSuccess`, as written: `if ($hash)` tests the returned hash. */
  function LegacyResetFormSuccess(users: UserTable, email: string, newReset: string, fakeKey: string, now: int): (r: LegacyResetOutcome)
    ensures r.ResetCrash? <==> email !in users
    ensures r.Reset? ==> r.outcome.users == StartReset(users, email, newReset).value.0
    ensures r.Reset? ==> (r.outcome.mail.Some? <==> Truthy(newReset))
  {
    match StartReset(users, email, newReset)
    case Err(_) => ResetCrash
    case Ok((users1, hash)) =>
      if Truthy(hash) then
        var key := Upper(Prefix(hash, KeyLength));
        Reset(ResetOutcome(users1, key, Some(Mail(email, key, TokenPayload(key, hash, email, now + TokenLifetime)))))
      else Reset(ResetOutcome(users1, Upper(fakeKey), None))
  }

  datatype LegacySetPasswordOutcome =
    | LegacyFormError(error: TokenError)
    | LegacyPasswordChanged(users: UserTable)
    | SetPasswordCrash

  /** The legacy `setPasswordFormSuccess`. */
  function LegacySetPasswordFormSuccess(users: UserTable, token: Decryption, newHash: string, now: int): (r: LegacySetPasswordOutcome)
    ensures r.LegacyFormError? <==> LegacyCheckToken(users, token, now).Refused?
    ensures r.SetPasswordCrash? <==> LegacyCheckToken(users, token, now).Crash?
    ensures r.LegacyPasswordChanged? ==>
      token.Plain? && token.payload.email in users && r.users == SetPassword(users, token.payload.email, newHash).value
  {
    match LegacyCheckToken(users, token, now)
    case Refused(e) => LegacyFormError(e)
    case Crash => SetPasswordCrash
    case Valid(row) => LegacyPasswordChanged(SetPassword(users, token.payload.email, newHash).value)
  }

  /** The legacy `signInFormSuccess`: no backlink, always to the dashboard. */
  function LegacySignInFormSuccess(users: UserTable, email: string, password: string, remember: bool, pw: Passwords, rehashed: string): (r: SignIn)
    ensures r.expiration == if remember then "14 days" else "20 minutes"
    ensures r.result.LoginFailed? <==> Authenticate(users, email, password, pw, rehashed).AuthFailed?
    ensures r.result.LoggedIn? ==> r.result.target == Dashboard
  {
    var expiration := if remember then Remembered else Unremembered;
    match Authenticate(users, email, password, pw, rehashed)
    case AuthFailed(code) => SignIn(expiration, LoginFailed(code))
    case Authenticated(users1, identity) => SignIn(expiration, LoggedIn(users1, identity, Dashboard))
  }

  // ---------------------------------------------------------------------------
  // Properties
  // ---------------------------------------------------------------------------

  /** Decrypt, then expiry, then the account, then the hash: the legacy order, with its two crash points. */
  lemma LegacyCheckTokenOrder(users: UserTable, token: Decryption, now: int)
    ensures LegacyCheckToken(users, token, now) == Crash <==>
      token.OtherFailure? || (token.Plain? && token.payload.expire >= now && token.payload.email !in users)
    ensures LegacyCheckToken(users, token, now) == Refused(Expired) <==> token.Plain? && token.payload.expire < now
    ensures LegacyCheckToken(users, token, now) == Refused(Invalidated) <==>
      token.Plain? && token.payload.expire >= now && token.payload.email in users
      && LooseDiffers(users[token.payload.email].resetHash, token.payload.hash)
  {
  }

  /**
   * Where neither generation crashes and the stored hash is compared with a
   * non-empty token hash, the legacy check decides as the current one does.
   */
  lemma LegacyCheckAgrees(users: UserTable, token: Decryption, now: int)
    requires !token.OtherFailure?
    requires token.Plain? ==> token.payload.email in users && token.payload.hash != ""
    ensures LegacyCheckToken(users, token, now) ==
      match CheckToken(users, token, now)
      case Ok(row) => Valid(row)
      case Err(e) => Refused(e)
  {
  }

  /**
   * The loose comparison lets an empty token hash through against an account
   * with no reset in progress, which the strict comparison refuses.
   */
  lemma LooseHashAcceptsEmpty(users: UserTable, email: string, now: int)
    requires email in users && users[email].resetHash.None?
    ensures LegacyCheckToken(users, Plain(TokenPayload("", "", email, now)), now).Valid?
    ensures CheckToken(users, Plain(TokenPayload("", "", email, now)), now) == Err(Invalidated)
  {
  }

  /** `startReset` always returns its sixteen-character hash, so the fake-key branch of the legacy handler is dead. */
  lemma LegacyFakeKeyBranchDead(users: UserTable, email: string, newReset: string, fakeKey: string, now: int)
    requires email in users && |newReset| == 16
    ensures LegacyResetFormSuccess(users, email, newReset, fakeKey, now) == Reset(ResetFormSuccess(users, email, newReset, fakeKey, now))
  {
  }

  /** Finding, as written: a reset request for an unknown address ends with an uncaught exception. */
  lemma LegacyResetUnknownEmailCrashes(users: UserTable, email: string, newReset: string, fakeKey: string, now: int)
    requires email !in users
    ensures LegacyResetFormSuccess(users, email, newReset, fakeKey, now) == ResetCrash
    ensures ResetFormSuccess(users, email, newReset, fakeKey, now) == ResetOutcome(users, Upper(fakeKey), None)
  {
  }

  /** Finding, as written: a valid unexpired token for a deleted account ends with an uncaught exception, not the "user does not exist" message. */
  lemma LegacyDeletedUserCrashes(users: UserTable, p: TokenPayload, newHash: string, now: int)
    requires p.email !in users && p.expire >= now
    ensures LegacyCheckToken(users, Plain(p), now) == Crash
    ensures LegacySetPasswordFormSuccess(users, Plain(p), newHash, now) == SetPasswordCrash
    ensures CheckToken(users, Plain(p), now) == Err(UnknownUser)
    ensures SetPasswordFormSuccess(users, Plain(p), newHash, now) == FormError(UnknownUser)
  {
  }

  /** The legacy flow also keeps "only the latest token works, and it works once". */
  lemma LegacyTokenWorksOnce(users: UserTable, token: Decryption, newHash: string, otherHash: string, now: int, later: int)
    requires LegacySetPasswordFormSuccess(users, token, newHash, now).LegacyPasswordChanged?
    requires token.payload.hash != "" && later <= token.payload.expire
    ensures var after := LegacySetPasswordFormSuccess(users, token, newHash, now).users;
      LegacySetPasswordFormSuccess(after, token, otherHash, later) == LegacyFormError(Invalidated)
  {
  }
}
