/**
 * What each handler of the auth controller does, as a function from the
 * table before the request to its response, the mail it hands to the
 * mailer, and the table after. The imperative handlers in AuthController
 * are proved to compute exactly these steps; the account lifecycle
 * (single-use secrets, the reset window, uniform failures) is proved here.
 */
module AuthLifecycle {

  import opened Base
  import opened Http
  import opened Platform
  import opened UserModel
  import opened AuthMiddleware

  /** bcrypt cost factor used for every password hash. */
  const SaltRounds: nat := 12
  /** A reset token lives one hour: `60 * 60 * 1000` ms. */
  const ResetTokenLifetimeMs: nat := 3600000
  /** The session cookie's `maxAge`: seven days in ms. */
  const SessionCookieMaxAgeMs: nat := 604800000

  const MsgUserExists: string := "User already exists with this email"
  const MsgSignedUp: string := "User created successfully. Please check your email for verification."
  const MsgInternal: string := "Internal server error"
  const MsgInvalidCredentials: string := "Invalid credentials"
  const MsgLoggedIn: string := "Login successful"
  const MsgLoggedOut: string := "Logged out successfully"
  const MsgUserNotFound: string := "User not found"
  const MsgWrongCurrentPassword: string := "Current password is incorrect"
  const MsgPasswordChanged: string := "Password changed successfully"
  const MsgResetLinkSent: string := "If the email exists, a password reset link has been sent."
  const MsgBadResetToken: string := "Invalid or expired reset token"
  const MsgPasswordReset: string := "Password reset successfully"
  const MsgBadVerificationToken: string := "Invalid verification token"
  const MsgEmailVerified: string := "Email verified successfully"

  /** A message handed to the mailer: the address and the single-use secret it carries. */
  datatype Mail = VerificationMail(to: string, token: string) | ResetMail(to: string, token: string)

  /** The outcome of one request. */
  datatype Step = Step(response: Response, mail: Option<Mail>, store: Store)

  /**
   * How any request may change the table: rows are only appended, no row's id
   * or email ever changes, and a verified account stays verified.
   */
  ghost predicate Evolves(a: Store, b: Store)
  {
    && |a.rows| <= |b.rows|
    && a.nextId <= b.nextId
    && forall i :: 0 <= i < |a.rows| ==>
         && b.rows[i].id == a.rows[i].id
         && b.rows[i].email == a.rows[i].email
         && (a.rows[i].isVerified ==> b.rows[i].isVerified)
  }

  // ---------------------------------------------------------------- signup

  /**
   * `signup`: an email already registered is refused with 400 and nothing
   * changes; otherwise one unverified row is added carrying the bcrypt hash
   * of the password and a fresh verification secret, the secret is mailed,
   * and the response is 201 with the new account's public fields, or 500 if
   * the mail could not be delivered (the row stays).
   */
  function Signup(s: Store, email: string, password: string, name: string,
                  hasher: PasswordHasher, salt: nat, entropy: seq<byte>, delivered: bool): (r: Step)
    requires |entropy| == SecretBytes
    ensures HasEmail(s.rows, email) <==> r.response.status == 400
    ensures HasEmail(s.rows, email) ==> r == Step(Reply(400, MsgUserExists), None, s)
    ensures !HasEmail(s.rows, email) ==>
      && r.store == Insert(s, email, hasher.hash(password, SaltRounds, salt), name, SecretToken(entropy))
      && r.mail == Some(VerificationMail(email, SecretToken(entropy)))
      && r.response.status == (if delivered then 201 else 500)
    ensures r.response.status == 201 ==>
      r.response.user == Some(PublicView(r.store.rows[|s.rows|])) && r.response.cookie == KeepCookie
    ensures WellFormed(s) ==> WellFormed(r.store) && Evolves(s, r.store)
  {
    if FindByEmail(s.rows, email).Some? then Step(Reply(400, MsgUserExists), None, s)
    else
      var passwordHash := hasher.hash(password, SaltRounds, salt);
      var token := SecretToken(entropy);
      var after := Insert(s, email, passwordHash, name, token);
      var mail := Some(VerificationMail(email, token));
      assert WellFormed(s) ==> WellFormed(after) by {
        if WellFormed(s) { InsertKeepsWellFormed(s, email, passwordHash, name, token); }
      }
      if delivered then
        Step(Response(201, Some(MsgSignedUp), Some(UserView(s.nextId, email, name, false)), KeepCookie), mail, after)
      else
        Step(Reply(500, MsgInternal), mail, after)
  }

  // ---------------------------------------------------------------- login / logout

  /** The password check `login` performs. */
  predicate CredentialsMatch(s: Store, email: string, password: string, hasher: PasswordHasher)
  {
    FindByEmail(s.rows, email).Some? && hasher.compare(password, FindByEmail(s.rows, email).value.passwordHash)
  }

  /**
   * `login`: an unknown email and a wrong password get the identical 401
   * response; a match gets 200 with the account's public fields and a
   * seven-day session cookie holding `jwt.sign({ id })`. Nothing is written.
   */
  function Login(s: Store, email: string, password: string, hasher: PasswordHasher, tokens: SessionTokens): (r: Step)
    ensures r.store == s && r.mail.None?
    ensures r.response.status == 200 <==> CredentialsMatch(s, email, password, hasher)
    ensures !CredentialsMatch(s, email, password, hasher) ==> r.response == Reply(401, MsgInvalidCredentials)
    ensures CredentialsMatch(s, email, password, hasher) ==>
      var row := FindByEmail(s.rows, email).value;
      && r.response.user == Some(PublicView(row))
      && r.response.cookie == SetSessionCookie(tokens.sign(row.id), SessionCookieMaxAgeMs)
  {
    match FindByEmail(s.rows, email)
    case None => Step(Reply(401, MsgInvalidCredentials), None, s)
    case Some(user) =>
      if !hasher.compare(password, user.passwordHash) then Step(Reply(401, MsgInvalidCredentials), None, s)
      else
        var token := tokens.sign(user.id);
        Step(Response(200, Some(MsgLoggedIn), Some(PublicView(user)), SetSessionCookie(token, SessionCookieMaxAgeMs)), None, s)
  }

  /** `logout`: clears the session cookie; the server keeps no session to end. */
  function Logout(s: Store): (r: Step)
    ensures r.store == s && r.mail.None?
    ensures r.response.status == 200 && r.response.cookie == ClearSessionCookie && r.response.user.None?
  {
    Step(Response(200, Some(MsgLoggedOut), None, ClearSessionCookie), None, s)
  }

  // ---------------------------------------------------------------- profile

  /** `getProfile`: echoes the account the gate resolved, without a message. */
  function GetProfile(user: UserView): (r: Response)
    ensures r.status == 200 && r.message.None? && r.cookie == KeepCookie
    ensures r.user == Some(user)
  {
    Response(200, None, Some(user), KeepCookie)
  }

  // ---------------------------------------------------------------- change password

  /**
   * `changePassword` for the authenticated id: 404 if the id has no row,
   * 400 with nothing changed if the current password does not match, and
   * otherwise the row's hash becomes the hash of the new password.
   */
  function ChangePassword(s: Store, userId: nat, currentPassword: string, newPassword: string,
                          hasher: PasswordHasher, salt: nat): (r: Step)
    ensures r.mail.None?
    ensures !HasId(s.rows, userId) <==> r.response.status == 404
    ensures !HasId(s.rows, userId) ==> r == Step(Reply(404, MsgUserNotFound), None, s)
    ensures HasId(s.rows, userId) && !hasher.compare(currentPassword, FindById(s.rows, userId).value) ==>
      r == Step(Reply(400, MsgWrongCurrentPassword), None, s)
    ensures r.response.status == 200 <==>
      HasId(s.rows, userId) && hasher.compare(currentPassword, FindById(s.rows, userId).value)
    ensures r.response.status == 200 ==>
      r.store == Store(SetPassword(s.rows, userId, hasher.hash(newPassword, SaltRounds, salt)), s.nextId)
    ensures r.response.status != 200 ==> r.store == s
    ensures WellFormed(s) ==> WellFormed(r.store) && Evolves(s, r.store)
  {
    match FindById(s.rows, userId)
    case None => Step(Reply(404, MsgUserNotFound), None, s)
    case Some(currentHash) =>
      if !hasher.compare(currentPassword, currentHash) then Step(Reply(400, MsgWrongCurrentPassword), None, s)
      else
        var rows := SetPassword(s.rows, userId, hasher.hash(newPassword, SaltRounds, salt));
        assert WellFormed(s) ==> WellFormed(Store(rows, s.nextId)) by {
          if WellFormed(s) { UpdateKeepsWellFormed(s, rows); }
        }
        Step(Reply(200, MsgPasswordChanged), None, Store(rows, s.nextId))
  }

  // ---------------------------------------------------------------- forgot password

  /**
   * `forgotPassword`: an unknown email changes nothing and gets the generic
   * 200; a known one gets a fresh reset secret expiring one hour after `now`
   * (overwriting any earlier one), the secret is mailed, and the response is
   * the same generic 200, or 500 if the mail could not be delivered.
   */
  function ForgotPassword(s: Store, email: string, entropy: seq<byte>, now: nat, delivered: bool): (r: Step)
    requires |entropy| == SecretBytes
    ensures !HasEmail(s.rows, email) ==> r == Step(Reply(200, MsgResetLinkSent), None, s)
    ensures HasEmail(s.rows, email) ==>
      && r.store == Store(SetResetToken(s.rows, email, SecretToken(entropy), now + ResetTokenLifetimeMs), s.nextId)
      && r.mail == Some(ResetMail(email, SecretToken(entropy)))
    ensures delivered || !HasEmail(s.rows, email) ==> r.response == Reply(200, MsgResetLinkSent)
    ensures !delivered && HasEmail(s.rows, email) ==> r.response == Reply(500, MsgInternal)
    ensures WellFormed(s) ==> WellFormed(r.store) && Evolves(s, r.store)
  {
    if FindByEmail(s.rows, email).None? then Step(Reply(200, MsgResetLinkSent), None, s)
    else
      var token := SecretToken(entropy);
      var expires := now + ResetTokenLifetimeMs;
      var rows := SetResetToken(s.rows, email, token, expires);
      assert WellFormed(s) ==> WellFormed(Store(rows, s.nextId)) by {
        if WellFormed(s) { UpdateKeepsWellFormed(s, rows); }
      }
      var mail := Some(ResetMail(email, token));
      if delivered then Step(Reply(200, MsgResetLinkSent), mail, Store(rows, s.nextId))
      else Step(Reply(500, MsgInternal), mail, Store(rows, s.nextId))
  }

  // ---------------------------------------------------------------- reset password

  /**
   * `resetPassword`: a token that selects no account while `now` is before its
   * expiry is refused with 400 and nothing changes; otherwise that account's
   * hash becomes the hash of the new password and its reset token is cleared.
   */
  function ResetPassword(s: Store, token: string, password: string, hasher: PasswordHasher, salt: nat, now: nat): (r: Step)
    ensures r.mail.None?
    ensures FindByResetToken(s.rows, Some(token), now).None? <==> r.response.status == 400
    ensures FindByResetToken(s.rows, Some(token), now).None? ==> r == Step(Reply(400, MsgBadResetToken), None, s)
    ensures FindByResetToken(s.rows, Some(token), now).Some? ==>
      var id := FindByResetToken(s.rows, Some(token), now).value;
      && r.response == Reply(200, MsgPasswordReset)
      && r.store == Store(ClearReset(SetPassword(s.rows, id, hasher.hash(password, SaltRounds, salt)), id), s.nextId)
    ensures WellFormed(s) ==> WellFormed(r.store) && Evolves(s, r.store)
  {
    match FindByResetToken(s.rows, Some(token), now)
    case None => Step(Reply(400, MsgBadResetToken), None, s)
    case Some(id) =>
      var rehashed := SetPassword(s.rows, id, hasher.hash(password, SaltRounds, salt));
      var cleared := ClearReset(rehashed, id);
      assert WellFormed(s) ==> WellFormed(Store(cleared, s.nextId)) by {
        if WellFormed(s) {
          UpdateKeepsWellFormed(s, rehashed);
          UpdateKeepsWellFormed(Store(rehashed, s.nextId), cleared);
        }
      }
      assert Evolves(s, Store(cleared, s.nextId)) by {
        assert forall i :: 0 <= i < |s.rows| ==> cleared[i].isVerified == rehashed[i].isVerified == s.rows[i].isVerified;
      }
      Step(Reply(200, MsgPasswordReset), None, Store(cleared, s.nextId))
  }

  // ---------------------------------------------------------------- verify email

  /**
   * `verifyEmail` with the `token` query parameter, which may be missing: a
   * token that selects no account is refused with 400 and nothing changes;
   * otherwise that account becomes verified and its token is cleared.
   */
  function VerifyEmail(s: Store, token: Option<string>): (r: Step)
    ensures r.mail.None?
    ensures FindByVerificationToken(s.rows, token).None? <==> r.response.status == 400
    ensures FindByVerificationToken(s.rows, token).None? ==> r == Step(Reply(400, MsgBadVerificationToken), None, s)
    ensures FindByVerificationToken(s.rows, token).Some? ==>
      && r.response == Reply(200, MsgEmailVerified)
      && r.store == Store(MarkVerified(s.rows, FindByVerificationToken(s.rows, token).value), s.nextId)
    ensures token.None? ==> r.response.status == 400
    ensures WellFormed(s) ==> WellFormed(r.store) && Evolves(s, r.store)
  {
    match FindByVerificationToken(s.rows, token)
    case None => Step(Reply(400, MsgBadVerificationToken), None, s)
    case Some(id) =>
      var rows := MarkVerified(s.rows, id);
      assert WellFormed(s) ==> WellFormed(Store(rows, s.nextId)) by {
        if WellFormed(s) { UpdateKeepsWellFormed(s, rows); }
      }
      Step(Reply(200, MsgEmailVerified), None, Store(rows, s.nextId))
  }

  // ---------------------------------------------------------------- properties across requests

  /** After signing up, the same email and password log in, as the new unverified account. */
  lemma SignupThenLogin(s: Store, email: string, password: string, name: string, hasher: PasswordHasher,
                        salt: nat, entropy: seq<byte>, delivered: bool, tokens: SessionTokens)
    requires WellFormed(s) && !HasEmail(s.rows, email) && |entropy| == SecretBytes
    requires AcceptsOwnHashes(hasher)
    ensures var after := Signup(s, email, password, name, hasher, salt, entropy, delivered).store;
      && Login(after, email, password, hasher, tokens).response.status == 200
      && Login(after, email, password, hasher, tokens).response.user == Some(UserView(s.nextId, email, name, false))
  {
    var after := Signup(s, email, password, name, hasher, salt, entropy, delivered).store;
    FindByEmailFindsTheRow(after.rows, |s.rows|);
  }

  /**
   * A session cookie issued by a successful login admits its holder at the
   * gate, whatever Authorization header accompanies it, as the account that
   * logged in; the profile handler then returns that account's public fields.
   */
  lemma LoginSessionPassesGate(s: Store, email: string, password: string, hasher: PasswordHasher,
                               tokens: SessionTokens, authorization: Option<string>)
    requires WellFormed(s) && AcceptsOwnTokens(tokens)
    requires Login(s, email, password, hasher, tokens).response.status == 200
    ensures var response := Login(s, email, password, hasher, tokens).response;
      && response.cookie.SetSessionCookie?
      && Authenticate(Some(response.cookie.token), authorization, tokens, s.rows) == Admit(response.user.value)
      && GetProfile(response.user.value).user == response.user
  {
    var row := FindByEmail(s.rows, email).value;
    var i :| 0 <= i < |s.rows| && s.rows[i] == row;
    SelectUserFindsTheRow(s.rows, i);
  }

  /**
   * After `forgotPassword` for a registered email issues a secret that no
   * other account holds, `resetPassword` with that secret succeeds exactly
   * while the clock is before issuance plus one hour.
   */
  lemma ResetWindowAfterForgot(s: Store, k: nat, entropy: seq<byte>, issuedAt: nat, delivered: bool,
                               password: string, hasher: PasswordHasher, salt: nat, now: nat)
    requires WellFormed(s) && k < |s.rows| && |entropy| == SecretBytes
    requires forall i :: 0 <= i < |s.rows| && i != k ==> s.rows[i].resetToken != Some(SecretToken(entropy))
    ensures var after := ForgotPassword(s, s.rows[k].email, entropy, issuedAt, delivered).store;
      (ResetPassword(after, SecretToken(entropy), password, hasher, salt, now).response.status == 200
       <==> now < issuedAt + ResetTokenLifetimeMs)
  {
    assert HasEmail(s.rows, s.rows[k].email);
    ResetTokenLiveUntilExpiry(s.rows, k, SecretToken(entropy), issuedAt + ResetTokenLifetimeMs, now);
  }

  /**
   * A second `forgotPassword` for the same email supersedes the first: the
   * first secret no longer reaches the account, at any time.
   */
  lemma SecondForgotSupersedesFirst(s: Store, k: nat, first: seq<byte>, second: seq<byte>,
                                    issuedAt: nat, reissuedAt: nat, d1: bool, d2: bool, now: nat)
    requires WellFormed(s) && k < |s.rows|
    requires |first| == SecretBytes && |second| == SecretBytes && first != second
    ensures var email := s.rows[k].email;
      var once := ForgotPassword(s, email, first, issuedAt, d1).store;
      var twice := ForgotPassword(once, email, second, reissuedAt, d2).store;
      FindByResetToken(twice.rows, Some(SecretToken(first)), now) != Some(s.rows[k].id)
  {
    var email := s.rows[k].email;
    assert HasEmail(s.rows, email);
    var once := ForgotPassword(s, email, first, issuedAt, d1).store;
    assert once.rows[k].email == email && once.rows[k].id == s.rows[k].id;
    assert HasEmail(once.rows, email);
    if SecretToken(first) == SecretToken(second) {
      HexEncodeInjective(first, second);
    }
    NewResetTokenSupersedesOld(once.rows, k, SecretToken(second), reissuedAt + ResetTokenLifetimeMs,
                               Some(SecretToken(first)), now);
  }

  /** At most one account holds the reset secret `token`. */
  ghost predicate ResetTokenUnshared(rows: seq<Row>, token: string)
  {
    forall i, j :: 0 <= i < |rows| && 0 <= j < |rows| && rows[i].resetToken == Some(token) && rows[j].resetToken == Some(token) ==> i == j
  }

  /**
   * A reset secret is single-use: once `resetPassword` has succeeded with it,
   * it never reaches that account again and, if no other account shared it,
   * every later use is refused with 400 and changes nothing.
   */
  lemma ResetTokenSingleUse(s: Store, token: string, password: string, hasher: PasswordHasher, salt: nat, now: nat,
                            password2: string, salt2: nat, later: nat)
    requires WellFormed(s)
    requires FindByResetToken(s.rows, Some(token), now).Some?
    ensures var id := FindByResetToken(s.rows, Some(token), now).value;
      var after := ResetPassword(s, token, password, hasher, salt, now).store;
      FindByResetToken(after.rows, Some(token), later) != Some(id)
    ensures ResetTokenUnshared(s.rows, token) ==>
      var after := ResetPassword(s, token, password, hasher, salt, now).store;
      ResetPassword(after, token, password2, hasher, salt2, later) == Step(Reply(400, MsgBadResetToken), None, after)
  {
    var id := FindByResetToken(s.rows, Some(token), now).value;
    var rehashed := SetPassword(s.rows, id, hasher.hash(password, SaltRounds, salt));
    var after := ResetPassword(s, token, password, hasher, salt, now).store;
    assert IdsUnique(rehashed);
    ClearedResetTokenSelectsNothing(rehashed, id, Some(token), later);
    if ResetTokenUnshared(s.rows, token) {
      var k :| 0 <= k < |s.rows| && s.rows[k].id == id && ResetTokenLive(s.rows[k], Some(token), now);
      forall i | 0 <= i < |after.rows|
        ensures !ResetTokenLive(after.rows[i], Some(token), later)
      {
        if i != k {
          assert s.rows[i].id != id;
          assert after.rows[i] == s.rows[i];
        }
      }
    }
  }

  /** At most one account holds the verification secret `token`. */
  ghost predicate VerificationTokenUnshared(rows: seq<Row>, token: string)
  {
    forall i, j :: 0 <= i < |rows| && 0 <= j < |rows| && rows[i].verificationToken == Some(token) && rows[j].verificationToken == Some(token) ==> i == j
  }

  /**
   * A verification secret is single-use: after `verifyEmail` succeeds with it,
   * it never reaches that account again and, if no other account shared it,
   * a second use is refused with 400 and changes nothing.
   */
  lemma VerificationTokenSingleUse(s: Store, token: string)
    requires WellFormed(s)
    requires FindByVerificationToken(s.rows, Some(token)).Some?
    ensures var id := FindByVerificationToken(s.rows, Some(token)).value;
      var after := VerifyEmail(s, Some(token)).store;
      FindByVerificationToken(after.rows, Some(token)) != Some(id)
    ensures VerificationTokenUnshared(s.rows, token) ==>
      var after := VerifyEmail(s, Some(token)).store;
      VerifyEmail(after, Some(token)) == Step(Reply(400, MsgBadVerificationToken), None, after)
  {
    var id := FindByVerificationToken(s.rows, Some(token)).value;
    var after := VerifyEmail(s, Some(token)).store;
    VerifiedAccountSelectsNothing(s.rows, id, Some(token));
    if VerificationTokenUnshared(s.rows, token) {
      var k :| 0 <= k < |s.rows| && s.rows[k].id == id && SqlEquals(s.rows[k].verificationToken, Some(token));
      forall i | 0 <= i < |after.rows|
        ensures !SqlEquals(after.rows[i].verificationToken, Some(token))
      {
        if i != k {
          assert s.rows[i].id != id;
          assert after.rows[i] == s.rows[i];
        }
      }
    }
  }

  /**
   * After a successful reset of the account at row `k`, its email logs in with
   * the new password, and no longer with any password bcrypt does not match
   * against the new hash.
   */
  lemma ResetThenLogin(s: Store, k: nat, token: string, password: string, hasher: PasswordHasher, salt: nat, now: nat,
                       otherPassword: string, tokens: SessionTokens)
    requires WellFormed(s) && k < |s.rows| && AcceptsOwnHashes(hasher)
    requires FindByResetToken(s.rows, Some(token), now) == Some(s.rows[k].id)
    ensures var after := ResetPassword(s, token, password, hasher, salt, now).store;
      && Login(after, s.rows[k].email, password, hasher, tokens).response.status == 200
      && (!hasher.compare(otherPassword, hasher.hash(password, SaltRounds, salt)) ==>
            Login(after, s.rows[k].email, otherPassword, hasher, tokens).response == Reply(401, MsgInvalidCredentials))
  {
    var after := ResetPassword(s, token, password, hasher, salt, now).store;
    assert after.rows[k].email == s.rows[k].email;
    assert after.rows[k].passwordHash == hasher.hash(password, SaltRounds, salt);
    FindByEmailFindsTheRow(after.rows, k);
  }

  /**
   * After a successful password change, the account logs in with the new
   * password and no longer with any password not matching the new hash.
   */
  lemma ChangePasswordThenLogin(s: Store, k: nat, currentPassword: string, newPassword: string,
                                hasher: PasswordHasher, salt: nat, otherPassword: string, tokens: SessionTokens)
    requires WellFormed(s) && k < |s.rows| && AcceptsOwnHashes(hasher)
    requires ChangePassword(s, s.rows[k].id, currentPassword, newPassword, hasher, salt).response.status == 200
    ensures var after := ChangePassword(s, s.rows[k].id, currentPassword, newPassword, hasher, salt).store;
      && Login(after, s.rows[k].email, newPassword, hasher, tokens).response.status == 200
      && (!hasher.compare(otherPassword, hasher.hash(newPassword, SaltRounds, salt)) ==>
            Login(after, s.rows[k].email, otherPassword, hasher, tokens).response == Reply(401, MsgInvalidCredentials))
  {
    var after := ChangePassword(s, s.rows[k].id, currentPassword, newPassword, hasher, salt).store;
    assert after.rows[k].email == s.rows[k].email;
    assert after.rows[k].passwordHash == hasher.hash(newPassword, SaltRounds, salt);
    FindByEmailFindsTheRow(after.rows, k);
  }
}
