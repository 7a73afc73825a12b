/**
 * The auth controller's handlers as they run: each reads and writes the
 * shared `users` table through the User model's statements, with early
 * returns, and is proved to produce exactly the step AuthLifecycle
 * describes. Request-body fields arrive as strings; the verify-email query
 * token may be missing.
 */
module AuthController {

  import opened Base
  import opened Http
  import opened Platform
  import opened UserModel
  import AuthLifecycle

  type Mail = AuthLifecycle.Mail

  method Signup(users: UserTable, email: string, password: string, name: string,
                hasher: PasswordHasher, salt: nat, entropy: seq<byte>, delivered: bool)
    returns (response: Response, mail: Option<Mail>)
    requires users.Valid() && |entropy| == SecretBytes
    modifies users
    ensures users.Valid()
    ensures AuthLifecycle.Step(response, mail, users.State()) ==
            AuthLifecycle.Signup(old(users.State()), email, password, name, hasher, salt, entropy, delivered)
  {
    var existingUser := FindByEmail(users.rows, email);
    if existingUser.Some? {
      return Reply(400, AuthLifecycle.MsgUserExists), None;
    }
    var passwordHash := hasher.hash(password, AuthLifecycle.SaltRounds, salt);
    var verificationToken := SecretToken(entropy);
    var user := users.Create(email, passwordHash, name, verificationToken);
    mail := Some(AuthLifecycle.VerificationMail(email, verificationToken));
    if !delivered {
      return Reply(500, AuthLifecycle.MsgInternal), mail;
    }
    response := Response(201, Some(AuthLifecycle.MsgSignedUp), user, KeepCookie);
  }

  method Login(users: UserTable, email: string, password: string, hasher: PasswordHasher, tokens: SessionTokens)
    returns (response: Response)
    ensures AuthLifecycle.Step(response, None, users.State()) ==
            AuthLifecycle.Login(users.State(), email, password, hasher, tokens)
  {
    var user := FindByEmail(users.rows, email);
    if user.None? {
      return Reply(401, AuthLifecycle.MsgInvalidCredentials);
    }
    var isPasswordValid := hasher.compare(password, user.value.passwordHash);
    if !isPasswordValid {
      return Reply(401, AuthLifecycle.MsgInvalidCredentials);
    }
    var token := tokens.sign(user.value.id);
    response := Response(200, Some(AuthLifecycle.MsgLoggedIn), Some(PublicView(user.value)),
                         SetSessionCookie(token, AuthLifecycle.SessionCookieMaxAgeMs));
  }

  /** `changePassword` for `userId`, the id the gate put in `req.user`. */
  method ChangePassword(users: UserTable, userId: nat, currentPassword: string, newPassword: string,
                        hasher: PasswordHasher, salt: nat)
    returns (response: Response)
    requires users.Valid()
    modifies users
    ensures users.Valid()
    ensures AuthLifecycle.Step(response, None, users.State()) ==
            AuthLifecycle.ChangePassword(old(users.State()), userId, currentPassword, newPassword, hasher, salt)
  {
    var user := FindById(users.rows, userId);
    if user.None? {
      return Reply(404, AuthLifecycle.MsgUserNotFound);
    }
    var isCurrentPasswordValid := hasher.compare(currentPassword, user.value);
    if !isCurrentPasswordValid {
      return Reply(400, AuthLifecycle.MsgWrongCurrentPassword);
    }
    var newPasswordHash := hasher.hash(newPassword, AuthLifecycle.SaltRounds, salt);
    users.UpdatePassword(userId, newPasswordHash);
    response := Reply(200, AuthLifecycle.MsgPasswordChanged);
  }

  /** `forgotPassword`, with `now` the value of `Date.now()`. */
  method ForgotPassword(users: UserTable, email: string, entropy: seq<byte>, now: nat, delivered: bool)
    returns (response: Response, mail: Option<Mail>)
    requires users.Valid() && |entropy| == SecretBytes
    modifies users
    ensures users.Valid()
    ensures AuthLifecycle.Step(response, mail, users.State()) ==
            AuthLifecycle.ForgotPassword(old(users.State()), email, entropy, now, delivered)
  {
    var user := FindByEmail(users.rows, email);
    if user.None? {
      return Reply(200, AuthLifecycle.MsgResetLinkSent), None;
    }
    var resetToken := SecretToken(entropy);
    var resetTokenExpires := now + AuthLifecycle.ResetTokenLifetimeMs;
    users.UpdateResetToken(email, resetToken, resetTokenExpires);
    mail := Some(AuthLifecycle.ResetMail(email, resetToken));
    if !delivered {
      return Reply(500, AuthLifecycle.MsgInternal), mail;
    }
    response := Reply(200, AuthLifecycle.MsgResetLinkSent);
  }

  /** `resetPassword`, with `now` the time `findByResetToken` compares the expiry against. */
  method ResetPassword(users: UserTable, token: string, password: string, hasher: PasswordHasher, salt: nat, now: nat)
    returns (response: Response)
    requires users.Valid()
    modifies users
    ensures users.Valid()
    ensures AuthLifecycle.Step(response, None, users.State()) ==
            AuthLifecycle.ResetPassword(old(users.State()), token, password, hasher, salt, now)
  {
    var user := FindByResetToken(users.rows, Some(token), now);
    if user.None? {
      return Reply(400, AuthLifecycle.MsgBadResetToken);
    }
    var passwordHash := hasher.hash(password, AuthLifecycle.SaltRounds, salt);
    users.UpdatePassword(user.value, passwordHash);
    users.ClearResetToken(user.value);
    response := Reply(200, AuthLifecycle.MsgPasswordReset);
  }

  /** `verifyEmail` with `req.query.token`, which is None when the parameter is missing. */
  method VerifyEmail(users: UserTable, token: Option<string>) returns (response: Response)
    requires users.Valid()
    modifies users
    ensures users.Valid()
    ensures AuthLifecycle.Step(response, None, users.State()) == AuthLifecycle.VerifyEmail(old(users.State()), token)
  {
    var user := FindByVerificationToken(users.rows, token);
    if user.None? {
      return Reply(400, AuthLifecycle.MsgBadVerificationToken);
    }
    users.VerifyEmail(user.value);
    response := Reply(200, AuthLifecycle.MsgEmailVerified);
  }
}
