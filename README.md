# Auth service: account table, handlers, gate and input sanitiser

This project models the core of a small authentication service and proves
properties of that model:

- the `users` table and the User model's statements (`create`, the four
  finders, and the four UPDATEs);
- the auth controller's handlers (`signup`, `login`, `logout`,
  `changePassword`, `forgotPassword`, `resetPassword`, `verifyEmail`,
  `getProfile`);
- the `authenticateToken` middleware that guards the profile and
  change-password routes;
- the client-side `sanitizeInput` and `sanitizeObject` helpers.

Layout, one module per file:

| file | module | what it holds |
|---|---|---|
| `base.dfy` | `Base` | `Option`, and SQL's `=` with NULL (`SqlEquals`) |
| `http.dfy` | `Http` | responses (status, message, public user fields, cookie effect) |
| `platform.dfy` | `Platform` | the library boundary: hex-encoded random secrets (with their round trip), bcrypt as a `hash`/`compare` pair, jsonwebtoken as a `sign`/`verify` pair |
| `user_model.dfy` | `UserModel` | table rows, the finders as selections, the UPDATEs as row rewrites, and the class `UserTable` whose methods apply them in place |
| `auth_middleware.dfy` | `AuthMiddleware` | token extraction, the gate as a function, and the middleware as a method on a `Request` object |
| `auth_lifecycle.dfy` | `AuthLifecycle` | each handler as a pure step from the table before the request to its response, the mail it sends and the table after; lemmas about sequences of requests |
| `auth_controller.dfy` | `AuthController` | the handlers as imperative methods over `UserTable`, each proved to produce exactly its `AuthLifecycle` step |
| `input_sanitization.dfy` | `InputSanitization` | the three global `replace` deletions, `trim`, `sanitizeInput` and the `sanitizeObject` loop |

Modelling decisions:

- A finder returns `result.rows[0]`, which is the first matching row in table order.
- A WHERE clause compared against a missing parameter (`undefined`, so SQL NULL) keeps no row.
- The parts of the schema that do not appear in the code are stated as assumptions:
  - ids come from a sequence that starts at 1;
  - `is_verified` defaults to false;
  - email is unique, so a second `create` with the same email is refused and the table is unchanged.
- `WellFormed` is the table invariant. It requires:
  - unique ids and unique emails;
  - ids below the sequence's next value;
  - a reset token and its expiry that are set or cleared together;
  - no verified account still holding a verification token.
- `Evolves` says that rows are only ever appended, no id or email changes, and a verified account stays verified. Every handler keeps the invariant and only evolves the table.
- The time is a number of milliseconds. `Date.now()` and `new Date()` are inputs.
- The 32 random bytes behind each secret are an input.
- Whether the mailer delivers is an input (`delivered`).
- bcrypt and jsonwebtoken are function parameters. Each has one stated property, used only as a hypothesis in lemmas:
  - `AcceptsOwnHashes`: `compare(p, hash(p))` holds;
  - `AcceptsOwnTokens`: a token just issued verifies to its id.
- `sanitizeInput` is modelled as follows:
  - Each global `replace` is a left-to-right scan. It deletes each match and resumes after it, which gives non-overlapping leftmost matches.
  - Case folding is ASCII-only. A regular expression with `i` and without `u` folds no other character onto an ASCII letter.
  - `trim` removes the full ECMAScript whitespace and line-terminator set.

## Model

| member | source | states |
|---|---|---|
| UserModel.FirstWhere | backend/models/User.js:15-16 | `result.rows[0]`: the result is the first row, in table order, that the WHERE clause keeps; None exactly when no row is kept |
| UserModel.FindByEmail | backend/models/User.js:14-17 | a row comes back exactly when some row has the email, and it is a row of the table with that email |
| UserModel.FindById | backend/models/User.js:20-23 | a hash comes back exactly when some row has the id, and it is that row's `password_hash` (the only selected column) |
| UserModel.FindByResetToken | backend/models/User.js:26-32 | an id comes back exactly when some row's reset token equals the argument and its expiry is strictly after now; it is such a row's id; a missing token selects nothing |
| UserModel.FindByVerificationToken | backend/models/User.js:35-38 | an id comes back exactly when some row's verification token equals the argument; a missing token selects nothing |
| UserModel.FindByIdFindsTheRow | backend/models/User.js:20-23 | with unique ids, looking up a row's id returns that row's hash |
| UserModel.FindByEmailFindsTheRow | backend/models/User.js:14-17 | with unique emails, looking up a row's email returns that row |
| UserModel.UpdateWhere | backend/models/User.js:42 | an UPDATE rewrites exactly the rows its WHERE clause keeps and leaves the others untouched |
| UserModel.SetPassword | backend/models/User.js:41-43 | every row with the id gets the new hash, no other field of any row changes, other rows are untouched, and ids and emails are kept |
| UserModel.SetResetToken | backend/models/User.js:46-51 | the row with the email gets both the new token and the new expiry, nothing else changes, and ids and emails are kept |
| UserModel.ClearReset | backend/models/User.js:54-59 | the row with the id gets NULL in both reset columns, nothing else changes, and ids and emails are kept |
| UserModel.MarkVerified | backend/models/User.js:62-67 | the row with the id becomes verified with a NULL verification token, nothing else changes, and ids and emails are kept |
| UserModel.NewAccount | backend/models/User.js:5-11 | the inserted row satisfies the per-row rules (no reset token without its expiry, unverified while a verification token is pending), and its public fields are the given id, email and name with `is_verified` false (the assumed column default) |
| UserModel.Insert | backend/models/User.js:5-11 | the old rows are kept and exactly one row is appended: the next id, the given email, hash, name and verification token, unverified, with no reset token |
| UserModel.InsertKeepsWellFormed | backend/models/User.js:5-11 | inserting an email not yet present keeps the table invariant |
| UserModel.UpdateKeepsWellFormed | backend/models/User.js:41-67 | an update that keeps ids, emails and each row's consistency keeps the table invariant |
| UserModel.NewResetTokenSupersedesOld | backend/models/User.js:46-51 | after a new reset token is written for an email, no other token selects that account |
| UserModel.ResetTokenLiveUntilExpiry | backend/models/User.js:26-51 | after a token is written with expiry `e`, and no other row holds that token, the token selects the account exactly while now < e |
| UserModel.ClearedResetTokenSelectsNothing | backend/models/User.js:54-59 | after the reset columns of an id are cleared, no token selects that id |
| UserModel.VerifiedAccountSelectsNothing | backend/models/User.js:62-67 | after an id is verified, no verification token selects that id |
| UserModel.UserTable.Create | backend/models/User.js:5-11 | for a new email: appends the new row and returns its id, email, name and `is_verified` (false). For an email already present: changes nothing. Keeps the invariant |
| UserModel.UserTable.UpdatePassword | backend/models/User.js:41-43 | the table in place becomes `SetPassword` of the old rows, and the invariant is kept |
| UserModel.UserTable.UpdateResetToken | backend/models/User.js:46-51 | the table in place becomes `SetResetToken` of the old rows, and the invariant is kept |
| UserModel.UserTable.ClearResetToken | backend/models/User.js:54-59 | the table in place becomes `ClearReset` of the old rows, and the invariant is kept |
| UserModel.UserTable.VerifyEmail | backend/models/User.js:62-67 | the table in place becomes `MarkVerified` of the old rows, and the invariant is kept |
| AuthMiddleware.IndexOf | backend/middleware/auth.js:6 | `indexOf`: the result is a position where the pattern occurs with no earlier occurrence; None exactly when it occurs nowhere |
| AuthMiddleware.RemoveFirst | backend/middleware/auth.js:6 | `replace` with a string pattern: unchanged when the pattern is absent; otherwise the result is the input with exactly the characters of the first occurrence removed |
| AuthMiddleware.RemoveBearerPrefix | backend/middleware/auth.js:6 | `Bearer <t>` with the prefix removed is exactly `<t>` |
| AuthMiddleware.ExtractToken | backend/middleware/auth.js:6 | a non-empty cookie token wins over any header; otherwise the token is the header with its first `Bearer ` removed, and there is none without a header |
| AuthMiddleware.BearerTokenUsedWithoutCookie | backend/middleware/auth.js:6 | without a usable cookie, a `Bearer <t>` header yields `<t>` |
| AuthMiddleware.SelectUser | backend/middleware/auth.js:13 | a view comes back exactly when some row has the id, and it is that row's id, email, name and verified flag |
| AuthMiddleware.SelectUserFindsTheRow | backend/middleware/auth.js:13 | with unique ids, selecting a row's id returns that row's public fields |
| AuthMiddleware.Authenticate | backend/middleware/auth.js:4-24 | every refusal is 401. No or empty token gives "No token provided". A token that does not verify, or whose id has no row, gives the same "Invalid token.". Admission happens exactly when the token is usable, verifies, and its id has a row, and it carries the public fields of a row with that id |
| AuthMiddleware.AuthenticateToken | backend/middleware/auth.js:4-24 | on admission: sends nothing, sets `req.user` to the resolved view and calls `next` exactly once. On refusal: sends the refusal, leaves `req.user` alone and does not call `next` |
| Platform.HexEncode | backend/controllers/authController.js:26 | `toString('hex')`: two lower-case hex digits per byte |
| Platform.HexRoundTrip | backend/controllers/authController.js:26 | decoding the hex text gives back the bytes |
| Platform.HexEncodeInjective | backend/controllers/authController.js:139 | distinct random draws give distinct secrets |
| Platform.SecretToken | backend/controllers/authController.js:26 | a secret from 32 random bytes is 64 lower-case hex digits |
| AuthLifecycle.Signup | backend/controllers/authController.js:11-47 | a registered email gives 400 and nothing changes (and 400 only then). Otherwise exactly one row is inserted with `hash(password)` and the fresh secret, the secret is mailed, and the status is 201 or, if delivery fails, 500. A 201 carries exactly the new row's public fields. Keeps the invariant and evolves the table |
| AuthLifecycle.Login | backend/controllers/authController.js:49-89 | nothing is written. 200 exactly when the email's row matches the password. Unknown email and wrong password give the identical 401 "Invalid credentials". Success carries the row's public fields and a seven-day cookie holding `sign(id)` |
| AuthLifecycle.Logout | backend/controllers/authController.js:91-94 | 200 that clears the session cookie; no write, no user |
| AuthLifecycle.GetProfile | backend/controllers/authController.js:200-209 | 200 whose `user` is exactly the gate's user, no message, cookie untouched |
| AuthLifecycle.ChangePassword | backend/controllers/authController.js:96-125 | an absent id gives 404, and only that case does. A wrong current password gives 400 with nothing changed. 200 exactly on a match, and then only that id's hash is replaced by `hash(newPassword)`. No failure writes |
| AuthLifecycle.ForgotPassword | backend/controllers/authController.js:127-153 | an unknown email gives the generic 200 and changes nothing. A known email gets a fresh secret expiring at now + 3,600,000 ms, mailed to it, with the same generic 200 (500 if delivery fails) |
| AuthLifecycle.ResetPassword | backend/controllers/authController.js:155-178 | a token that selects no live row gives 400 with nothing changed, and 400 only then. Otherwise 200, the selected account's hash is replaced, and its reset token is cleared |
| AuthLifecycle.VerifyEmail | backend/controllers/authController.js:180-198 | a missing or unknown token gives 400 with nothing changed. Otherwise 200, and the selected account becomes verified with its token cleared |
| AuthLifecycle.SignupThenLogin | backend/controllers/authController.js:11-89 | right after signing up, the same email and password log in as the new unverified account |
| AuthLifecycle.LoginSessionPassesGate | backend/controllers/authController.js:66-83 | the cookie a login sets admits its holder at the gate, as the account that logged in, whatever header comes with it |
| AuthLifecycle.ResetWindowAfterForgot | backend/controllers/authController.js:139-171 | after `forgotPassword` issues an unshared secret at time t, `resetPassword` with it succeeds exactly while now < t + 3,600,000 |
| AuthLifecycle.SecondForgotSupersedesFirst | backend/controllers/authController.js:139-143 | after a second `forgotPassword` for the same email, the first secret no longer reaches the account |
| AuthLifecycle.ResetTokenSingleUse | backend/controllers/authController.js:160-171 | after a successful reset, the token never reaches that account again. If no other account held it, a second reset is refused with 400 and changes nothing |
| AuthLifecycle.VerificationTokenSingleUse | backend/controllers/authController.js:185-191 | after a successful verification, the token never reaches that account again. If it was unshared, a second verification is refused with 400 and changes nothing |
| AuthLifecycle.ResetThenLogin | backend/controllers/authController.js:155-178 | after a reset, the account logs in with the new password and gets 401 for any password bcrypt does not match against the new hash |
| AuthLifecycle.ChangePasswordThenLogin | backend/controllers/authController.js:96-125 | after a password change, the account logs in with the new password and gets 401 for any password not matching the new hash |
| AuthController.Signup | backend/controllers/authController.js:11-47 | the handler's response, mail and new table are exactly `AuthLifecycle.Signup` of the old table; the invariant is kept |
| AuthController.Login | backend/controllers/authController.js:49-89 | the handler's response is exactly `AuthLifecycle.Login`, and the table is untouched |
| AuthController.ChangePassword | backend/controllers/authController.js:96-125 | the handler's response and new table are exactly `AuthLifecycle.ChangePassword` of the old table |
| AuthController.ForgotPassword | backend/controllers/authController.js:127-153 | the handler's response, mail and new table are exactly `AuthLifecycle.ForgotPassword` of the old table |
| AuthController.ResetPassword | backend/controllers/authController.js:155-178 | the two successive UPDATEs give exactly `AuthLifecycle.ResetPassword` of the old table |
| AuthController.VerifyEmail | backend/controllers/authController.js:180-198 | the handler's response and new table are exactly `AuthLifecycle.VerifyEmail` of the old table |
| InputSanitization.WordRun | frontend/src/hooks/useInputSanitization.js:12 | `\w+` is greedy: the length of the maximal run of word characters at the start |
| InputSanitization.AngleBracketMatch | frontend/src/hooks/useInputSanitization.js:10 | `/[<>]/` matches at a position exactly when the character there is `<` or `>`, and the match is that one character |
| InputSanitization.SchemeMatch | frontend/src/hooks/useInputSanitization.js:11 | `/javascript:/i` matches at a position exactly when the next eleven characters fold to `javascript:`, and the match is those eleven characters |
| InputSanitization.HandlerMatch | frontend/src/hooks/useInputSanitization.js:12 | `/on\w+=/i` at a position: no match, or one of at least four characters; characterised exactly by `EventHandlerMatch` |
| InputSanitization.Scan | frontend/src/hooks/useInputSanitization.js:10-12 | a global `replace(re, '')` as a left-to-right scan; never longer than its input, and characterised by `ScanSubsequence`, `LeftmostMatchDeleted`, `ScanShrinks` and `ScanUnchangedIffNoMatch` |
| InputSanitization.ReplaceAll | frontend/src/hooks/useInputSanitization.js:10-12 | the scan for one of the three regular expressions; never longer than its input |
| InputSanitization.ScanSubsequence | frontend/src/hooks/useInputSanitization.js:10-12 | each global `replace(re, '')` only deletes characters |
| InputSanitization.LeftmostMatchDeleted | frontend/src/hooks/useInputSanitization.js:10-12 | when the leftmost match is at position i, the prefix before it is kept, the match is deleted, and scanning resumes after it |
| InputSanitization.ScanShrinks | frontend/src/hooks/useInputSanitization.js:10-12 | a match anywhere makes the result strictly shorter |
| InputSanitization.ScanUnchangedIffNoMatch | frontend/src/hooks/useInputSanitization.js:10-12 | a deletion step leaves its input unchanged exactly when its pattern matches nowhere in it |
| InputSanitization.AngleBracketsGone | frontend/src/hooks/useInputSanitization.js:10 | the first step leaves no `<` or `>` |
| InputSanitization.EventHandlerMatch | frontend/src/hooks/useInputSanitization.js:12 | the handler pattern matches with length k + 3 exactly when the text starts with a case-insensitive `on`, then a maximal run of k >= 1 word characters, then `=` |
| InputSanitization.LeadingWhitespace | frontend/src/hooks/useInputSanitization.js:13 | the number of whitespace characters at the start, followed by a non-whitespace one or the end |
| InputSanitization.TrailingWhitespace | frontend/src/hooks/useInputSanitization.js:13 | the number of whitespace characters at the end, preceded by a non-whitespace one or the start |
| InputSanitization.Trim | frontend/src/hooks/useInputSanitization.js:13 | the result is a middle slice of the input, everything before and after it is whitespace, and it neither starts nor ends with whitespace |
| InputSanitization.TrimSubsequence | frontend/src/hooks/useInputSanitization.js:13 | trimming only deletes characters |
| InputSanitization.TrimUnpadded | frontend/src/hooks/useInputSanitization.js:13 | trimming a string with no padding changes nothing |
| InputSanitization.SanitizeString | frontend/src/hooks/useInputSanitization.js:9-13 | the output has no `<` or `>`, no leading or trailing whitespace, and is a subsequence of the input, so no longer |
| InputSanitization.SanitizeInput | frontend/src/hooks/useInputSanitization.js:5-14 | a non-string comes back unchanged; a string comes back sanitised |
| InputSanitization.SanitizeObject | frontend/src/hooks/useInputSanitization.js:17-28 | the result has exactly the own keys other than `__proto__` (assigning that key calls the inherited accessor rather than creating a property). String values are sanitised, other values are kept identical, and inherited keys are skipped |
| InputSanitization.SanitizeNotIdempotent | frontend/src/hooks/useInputSanitization.js:11 | `javajavascript:script:` sanitises to `javascript:`, which sanitises again to the empty string |
| InputSanitization.HandlerDeletionNotIdempotent | frontend/src/hooks/useInputSanitization.js:12 | `oonb=na=` sanitises to `ona=`, which sanitises again to the empty string |

## Left out

- bcrypt, jsonwebtoken and `crypto.randomBytes` internals: they are library calls, modelled only at their boundary as function parameters and random input bytes.
- `generateToken` is the `sign` function of those parameters. The `JWT_EXPIRE` lifetime is part of what `verify` accepts, so expiry of a session is not modelled separately.
- The PostgreSQL pool: query failures and the `catch` blocks they reach (500 in the handlers, 401 in the gate) are not modelled. The only failure modelled after a write is mail delivery.
- The database schema is not part of this model. It is covered only by the assumptions stated above: an id sequence from 1, `is_verified` defaulting to false, unique emails.
- Concurrent requests, and signups that race on the same email: requests are modelled one at a time.
- Email content and transport (`backend/services/emailService.js`): the model keeps only the recipient and the secret of each mail.
- Express wiring, helmet, CORS, rate limiters and the request validation middleware: configuration with no logic. Body fields are taken to be strings.
- Cookie options other than the seven-day `maxAge` (`httpOnly`, `secure`, `sameSite`): these are transport settings.
- The React components and the HTTP client on the frontend: UI state only.
- AuthLifecycle.ForgotPassword: the response is uniform for known and unknown emails only when the reset mail is delivered. When sending fails after the write, the source answers 500 for a known email and 200 for an unknown one, and the model states exactly that.
- InputSanitization.SanitizeInput: JavaScript strings are UTF-16 code units, while the model's characters are Unicode scalar values. For these patterns this changes nothing on well-formed text: no character outside the Basic Multilingual Plane is whitespace, and no surrogate code unit is `<`, `>`, a word character or a letter. Only strings holding lone surrogates cannot be represented.
- InputSanitization.SanitizeObject: the object is given as its own enumerable properties and the names of its inherited ones. Getters, symbol keys and `sanitizeObject` on a non-object are not modelled, and the `for...in` visiting order is an arbitrary choice.
- InputSanitization.SanitizeObject: an own `__proto__` value that is an object or null also becomes the prototype of the result; the model records only that no `__proto__` key is created.
- InputSanitization.SanitizeObject: `obj.hasOwnProperty(key)` throws a TypeError on an object without `Object.prototype` in its chain, or whose own `hasOwnProperty` is not a function. The model assumes the method is the standard one and returns a map in those cases.
- Timestamps are whole milliseconds. Database timestamp precision and time zones are not modelled.
