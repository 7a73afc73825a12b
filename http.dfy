/** The shape of the HTTP responses the handlers and the gate produce. */
module Http {

  import opened Base

  /** What a response does to the session cookie named `token`. */
  datatype CookieAction =
    | KeepCookie
    | SetSessionCookie(token: string, maxAgeMs: nat)
    | ClearSessionCookie

  /** The public fields of an account; the only user object a response ever carries. */
  datatype UserView = UserView(id: nat, email: string, name: string, isVerified: bool)

  /**
   * A response: its status code, the `message` field of its JSON body (absent
   * for the profile response), the `user` field of the body, and its cookie effect.
   */
  datatype Response = Response(status: nat, message: Option<string>, user: Option<UserView>, cookie: CookieAction)

  /** A response whose body is just `{ message }` and that leaves the cookie alone. */
  function Reply(status: nat, message: string): Response
  {
    Response(status, Some(message), None, KeepCookie)
  }
}
