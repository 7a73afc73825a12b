/**
 * The authentication gate in front of the profile and change-password
 * handlers: pick the session token (cookie first, then the bearer header),
 * verify it, and re-read the account it names.
 */
module AuthMiddleware {

  import opened Base
  import opened Http
  import opened Platform
  import opened UserModel

  const BearerPrefix: string := "Bearer "
  const MsgNoToken: string := "Access denied. No token provided."
  const MsgInvalidToken: string := "Invalid token."

  /** `pattern` occurs in `s` starting at position `j`. */
  predicate OccursAt(s: string, pattern: string, j: nat)
  {
    j + |pattern| <= |s| && s[j..j + |pattern|] == pattern
  }

  /** `s.indexOf(pattern)`: the first position at which `pattern` occurs in `s`. */
  function IndexOf(s: string, pattern: string): (r: Option<nat>)
    ensures r.Some? ==> OccursAt(s, pattern, r.value)
    ensures r.Some? ==> forall j: nat :: j < r.value ==> !OccursAt(s, pattern, j)
    ensures r.None? ==> forall j: nat :: !OccursAt(s, pattern, j)
    decreases |s|
  {
    if |pattern| > |s| then None
    else if s[..|pattern|] == pattern then Some(0)
    else
      assert forall j: nat :: OccursAt(s, pattern, j + 1) <==> OccursAt(s[1..], pattern, j) by {
        forall j: nat ensures OccursAt(s, pattern, j + 1) <==> OccursAt(s[1..], pattern, j) {
          if j + 1 + |pattern| <= |s| {
            var t := s[1..];
            var a, b := s[j + 1..j + 1 + |pattern|], t[j..j + |pattern|];
            assert forall m :: 0 <= m < |pattern| ==> a[m] == b[m];
            assert a == b;
          }
        }
      }
      match IndexOf(s[1..], pattern)
      case None =>
        assert forall j: nat :: j >= 1 ==> !OccursAt(s, pattern, j) by {
          forall j: nat | j >= 1 ensures !OccursAt(s, pattern, j) {
            assert !OccursAt(s[1..], pattern, j - 1);
          }
        }
        None
      case Some(k) =>
        assert forall j: nat :: 1 <= j <= k ==> !OccursAt(s, pattern, j) by {
          forall j: nat | 1 <= j <= k ensures !OccursAt(s, pattern, j) {
            assert !OccursAt(s[1..], pattern, j - 1);
          }
        }
        Some(k + 1)
  }

  /** `s.replace(pattern, '')` with a string pattern: only the first occurrence is removed. */
  function RemoveFirst(s: string, pattern: string): (r: string)
    ensures IndexOf(s, pattern).None? ==> r == s
    ensures IndexOf(s, pattern).Some? ==> |r| == |s| - |pattern|
    ensures IndexOf(s, pattern).Some? ==>
      exists i: nat :: && OccursAt(s, pattern, i)
                       && (forall j: nat :: j < i ==> !OccursAt(s, pattern, j))
                       && r == s[..i] + s[i + |pattern|..]
  {
    match IndexOf(s, pattern)
    case None => s
    case Some(i) => s[..i] + s[i + |pattern|..]
  }

  /** A header `Bearer <t>` yields exactly `<t>`. */
  lemma RemoveBearerPrefix(t: string)
    ensures RemoveFirst(BearerPrefix + t, BearerPrefix) == t
  {
    var s := BearerPrefix + t;
    assert OccursAt(s, BearerPrefix, 0);
    assert s[|BearerPrefix|..] == t;
  }

  /** `req.cookies.token || req.header('Authorization')?.replace('Bearer ', '')`. */
  function ExtractToken(cookie: Option<string>, authorization: Option<string>): (r: Option<string>)
    ensures cookie.Some? && cookie.value != "" ==> r == cookie
    ensures (cookie.None? || cookie.value == "") ==> (r.Some? <==> authorization.Some?)
    ensures (cookie.None? || cookie.value == "") && authorization.Some? ==>
      r.value == RemoveFirst(authorization.value, BearerPrefix)
  {
    if cookie.Some? && cookie.value != "" then cookie
    else if authorization.Some? then Some(RemoveFirst(authorization.value, BearerPrefix))
    else None
  }

  /** Without a usable cookie, a bearer header's token is the one used. */
  lemma BearerTokenUsedWithoutCookie(cookie: Option<string>, t: string)
    requires cookie.None? || cookie.value == ""
    ensures ExtractToken(cookie, Some(BearerPrefix + t)) == Some(t)
  {
    RemoveBearerPrefix(t);
  }

  /** `SELECT id, email, name, is_verified FROM users WHERE id = $1`. */
  function SelectUser(rows: seq<Row>, id: nat): (r: Option<UserView>)
    ensures r.Some? <==> HasId(rows, id)
    ensures r.Some? ==> exists i :: 0 <= i < |rows| && rows[i].id == id && r.value == PublicView(rows[i])
  {
    match FirstWhere(rows, (row: Row) => row.id == id)
    case None => None
    case Some(i) => Some(PublicView(rows[i]))
  }

  /** Where ids are unique, the gate resolves an id to its own row's public fields. */
  lemma SelectUserFindsTheRow(rows: seq<Row>, i: nat)
    requires IdsUnique(rows) && i < |rows|
    ensures SelectUser(rows, rows[i].id) == Some(PublicView(rows[i]))
  {
  }

  /** Either the gate refuses with a response, or it admits the request with the account it resolved. */
  datatype GateOutcome = Reject(response: Response) | Admit(user: UserView)

  /** A truthy token: present and not the empty string. */
  predicate Usable(token: Option<string>)
  {
    token.Some? && token.value != ""
  }

  /**
   * `authenticateToken`: a missing or empty token is refused with 401 "No token
   * provided"; a token that does not verify and one whose id has no row are
   * both refused with the same 401 "Invalid token."; otherwise the request is
   * admitted with the freshly selected public fields of the account.
   */
  function Authenticate(cookie: Option<string>, authorization: Option<string>, tokens: SessionTokens, rows: seq<Row>): (r: GateOutcome)
    ensures r.Reject? ==> r.response.status == 401 && r.response.user.None? && r.response.cookie == KeepCookie
    ensures !Usable(ExtractToken(cookie, authorization)) ==> r == Reject(Reply(401, MsgNoToken))
    ensures Usable(ExtractToken(cookie, authorization)) ==>
      var id := tokens.verify(ExtractToken(cookie, authorization).value);
      (id.None? || !HasId(rows, id.value)) ==> r == Reject(Reply(401, MsgInvalidToken))
    ensures r.Admit? ==>
      && Usable(ExtractToken(cookie, authorization))
      && var id := tokens.verify(ExtractToken(cookie, authorization).value);
      && id.Some?
      && exists i :: 0 <= i < |rows| && rows[i].id == id.value && r.user == PublicView(rows[i])
    ensures var t := ExtractToken(cookie, authorization);
      r.Admit? <==> Usable(t) && tokens.verify(t.value).Some? && HasId(rows, tokens.verify(t.value).value)
  {
    var token := ExtractToken(cookie, authorization);
    if !Usable(token) then Reject(Reply(401, MsgNoToken))
    else
      match tokens.verify(token.value)
      case None => Reject(Reply(401, MsgInvalidToken))
      case Some(id) =>
        match SelectUser(rows, id)
        case None => Reject(Reply(401, MsgInvalidToken))
        case Some(user) => Admit(user)
  }

  /** The parts of an Express request the gate reads and writes. */
  class Request {
    const cookieToken: Option<string>
    const authorization: Option<string>
    var user: Option<UserView>
    /** How many times `next()` has been called for this request. */
    var nextCalls: nat

    constructor (cookieToken: Option<string>, authorization: Option<string>)
      ensures this.cookieToken == cookieToken && this.authorization == authorization
      ensures user.None? && nextCalls == 0
    {
      this.cookieToken := cookieToken;
      this.authorization := authorization;
      user := None;
      nextCalls := 0;
    }
  }

  /**
   * The middleware itself: on admission it sets `req.user` and calls `next()`
   * once, sending nothing; on refusal it sends the refusal and leaves the
   * request alone.
   */
  method AuthenticateToken(req: Request, tokens: SessionTokens, users: UserTable) returns (sent: Option<Response>)
    modifies req
    ensures match Authenticate(req.cookieToken, req.authorization, tokens, users.rows)
      case Admit(u) => sent.None? && req.user == Some(u) && req.nextCalls == old(req.nextCalls) + 1
      case Reject(response) => sent == Some(response) && req.user == old(req.user) && req.nextCalls == old(req.nextCalls)
  {
    var token := ExtractToken(req.cookieToken, req.authorization);
    if !Usable(token) {
      return Some(Reply(401, MsgNoToken));
    }
    var decoded := tokens.verify(token.value);
    if decoded.None? {
      return Some(Reply(401, MsgInvalidToken));
    }
    var user := SelectUser(users.rows, decoded.value);
    if user.None? {
      return Some(Reply(401, MsgInvalidToken));
    }
    req.user := user;
    req.nextCalls := req.nextCalls + 1;
    sent := None;
  }
}
