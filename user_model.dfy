/**
 * The `users` table and the statements of the User model: each finder is
 * a selection over the rows, each INSERT/UPDATE a single statement that
 * the class UserTable applies in place.
 */
module UserModel {

  import opened Base
  import opened Http

  /** One row of `users`. Absent tokens and expiries are SQL NULLs. */
  datatype Row = Row(
    id: nat,
    email: string,
    passwordHash: string,
    name: string,
    isVerified: bool,
    verificationToken: Option<string>,
    resetToken: Option<string>,
    resetTokenExpires: Option<nat>)

  /** The rows in table order, and the next value of the id sequence. */
  datatype Store = Store(rows: seq<Row>, nextId: nat)

  /** `id, email, name, is_verified`: the columns `create` and the gate select. */
  function PublicView(row: Row): UserView
  {
    UserView(row.id, row.email, row.name, row.isVerified)
  }

  predicate HasEmail(rows: seq<Row>, email: string)
  {
    exists i :: 0 <= i < |rows| && rows[i].email == email
  }

  predicate HasId(rows: seq<Row>, id: nat)
  {
    exists i :: 0 <= i < |rows| && rows[i].id == id
  }

  ghost predicate IdsUnique(rows: seq<Row>)
  {
    forall i, j :: 0 <= i < j < |rows| ==> rows[i].id != rows[j].id
  }

  ghost predicate EmailsUnique(rows: seq<Row>)
  {
    forall i, j :: 0 <= i < j < |rows| ==> rows[i].email != rows[j].email
  }

  /** The per-row rules: reset token and expiry are set together; a pending verification token means unverified. */
  ghost predicate RowConsistent(row: Row)
  {
    && (row.resetToken.Some? <==> row.resetTokenExpires.Some?)
    && (row.verificationToken.Some? ==> !row.isVerified)
  }

  /**
   * The table invariant. Ids come from a sequence starting at 1; email
   * uniqueness is the constraint the schema is assumed to declare.
   */
  ghost predicate WellFormed(s: Store)
  {
    && s.nextId >= 1
    && (forall i :: 0 <= i < |s.rows| ==> 1 <= s.rows[i].id < s.nextId && RowConsistent(s.rows[i]))
    && IdsUnique(s.rows)
    && EmailsUnique(s.rows)
  }

  // ---------------------------------------------------------------- selections

  /** `result.rows[0]` of a SELECT: the first row, in table order, that the WHERE clause keeps. */
  function FirstWhere(rows: seq<Row>, keep: Row -> bool): (r: Option<nat>)
    ensures r.Some? ==> r.value < |rows| && keep(rows[r.value])
    ensures r.Some? ==> forall j :: 0 <= j < r.value ==> !keep(rows[j])
    ensures r.None? <==> forall j :: 0 <= j < |rows| ==> !keep(rows[j])
    decreases |rows|
  {
    if rows == [] then None
    else if keep(rows[0]) then Some(0)
    else match FirstWhere(rows[1..], keep)
      case None => None
      case Some(k) => Some(k + 1)
  }

  /** `SELECT * FROM users WHERE email = $1`. */
  function FindByEmail(rows: seq<Row>, email: string): (r: Option<Row>)
    ensures r.Some? <==> HasEmail(rows, email)
    ensures r.Some? ==> r.value in rows && r.value.email == email
  {
    match FirstWhere(rows, (row: Row) => row.email == email)
    case None => None
    case Some(i) => Some(rows[i])
  }

  /** `SELECT password_hash FROM users WHERE id = $1`: only the hash comes back. */
  function FindById(rows: seq<Row>, id: nat): (r: Option<string>)
    ensures r.Some? <==> HasId(rows, id)
    ensures r.Some? ==> exists i :: 0 <= i < |rows| && rows[i].id == id && rows[i].passwordHash == r.value
  {
    match FirstWhere(rows, (row: Row) => row.id == id)
    case None => None
    case Some(i) => Some(rows[i].passwordHash)
  }

  /** The WHERE clause of `findByResetToken`: the token matches and its expiry is still ahead of `now`. */
  predicate ResetTokenLive(row: Row, token: Option<string>, now: nat)
  {
    SqlEquals(row.resetToken, token) && row.resetTokenExpires.Some? && row.resetTokenExpires.value > now
  }

  /**
   * `SELECT id FROM users WHERE reset_token = $1 AND reset_token_expires > $2`
   * with the current time as `$2`. An expired token, and a NULL one, select nothing.
   */
  function FindByResetToken(rows: seq<Row>, token: Option<string>, now: nat): (r: Option<nat>)
    ensures r.Some? <==> exists i :: 0 <= i < |rows| && ResetTokenLive(rows[i], token, now)
    ensures r.Some? ==> exists i :: 0 <= i < |rows| && rows[i].id == r.value && ResetTokenLive(rows[i], token, now)
    ensures token.None? ==> r.None?
  {
    match FirstWhere(rows, (row: Row) => ResetTokenLive(row, token, now))
    case None => None
    case Some(i) => Some(rows[i].id)
  }

  /** `SELECT id FROM users WHERE verification_token = $1`; a missing token selects nothing. */
  function FindByVerificationToken(rows: seq<Row>, token: Option<string>): (r: Option<nat>)
    ensures r.Some? <==> exists i :: 0 <= i < |rows| && SqlEquals(rows[i].verificationToken, token)
    ensures r.Some? ==> exists i :: 0 <= i < |rows| && rows[i].id == r.value && SqlEquals(rows[i].verificationToken, token)
    ensures token.None? ==> r.None?
  {
    match FirstWhere(rows, (row: Row) => SqlEquals(row.verificationToken, token))
    case None => None
    case Some(i) => Some(rows[i].id)
  }

  /** Where ids are unique, the row carrying an id is the one `WHERE id = $1` reaches. */
  lemma FindByIdFindsTheRow(rows: seq<Row>, i: nat)
    requires IdsUnique(rows) && i < |rows|
    ensures FindById(rows, rows[i].id) == Some(rows[i].passwordHash)
  {
  }

  /** Where emails are unique, the row carrying an email is the one `WHERE email = $1` reaches. */
  lemma FindByEmailFindsTheRow(rows: seq<Row>, i: nat)
    requires EmailsUnique(rows) && i < |rows|
    ensures FindByEmail(rows, rows[i].email) == Some(rows[i])
  {
  }

  // ---------------------------------------------------------------- statements

  /** Rows `a` and `b` are the same rows, each with the same id and email. */
  ghost predicate SameIdentities(a: seq<Row>, b: seq<Row>)
  {
    |a| == |b| && forall i :: 0 <= i < |a| ==> a[i].id == b[i].id && a[i].email == b[i].email
  }

  /** `UPDATE users SET ... WHERE ...`: every row the condition keeps is rewritten, the others are untouched. */
  function UpdateWhere(rows: seq<Row>, keep: Row -> bool, assign: Row -> Row): (r: seq<Row>)
    ensures |r| == |rows|
    ensures forall i :: 0 <= i < |rows| ==> r[i] == (if keep(rows[i]) then assign(rows[i]) else rows[i])
  {
    seq(|rows|, i requires 0 <= i < |rows| => if keep(rows[i]) then assign(rows[i]) else rows[i])
  }

  /** `UPDATE users SET password_hash = $1 WHERE id = $2`. */
  function SetPassword(rows: seq<Row>, id: nat, hash: string): (r: seq<Row>)
    ensures SameIdentities(rows, r)
    ensures forall i :: 0 <= i < |rows| && rows[i].id == id ==> r[i].passwordHash == hash
    ensures forall i :: 0 <= i < |rows| ==> r[i].(passwordHash := rows[i].passwordHash) == rows[i]
    ensures forall i :: 0 <= i < |rows| && rows[i].id != id ==> r[i] == rows[i]
  {
    UpdateWhere(rows, (row: Row) => row.id == id, (row: Row) => row.(passwordHash := hash))
  }

  /** `UPDATE users SET reset_token = $1, reset_token_expires = $2 WHERE email = $3`. */
  function SetResetToken(rows: seq<Row>, email: string, token: string, expires: nat): (r: seq<Row>)
    ensures SameIdentities(rows, r)
    ensures forall i :: 0 <= i < |rows| && rows[i].email == email ==>
      r[i].resetToken == Some(token) && r[i].resetTokenExpires == Some(expires)
    ensures forall i :: 0 <= i < |rows| ==>
      r[i].(resetToken := rows[i].resetToken, resetTokenExpires := rows[i].resetTokenExpires) == rows[i]
    ensures forall i :: 0 <= i < |rows| && rows[i].email != email ==> r[i] == rows[i]
  {
    UpdateWhere(rows, (row: Row) => row.email == email,
                (row: Row) => row.(resetToken := Some(token), resetTokenExpires := Some(expires)))
  }

  /** `UPDATE users SET reset_token = NULL, reset_token_expires = NULL WHERE id = $1`. */
  function ClearReset(rows: seq<Row>, id: nat): (r: seq<Row>)
    ensures SameIdentities(rows, r)
    ensures forall i :: 0 <= i < |rows| && rows[i].id == id ==>
      r[i].resetToken.None? && r[i].resetTokenExpires.None?
    ensures forall i :: 0 <= i < |rows| ==>
      r[i].(resetToken := rows[i].resetToken, resetTokenExpires := rows[i].resetTokenExpires) == rows[i]
    ensures forall i :: 0 <= i < |rows| && rows[i].id != id ==> r[i] == rows[i]
  {
    UpdateWhere(rows, (row: Row) => row.id == id, (row: Row) => row.(resetToken := None, resetTokenExpires := None))
  }

  /** `UPDATE users SET is_verified = TRUE, verification_token = NULL WHERE id = $1`. */
  function MarkVerified(rows: seq<Row>, id: nat): (r: seq<Row>)
    ensures SameIdentities(rows, r)
    ensures forall i :: 0 <= i < |rows| && rows[i].id == id ==>
      r[i].isVerified && r[i].verificationToken.None?
    ensures forall i :: 0 <= i < |rows| ==>
      r[i].(isVerified := rows[i].isVerified, verificationToken := rows[i].verificationToken) == rows[i]
    ensures forall i :: 0 <= i < |rows| && rows[i].id != id ==> r[i] == rows[i]
  {
    UpdateWhere(rows, (row: Row) => row.id == id, (row: Row) => row.(isVerified := true, verificationToken := None))
  }

  /**
   * The row `INSERT INTO users (email, password_hash, name, verification_token)` adds:
   * the id is the sequence's next value, is_verified takes its assumed default
   * false, and the reset columns are NULL.
   */
  function NewAccount(id: nat, email: string, passwordHash: string, name: string, verificationToken: string): (r: Row)
    ensures RowConsistent(r)
    ensures PublicView(r) == UserView(id, email, name, false)
  {
    Row(id, email, passwordHash, name, false, Some(verificationToken), None, None)
  }

  /** The store after that INSERT. */
  function Insert(s: Store, email: string, passwordHash: string, name: string, verificationToken: string): (r: Store)
    ensures |r.rows| == |s.rows| + 1 && r.rows[..|s.rows|] == s.rows
    ensures r.rows[|s.rows|] == NewAccount(s.nextId, email, passwordHash, name, verificationToken)
    ensures r.nextId == s.nextId + 1
  {
    Store(s.rows + [NewAccount(s.nextId, email, passwordHash, name, verificationToken)], s.nextId + 1)
  }

  // ---------------------------------------------------------------- the invariant is kept

  lemma InsertKeepsWellFormed(s: Store, email: string, passwordHash: string, name: string, verificationToken: string)
    requires WellFormed(s) && !HasEmail(s.rows, email)
    ensures WellFormed(Insert(s, email, passwordHash, name, verificationToken))
  {
    var r := Insert(s, email, passwordHash, name, verificationToken);
    forall i, j | 0 <= i < j < |r.rows|
      ensures r.rows[i].id != r.rows[j].id && r.rows[i].email != r.rows[j].email
    {
      if j == |s.rows| {
        assert r.rows[i] == s.rows[i];
      } else {
        assert r.rows[i] == s.rows[i] && r.rows[j] == s.rows[j];
      }
    }
  }

  /** An update that keeps every id and email, and keeps each row's consistency, keeps the invariant. */
  lemma UpdateKeepsWellFormed(s: Store, rows: seq<Row>)
    requires WellFormed(s) && SameIdentities(s.rows, rows)
    requires forall i :: 0 <= i < |rows| ==> RowConsistent(rows[i])
    ensures WellFormed(Store(rows, s.nextId))
  {
    assert forall i, j :: 0 <= i < j < |rows| ==> s.rows[i].id != s.rows[j].id && s.rows[i].email != s.rows[j].email;
  }

  // ---------------------------------------------------------------- single-use and expiry

  /**
   * Issuing a reset token to an email supersedes the earlier one: no other
   * token string selects that account afterwards.
   */
  lemma NewResetTokenSupersedesOld(rows: seq<Row>, k: nat, token: string, expires: nat, old_token: Option<string>, now: nat)
    requires IdsUnique(rows) && k < |rows| && old_token != Some(token)
    ensures FindByResetToken(SetResetToken(rows, rows[k].email, token, expires), old_token, now) != Some(rows[k].id)
  {
  }

  /**
   * Right after a token is written to the account with email `rows[k].email`, and
   * while no other row holds the same token, the token selects that account
   * exactly when `now` is before its expiry.
   */
  lemma ResetTokenLiveUntilExpiry(rows: seq<Row>, k: nat, token: string, expires: nat, now: nat)
    requires IdsUnique(rows) && EmailsUnique(rows) && k < |rows|
    requires forall i :: 0 <= i < |rows| && i != k ==> rows[i].resetToken != Some(token)
    ensures FindByResetToken(SetResetToken(rows, rows[k].email, token, expires), Some(token), now) ==
            (if now < expires then Some(rows[k].id) else None)
  {
    var r := SetResetToken(rows, rows[k].email, token, expires);
    forall i | 0 <= i < |r| && i != k
      ensures !ResetTokenLive(r[i], Some(token), now)
    {
      assert rows[i].email != rows[k].email;
      assert r[i] == rows[i];
    }
    var found := FindByResetToken(r, Some(token), now);
    if now < expires {
      assert ResetTokenLive(r[k], Some(token), now);
      var i :| 0 <= i < |r| && r[i].id == found.value && ResetTokenLive(r[i], Some(token), now);
      assert i == k;
    } else {
      assert !ResetTokenLive(r[k], Some(token), now);
    }
  }

  /** After its reset token is cleared, no token selects the account. */
  lemma ClearedResetTokenSelectsNothing(rows: seq<Row>, id: nat, token: Option<string>, now: nat)
    requires IdsUnique(rows)
    ensures FindByResetToken(ClearReset(rows, id), token, now) != Some(id)
  {
  }

  /** After an account is verified, no token selects it for verification. */
  lemma VerifiedAccountSelectsNothing(rows: seq<Row>, id: nat, token: Option<string>)
    ensures FindByVerificationToken(MarkVerified(rows, id), token) != Some(id)
  {
  }

  // ---------------------------------------------------------------- the table object

  /** The shared `users` table that the User model's statements act on. */
  class UserTable {
    var rows: seq<Row>
    var nextId: nat

    function State(): Store
      reads this
    {
      Store(rows, nextId)
    }

    ghost predicate Valid()
      reads this
    {
      WellFormed(State())
    }

    constructor ()
      ensures Valid() && State() == Store([], 1)
    {
      rows := [];
      nextId := 1;
    }

    /**
     * `User.create`: inserts one row and returns `id, email, name, is_verified`.
     * A second row with an email already present is refused by the assumed
     * unique constraint, with the table unchanged.
     */
    method Create(email: string, passwordHash: string, name: string, verificationToken: string)
      returns (created: Option<UserView>)
      requires Valid()
      modifies this
      ensures Valid()
      ensures HasEmail(old(rows), email) ==> created.None? && State() == old(State())
      ensures !HasEmail(old(rows), email) ==>
        && State() == Insert(old(State()), email, passwordHash, name, verificationToken)
        && created == Some(UserView(old(nextId), email, name, false))
    {
      if FindByEmail(rows, email).Some? {
        created := None;
        return;
      }
      InsertKeepsWellFormed(State(), email, passwordHash, name, verificationToken);
      var id := nextId;
      rows := rows + [NewAccount(id, email, passwordHash, name, verificationToken)];
      nextId := nextId + 1;
      created := Some(UserView(id, email, name, false));
    }

    /** `User.updatePassword`. */
    method UpdatePassword(id: nat, passwordHash: string)
      requires Valid()
      modifies this
      ensures Valid()
      ensures State() == Store(SetPassword(old(rows), id, passwordHash), old(nextId))
    {
      UpdateKeepsWellFormed(State(), SetPassword(rows, id, passwordHash));
      rows := SetPassword(rows, id, passwordHash);
    }

    /** `User.updateResetToken`. */
    method UpdateResetToken(email: string, resetToken: string, resetTokenExpires: nat)
      requires Valid()
      modifies this
      ensures Valid()
      ensures State() == Store(SetResetToken(old(rows), email, resetToken, resetTokenExpires), old(nextId))
    {
      UpdateKeepsWellFormed(State(), SetResetToken(rows, email, resetToken, resetTokenExpires));
      rows := SetResetToken(rows, email, resetToken, resetTokenExpires);
    }

    /** `User.clearResetToken`. */
    method ClearResetToken(id: nat)
      requires Valid()
      modifies this
      ensures Valid()
      ensures State() == Store(ClearReset(old(rows), id), old(nextId))
    {
      UpdateKeepsWellFormed(State(), ClearReset(rows, id));
      rows := ClearReset(rows, id);
    }

    /** `User.verifyEmail`. */
    method VerifyEmail(id: nat)
      requires Valid()
      modifies this
      ensures Valid()
      ensures State() == Store(MarkVerified(old(rows), id), old(nextId))
    {
      UpdateKeepsWellFormed(State(), MarkVerified(rows, id));
      rows := MarkVerified(rows, id);
    }
  }
}
