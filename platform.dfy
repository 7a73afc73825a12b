/**
 * The library calls the service makes, seen only at their boundary:
 * `crypto.randomBytes(32).toString('hex')` for single-use secrets,
 * bcrypt's hash/compare for passwords and jsonwebtoken's sign/verify
 * for session tokens. Randomness and the clock are inputs of the
 * operations that use them.
 */
module Platform {

  import opened Base

  newtype byte = x: int | 0 <= x < 256

  /** `crypto.randomBytes(32)`: the number of random bytes behind each single-use secret. */
  const SecretBytes: nat := 32

  predicate IsLowerHexDigit(c: char)
  {
    ('0' <= c <= '9') || ('a' <= c <= 'f')
  }

  function HexDigit(d: nat): (c: char)
    requires d < 16
    ensures IsLowerHexDigit(c)
  {
    if d < 10 then ('0' as int + d) as char else ('a' as int + d - 10) as char
  }

  function HexValue(c: char): (d: nat)
    requires IsLowerHexDigit(c)
    ensures d < 16 && HexDigit(d) == c
  {
    if c <= '9' then c as int - '0' as int else c as int - 'a' as int + 10
  }

  /** Node's `Buffer.toString('hex')`: two lower-case digits per byte, high nibble first. */
  function HexEncode(bytes: seq<byte>): (s: string)
    ensures |s| == 2 * |bytes|
    ensures forall i :: 0 <= i < |s| ==> IsLowerHexDigit(s[i])
  {
    if bytes == [] then []
    else [HexDigit(bytes[0] as nat / 16), HexDigit(bytes[0] as nat % 16)] + HexEncode(bytes[1..])
  }

  /** The inverse of HexEncode on strings of lower-case hex digit pairs. */
  function HexDecode(s: string): (bytes: seq<byte>)
    requires |s| % 2 == 0
    requires forall i :: 0 <= i < |s| ==> IsLowerHexDigit(s[i])
    ensures 2 * |bytes| == |s|
  {
    if s == [] then []
    else [(16 * HexValue(s[0]) + HexValue(s[1])) as byte] + HexDecode(s[2..])
  }

  lemma {:induction false} HexRoundTrip(bytes: seq<byte>)
    ensures HexDecode(HexEncode(bytes)) == bytes
  {
    if bytes != [] {
      var s := HexEncode(bytes);
      var b := bytes[0] as nat;
      assert s[2..] == HexEncode(bytes[1..]);
      HexRoundTrip(bytes[1..]);
      assert HexValue(s[0]) == b / 16 && HexValue(s[1]) == b % 16;
    }
  }

  /** Distinct random draws give distinct secrets. */
  lemma HexEncodeInjective(a: seq<byte>, b: seq<byte>)
    requires HexEncode(a) == HexEncode(b)
    ensures a == b
  {
    HexRoundTrip(a);
    HexRoundTrip(b);
  }

  /** A single-use secret (verification or reset token) built from 32 random bytes. */
  function SecretToken(entropy: seq<byte>): (t: string)
    requires |entropy| == SecretBytes
    ensures |t| == 2 * SecretBytes
    ensures forall i :: 0 <= i < |t| ==> IsLowerHexDigit(t[i])
  {
    HexEncode(entropy)
  }

  /**
   * bcrypt: `hash(password, rounds, salt)` stands for `bcrypt.hash(password, rounds)`
   * with the salt it draws internally made explicit; `compare` is `bcrypt.compare`.
   */
  datatype PasswordHasher = PasswordHasher(hash: (string, nat, nat) -> string, compare: (string, string) -> bool)

  /** The one property of bcrypt the service relies on: a password matches its own hash. */
  ghost predicate AcceptsOwnHashes(h: PasswordHasher)
  {
    forall password: string, rounds: nat, salt: nat :: h.compare(password, h.hash(password, rounds, salt))
  }

  /**
   * jsonwebtoken with the process-wide secret and lifetime fixed: `sign(id)` is
   * `jwt.sign({ id }, JWT_SECRET, { expiresIn })`, and `verify(token)` is the `id`
   * field of `jwt.verify(token, JWT_SECRET)`, or None when it throws (bad
   * signature, malformed, expired) or the payload has no id.
   */
  datatype SessionTokens = SessionTokens(sign: nat -> string, verify: string -> Option<nat>)

  /**
   * A signed token is never empty (it is three dot-separated parts), and a
   * token issued now verifies to the id it was issued for (no expiry in between).
   */
  ghost predicate AcceptsOwnTokens(t: SessionTokens)
  {
    forall id: nat :: t.sign(id) != "" && t.verify(t.sign(id)) == Some(id)
  }
}
