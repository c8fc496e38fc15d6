/** Password hashing and access tokens (main.py:49-53, 100-134).

    bcrypt and python-jose are foreign code. The model replaces them by
    stand-ins that keep the properties the handlers rely on:
    - a bcrypt hash is a record carrying its cost, its salt and what it
      protects, so that verification accepts exactly the passwords that
      agree with the hashed one in their first 72 characters;
    - a signed JWT is its payload together with the key it was signed with, so
      that decoding with another key fails as a bad HS256 signature would
      (section 3.2 of RFC 7518); an unparsable credential is `Malformed`.
    Time is an integer number of seconds, as in the NumericDate of `exp`. */
module Security {
  import opened Common

  type Time = int

  const SecondsPerMinute := 60

  /** `bcrypt__rounds=12` */
  const BcryptRounds := 12

  /** `ACCESS_TOKEN_EXPIRE_MINUTES`, the lifetime login asks for. */
  const AccessTokenExpireMinutes := 30

  /** The lifetime `create_access_token` falls back to. */
  const DefaultExpireMinutes := 15

  datatype PasswordHash = Bcrypt(rounds: nat, salt: nat, secret: string)

  /** bcrypt reads at most the first 72 bytes of a password. */
  const BcryptMaxInput := 72

  /** The part of a password bcrypt actually hashes (one character per byte). */
  function BcryptInput(password: string): string {
    if |password| <= BcryptMaxInput then password else password[..BcryptMaxInput]
  }

  /** `get_password_hash`: the random salt is a parameter. */
  function HashPassword(password: string, salt: nat): (h: PasswordHash)
    ensures h.rounds == BcryptRounds && h.salt == salt
  {
    Bcrypt(BcryptRounds, salt, BcryptInput(password))
  }

  /** `verify_password`: recompute with the cost and the salt embedded in `h`
      and compare. */
  predicate VerifyPassword(password: string, h: PasswordHash) {
    Bcrypt(h.rounds, h.salt, BcryptInput(password)) == h
  }

  /** A password verifies against its own hash, whatever the salt. Another
      password verifies exactly when its first 72 characters are the same,
      so among passwords of at most 72 characters only the hashed one does. */
  lemma HashThenVerify(password: string, other: string, salt: nat)
    ensures VerifyPassword(password, HashPassword(password, salt))
    ensures VerifyPassword(other, HashPassword(password, salt)) <==> BcryptInput(other) == BcryptInput(password)
    ensures |password| <= 72 && |other| <= 72 ==>
      (VerifyPassword(other, HashPassword(password, salt)) <==> other == password)
  {
  }

  /** The decoded JWT claim set: the caller's claims plus `exp`. */
  datatype Payload = Payload(claims: map<string, string>, exp: Time)

  /** A bearer credential as presented by a client. */
  datatype Token = Signed(payload: Payload, key: string) | Malformed(raw: string)

  /** Why `jwt.decode` raises `JWTError`. */
  datatype JwtError = BadEncoding | BadSignature | ExpiredSignature

  datatype Decoded = Accepted(payload: Payload) | Rejected(reason: JwtError)

  /** The `exp` that `create_access_token` computes. `if expires_delta:` tests
      truthiness, and a zero `timedelta` is falsy, so a zero delta falls back
      to the 15-minute default just as a missing one does. */
  function Expiry(now: Time, expiresDelta: Option<int>): Time {
    if expiresDelta.Some? && expiresDelta.value != 0 then now + expiresDelta.value
    else now + DefaultExpireMinutes * SecondsPerMinute
  }

  /** `create_access_token`: copy the claims, set `exp`, sign with `key`.
      `update` overwrites an `exp` entry among the given claims, so the
      payload keeps only the computed `exp`. */
  function CreateAccessToken(data: map<string, string>, expiresDelta: Option<int>, now: Time, key: string): (t: Token)
    ensures t.Signed? && t.key == key && t.payload.claims == data - {"exp"}
    ensures expiresDelta.Some? && expiresDelta.value != 0 ==> t.payload.exp == now + expiresDelta.value
    ensures expiresDelta.None? || expiresDelta == Some(0) ==> t.payload.exp == now + 15 * 60
  {
    Signed(Payload(data - {"exp"}, Expiry(now, expiresDelta)), key)
  }

  /** `jwt.decode(token, key, algorithms=["HS256"])` at time `now`: the
      encoding must parse, the signature must match `key`, and by section
      4.1.4 of RFC 7519 the token is accepted only while `now` is before `exp`. */
  function Decode(token: Token, key: string, now: Time): (d: Decoded)
    ensures d.Accepted? <==> token.Signed? && token.key == key && now < token.payload.exp
    ensures d.Accepted? ==> d.payload == token.payload
  {
    match token
    case Malformed(_) => Rejected(BadEncoding)
    case Signed(payload, signer) =>
      if signer != key then Rejected(BadSignature)
      else if payload.exp <= now then Rejected(ExpiredSignature)
      else Accepted(payload)
  }

  /** Issuing and decoding are partners: a token issued at `now` decodes back
      to the claims it was given exactly until its expiry, and never with a
      different key. */
  lemma {:induction false} IssuedTokenLifetime(data: map<string, string>, expiresDelta: Option<int>, now: Time, key: string, key': string, later: Time)
    ensures var t := CreateAccessToken(data, expiresDelta, now, key);
      && (Decode(t, key, later).Accepted? <==> later < Expiry(now, expiresDelta))
      && (Decode(t, key, later).Accepted? ==> Decode(t, key, later).payload.claims == data - {"exp"})
      && (key' != key ==> Decode(t, key', later) == Rejected(BadSignature))
  {
  }

  /** A token issued with no lifetime, or with a positive one, expires
      strictly after it was issued. */
  lemma ExpiryAfterIssue(now: Time, expiresDelta: Option<int>)
    requires expiresDelta.None? || expiresDelta.value >= 0
    ensures Expiry(now, expiresDelta) > now
  {
  }
}
