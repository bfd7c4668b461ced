/**
 * Session tokens: JSON Web Tokens (RFC 7519) signed with HMAC under the
 * issuing application's secret, as `jwt.NewToken(user, app, duration)`
 * builds them. The package internal/lib/jwt is not part of this model; the
 * claims below are the ones the integration test reads back from a token.
 *
 * A token is modelled as its claims plus the key that signed it. Reading it
 * back checks the signature against a key and the expiry against the clock.
 * Serialisation and signature bytes are not modelled.
 */
module Jwt {
  import opened Results
  import opened Errors
  import opened Models

  const NanosPerSecond: int := 1_000_000_000

  /** The registered and private claims: `uid`, `email`, `app_id`, `exp`. */
  datatype Claims = Claims(uid: int, email: string, appID: int, exp: int)

  datatype Token = Token(claims: Claims, signedWith: string)

  /** `time.Unix(0, nanos).Add(duration).Unix()`: whole seconds, rounded down. */
  function ExpiresAt(now: int, duration: int): (exp: int)
    ensures exp * NanosPerSecond <= now + duration < exp * NanosPerSecond + NanosPerSecond
  {
    (now + duration) / NanosPerSecond
  }

  /** `jwt.NewToken(user, app, duration)` called at instant `now` (Unix
      nanoseconds): the user's id and email, the app's id and the expiry,
      signed with the app's secret. Signing may fail (`fault`), which the core
      reports as it is. */
  function NewToken(user: User, app: App, duration: int, now: int, fault: Option<int>): (r: Result<Token, Error>)
    ensures r.Success? <==> fault.None?
    ensures r.Success? ==> r.value.claims == Claims(user.id, user.email, app.id, ExpiresAt(now, duration))
    ensures r.Success? ==> r.value.signedWith == app.secret
    ensures r.Failure? ==> r.error == Foreign(fault.value)
  {
    match fault
    case Some(code) => Failure(Foreign(code))
    case None => Success(Token(Claims(user.id, user.email, app.id, ExpiresAt(now, duration)), app.secret))
  }

  /** `jwt.Parse(token, keyFunc)` into map claims, with a key function that
      returns `key`, at instant `at` (Unix nanoseconds): the claims, if the
      signature verifies under `key` and the token has not expired, that is
      the current Unix second is not past `exp`. */
  function Parse(token: Token, key: string, at: int): Option<Claims>
  {
    if key == token.signedWith && at / NanosPerSecond <= token.claims.exp then Some(token.claims) else None
  }

  /** A token issued for `app` at `now` with lifetime `duration` reads back,
      with every claim as issued, under the app's secret and under no other
      key, at any instant up to `now + duration`; after the expiry second it
      is refused under every key. */
  lemma IssuedTokenParses(user: User, app: App, duration: int, now: int, key: string, at: int)
    ensures var token := NewToken(user, app, duration, now, None).value;
            var claims := Claims(user.id, user.email, app.id, ExpiresAt(now, duration));
            && (at <= now + duration ==> Parse(token, key, at) == if key == app.secret then Some(claims) else None)
            && (at >= (ExpiresAt(now, duration) + 1) * NanosPerSecond ==> Parse(token, key, at) == None)
  {
  }
}
