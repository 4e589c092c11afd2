/**
 * The authentication service: session creation with an expiry `hours`
 * after now, the session and logout cookies, and password verification.
 * Argon2 is a pair of parameters: whether a stored hash parses, and whether
 * a password matches a parsed hash. Validation, invalidation and cleanup are
 * the session store's `FindByToken`, `DeleteByToken` and `CleanupExpired`,
 * used unchanged.
 */
module Auth {
  import opened Wrappers
  import opened Errors
  import opened Domain
  import opened Tokens
  import opened Sessions
  import opened Collections

  /**
   * `create_session`: a fresh token from 32 random bytes, stored (as its
   * hash) in a session that expires `hours` hours after now; the raw token
   * is returned to the caller.
   */
  function CreateSession(store: Store, member: Id, hours: int, now: Time, random: seq<Byte>, sessionId: string, sha256: Digest)
    : (r: (Store, Session, string))
    requires |random| == 32 && ValidDigest(sha256)
    ensures r.0 == store + [r.1]
    ensures r.1.member_id == member && r.1.expires_at == now + hours * SecondsPerHour
    ensures r.1.token_hash == HashToken(sha256, r.2) && IsTokenText(r.2)
  {
    var token := GenerateToken(random);
    var (store', s) := Create(store, sessionId, member, token, now + hours * SecondsPerHour, now, sha256);
    (store', s, token)
  }

  /**
   * The token a login hands out finds its session at any time before the
   * expiry, as long as no other live session holds the same hash.
   */
  lemma CreateSessionThenValidate(store: Store, member: Id, hours: int, now: Time, random: seq<Byte>, sessionId: string, sha256: Digest, later: Time)
    requires |random| == 32 && ValidDigest(sha256)
    requires now <= later < now + hours * SecondsPerHour
    requires forall i :: 0 <= i < |store| ==> store[i].token_hash != HashToken(sha256, GenerateToken(random))
    ensures var (store', s, token) := CreateSession(store, member, hours, now, random, sessionId, sha256);
            FindByToken(store', token, later, sha256).1 == Some(s.(last_used_at := later))
  {
    var (store', s, token) := CreateSession(store, member, hours, now, random, sessionId, sha256);
    var h := HashToken(sha256, token);
    FindFirstAppend(store, s, (x: Session) => LiveFor(x, h, later));
  }

  /** A session is dead from its expiry onward, whatever happened in between. */
  lemma SessionDeadAtExpiry(store: Store, member: Id, hours: int, now: Time, random: seq<Byte>, sessionId: string, sha256: Digest)
    requires |random| == 32 && ValidDigest(sha256)
    requires forall i :: 0 <= i < |store| ==> store[i].token_hash != HashToken(sha256, GenerateToken(random))
    ensures var (store', s, token) := CreateSession(store, member, hours, now, random, sessionId, sha256);
            FindByToken(store', token, s.expires_at, sha256).1 == None
  {
  }

  datatype SameSite = Strict | Lax | NoSameSite

  datatype Cookie = Cookie(name: string, value: string, path: string, sameSite: SameSite,
                           httpOnly: bool, secure: bool, maxAge: int)

  /** The session cookie lasts 24 hours in the browser. */
  const SessionCookieMaxAge: int := 24 * SecondsPerHour

  /**
   * `create_session_cookie`: "session" = token, Path "/", SameSite Lax,
   * HttpOnly, the given Secure flag and a Max-Age of 24 hours; the session's
   * own duration plays no part in it.
   */
  function SessionCookie(token: string, secure: bool): (c: Cookie)
    ensures c.name == "session" && c.value == token && c.path == "/"
    ensures c.sameSite == Lax && c.httpOnly && c.secure == secure
    ensures c.maxAge == 86400
  {
    Cookie("session", token, "/", Lax, true, secure, SessionCookieMaxAge)
  }

  /** `create_logout_cookie`: the same cookie name and path, empty, expiring at once. */
  function LogoutCookie(): (c: Cookie)
    ensures c.name == "session" && c.value == "" && c.path == "/" && c.maxAge == 0
    ensures c.sameSite == Lax && c.httpOnly && !c.secure
  {
    Cookie("session", "", "/", Lax, true, false, 0)
  }

  /** The logout cookie replaces exactly the cookie the session cookie set. */
  lemma LogoutMatchesSession(token: string, secure: bool)
    ensures LogoutCookie().name == SessionCookie(token, secure).name
    ensures LogoutCookie().path == SessionCookie(token, secure).path
    ensures LogoutCookie().maxAge < SessionCookie(token, secure).maxAge
  {
  }

  /** Argon2 as parameters: does a hash string parse, and does a password match it. */
  datatype PasswordHasher = PasswordHasher(parses: string -> bool, matches: (string, string) -> bool)

  /**
   * `verify_password`: an unparsable stored hash is an Internal error (not
   * a mismatch); otherwise the answer is whether the password matches.
   */
  function VerifyPassword(h: PasswordHasher, password: string, hash: string): (r: Result<bool, AppError>)
    ensures r.Failure? <==> !h.parses(hash)
    ensures r.Failure? ==> r.error.Internal?
    ensures r.Success? ==> r.value == h.matches(password, hash)
  {
    if !h.parses(hash) then Failure(Internal("Invalid password hash"))
    else Success(h.matches(password, hash))
  }
}
