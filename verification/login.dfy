/**
 * The HTML login and logout handlers: the member is found by username, then
 * by email; the stored hash must verify; a session of 24 hours (30 days
 * with "remember me") is created and set as a cookie. Every failure gives
 * the same 401 answer. Member status is not consulted.
 */
module Login {
  import opened Wrappers
  import opened Text
  import opened Domain
  import opened Tokens
  import opened Sessions
  import opened MemberRepo
  import opened Auth

  datatype LoginRequest = LoginRequest(username: string, password: string, remember_me: Option<bool>)

  datatype LoginResponse =
    | LoggedIn(session: Session, cookie: string, redirect: string)
    | Rejected(status: int, error: string)
    | Panicked

  /**
   * Which of the handler's database calls succeed. A failed member lookup
   * or hash read is swallowed by `.ok().flatten()` and reads as "nothing
   * found"; a failed session insert hits `.unwrap()` and the handler panics.
   */
  datatype LoginFaults = LoginFaults(usernameOk: bool, emailOk: bool, hashOk: bool, sessionOk: bool)

  const NoFaults := LoginFaults(true, true, true, true)

  const InvalidCredentials := Rejected(401, "Invalid username or password")

  /** The identifier is tried as a username first and as an email only when that finds no one. */
  function FindLoginMember(ms: Members, identifier: string): (r: Option<Member>)
    ensures FindByUsername(ms, identifier).Some? ==> r == FindByUsername(ms, identifier)
    ensures FindByUsername(ms, identifier).None? ==> r == FindByEmail(ms, identifier)
  {
    match FindByUsername(ms, identifier)
    case Some(m) => Some(m)
    case None => FindByEmail(ms, identifier)
  }

  /**
   * The lookup as the handler runs it: a failed username lookup counts as
   * no match and so falls through to the email lookup; a failed email
   * lookup counts as no match too.
   */
  function LookupLoginMember(ms: Members, identifier: string, f: LoginFaults): (r: Option<Member>)
    ensures f.usernameOk && f.emailOk ==> r == FindLoginMember(ms, identifier)
    ensures f.usernameOk && !f.emailOk ==> r == FindByUsername(ms, identifier)
    ensures !f.usernameOk && f.emailOk ==> r == FindByEmail(ms, identifier)
    ensures !f.usernameOk && !f.emailOk ==> r.None?
  {
    var byName := if f.usernameOk then FindByUsername(ms, identifier) else None;
    if byName.Some? then byName
    else if f.emailOk then FindByEmail(ms, identifier)
    else None
  }

  /** The hash read as the handler runs it: a failed read counts as no hash. */
  function ReadHash(ms: Members, email: string, f: LoginFaults): (r: Option<string>)
    ensures f.hashOk ==> r == StoredHash(ms, email)
    ensures !f.hashOk ==> r.None?
  {
    if f.hashOk then StoredHash(ms, email) else None
  }

  /** The member and password pass: someone is found and the hash read verifies the password. */
  predicate CredentialsAccepted(ms: Members, req: LoginRequest, h: PasswordHasher, f: LoginFaults) {
    var found := LookupLoginMember(ms, req.username, f);
    found.Some? && PasswordAccepted(h, req.password, ReadHash(ms, found.value.email, f))
  }

  /** `get_password_hash`: the hash of the first row with that email, when it has one. */
  function StoredHash(ms: Members, email: string): (r: Option<string>)
    ensures r.Some? ==> FindByEmail(ms, email).Some? && FindByEmail(ms, email).value.password_hash == r
  {
    match FindByEmail(ms, email)
    case None => None
    case Some(m) => m.password_hash
  }

  /** `verify_password(..).unwrap_or(false)` on an optional hash: anything but a verified match is a refusal. */
  predicate PasswordAccepted(h: PasswordHasher, password: string, hash: Option<string>) {
    hash.Some? && VerifyPassword(h, password, hash.value) == Success(true)
  }

  /** Session length in hours: 30 days with "remember me", otherwise one day. */
  function SessionHours(rememberMe: Option<bool>): (hours: int)
    ensures rememberMe == Some(true) ==> hours == 720
    ensures rememberMe != Some(true) ==> hours == 24
  {
    if rememberMe.GetOr(false) then 24 * 30 else 24
  }

  /** The cookie's Max-Age in seconds: 30 days with "remember me", otherwise one day. */
  function CookieMaxAge(rememberMe: Option<bool>): (seconds: nat)
    ensures seconds == SessionHours(rememberMe) * SecondsPerHour
  {
    if rememberMe.GetOr(false) then 60 * 60 * 24 * 30 else 60 * 60 * 24
  }

  /** The Set-Cookie header the handler writes. */
  function LoginCookie(token: string, maxAge: nat): (header: string)
    ensures |header| > 8 + |token| && header[..8] == "session=" && header[8..8 + |token|] == token
    ensures header[8 + |token|] == ';'
  {
    "session=" + token + ";" + " HttpOnly; SameSite=Lax; Path=/; Max-Age=" + NatToString(maxAge)
  }

  /** The text up to the first ';', as a cookie reader splits attributes off a value. */
  function UntilSemicolon(s: string): (r: string)
    ensures |r| <= |s| && r == s[..|r|]
  {
    if |s| == 0 || s[0] == ';' then "" else [s[0]] + UntilSemicolon(s[1..])
  }

  /** The value of a "session=" Set-Cookie header, as a browser reads it back. */
  function CookieValue(header: string): (r: Option<string>)
    ensures r.Some? <==> |header| >= 8 && header[..8] == "session="
  {
    if |header| >= 8 && header[..8] == "session=" then Some(UntilSemicolon(header[8..])) else None
  }

  lemma {:induction false} UntilSemicolonStops(t: string, rest: string)
    requires forall i :: 0 <= i < |t| ==> t[i] != ';'
    ensures UntilSemicolon(t + ";" + rest) == t
  {
    var s := t + ";" + rest;
    if |t| == 0 {
      assert s[0] == ';';
    } else {
      assert s[1..] == t[1..] + ";" + rest;
      UntilSemicolonStops(t[1..], rest);
    }
  }

  /** A session token read back from the login cookie is the token that was issued. */
  lemma LoginCookieRoundTrip(token: string, maxAge: nat)
    requires IsTokenText(token)
    ensures CookieValue(LoginCookie(token, maxAge)) == Some(token)
  {
    var rest := " HttpOnly; SameSite=Lax; Path=/; Max-Age=" + NatToString(maxAge);
    var header := LoginCookie(token, maxAge);
    assert header == "session=" + (token + ";" + rest);
    assert header[8..] == token + ";" + rest;
    UntilSemicolonStops(token, rest);
  }

  /**
   * `login_handler`: logs in exactly when the credentials pass and the
   * session insert succeeds; the new session belongs to the member found
   * and lasts as long as the cookie says. Credentials that pass with a
   * failing insert make the handler panic; everything else is the one 401
   * answer.
   */
  function HandleLogin(ms: Members, store: Store, req: LoginRequest, now: Time, h: PasswordHasher,
                       random: seq<Byte>, sessionId: string, sha256: Digest, f: LoginFaults)
    : (r: (Store, LoginResponse))
    requires |random| == 32 && ValidDigest(sha256)
    ensures r.1.LoggedIn? <==> CredentialsAccepted(ms, req, h, f) && f.sessionOk
    ensures r.1.Panicked? <==> CredentialsAccepted(ms, req, h, f) && !f.sessionOk
    ensures r.1.Rejected? <==> !CredentialsAccepted(ms, req, h, f)
    ensures !r.1.LoggedIn? ==> r.0 == store
    ensures r.1.Rejected? ==> r.1 == InvalidCredentials
    ensures r.1.LoggedIn? ==>
              && r.1.session.member_id == LookupLoginMember(ms, req.username, f).value.id
              && r.1.session.expires_at == now + CookieMaxAge(req.remember_me)
              && r.0 == store + [r.1.session]
              && r.1.redirect == "/portal/dashboard"
  {
    match LookupLoginMember(ms, req.username, f)
    case None => (store, InvalidCredentials)
    case Some(m) =>
      if !PasswordAccepted(h, req.password, ReadHash(ms, m.email, f)) then (store, InvalidCredentials)
      else if !f.sessionOk then (store, Panicked)
      else
        var (store', session, token) := CreateSession(store, m.id, SessionHours(req.remember_me), now, random, sessionId, sha256);
        (store', LoggedIn(session, LoginCookie(token, CookieMaxAge(req.remember_me)), "/portal/dashboard"))
  }

  /** With every database call succeeding, login succeeds exactly for a found member whose stored hash verifies. */
  lemma LoginWithoutFaults(ms: Members, store: Store, req: LoginRequest, now: Time, h: PasswordHasher,
                           random: seq<Byte>, sessionId: string, sha256: Digest)
    requires |random| == 32 && ValidDigest(sha256)
    ensures HandleLogin(ms, store, req, now, h, random, sessionId, sha256, NoFaults).1.LoggedIn? <==>
              (FindLoginMember(ms, req.username).Some?
               && PasswordAccepted(h, req.password, StoredHash(ms, FindLoginMember(ms, req.username).value.email)))
  {
  }

  /**
   * When both member lookups fail the database error is hidden: every
   * password gets the same 401 as an unknown identifier.
   */
  lemma LookupFailureLooksUnknown(ms: Members, store: Store, req: LoginRequest, now: Time, h: PasswordHasher,
                                  random: seq<Byte>, sessionId: string, sha256: Digest, f: LoginFaults)
    requires |random| == 32 && ValidDigest(sha256)
    requires !f.usernameOk && !f.emailOk
    ensures HandleLogin(ms, store, req, now, h, random, sessionId, sha256, f) == (store, InvalidCredentials)
  {
  }

  /** A failed hash read rejects even the right password, with the same 401. */
  lemma HashReadFailureRejects(ms: Members, store: Store, req: LoginRequest, now: Time, h: PasswordHasher,
                               random: seq<Byte>, sessionId: string, sha256: Digest, f: LoginFaults)
    requires |random| == 32 && ValidDigest(sha256)
    requires !f.hashOk
    ensures HandleLogin(ms, store, req, now, h, random, sessionId, sha256, f) == (store, InvalidCredentials)
  {
  }

  /**
   * A caller learns nothing from a failed login: an unknown identifier and
   * a wrong password for a known one give the identical response.
   */
  lemma FailuresIndistinguishable(ms: Members, store: Store, r1: LoginRequest, r2: LoginRequest, now: Time,
                                  h: PasswordHasher, random: seq<Byte>, sessionId: string, sha256: Digest)
    requires |random| == 32 && ValidDigest(sha256)
    requires FindLoginMember(ms, r1.username).None?
    requires FindLoginMember(ms, r2.username).Some?
    requires !PasswordAccepted(h, r2.password, StoredHash(ms, FindLoginMember(ms, r2.username).value.email))
    ensures HandleLogin(ms, store, r1, now, h, random, sessionId, sha256, NoFaults)
         == HandleLogin(ms, store, r2, now, h, random, sessionId, sha256, NoFaults)
  {
  }

  /** Login does not look at status: a Pending member with the right password receives a session. */
  lemma PendingMemberLogsIn(ms: Members, store: Store, req: LoginRequest, now: Time, h: PasswordHasher,
                            random: seq<Byte>, sessionId: string, sha256: Digest)
    requires |random| == 32 && ValidDigest(sha256)
    requires FindLoginMember(ms, req.username).Some?
    requires FindLoginMember(ms, req.username).value.status == MemberStatus.Pending
    requires PasswordAccepted(h, req.password, StoredHash(ms, FindLoginMember(ms, req.username).value.email))
    ensures HandleLogin(ms, store, req, now, h, random, sessionId, sha256, NoFaults).1.LoggedIn?
  {
  }

  /** A member without a stored hash can never log in, whatever password is sent. */
  lemma NoHashNoLogin(ms: Members, store: Store, req: LoginRequest, now: Time, h: PasswordHasher,
                      random: seq<Byte>, sessionId: string, sha256: Digest)
    requires |random| == 32 && ValidDigest(sha256)
    requires FindLoginMember(ms, req.username).Some?
    requires StoredHash(ms, FindLoginMember(ms, req.username).value.email).None?
    ensures HandleLogin(ms, store, req, now, h, random, sessionId, sha256, NoFaults).1 == InvalidCredentials
  {
  }

  /** `logout_handler`: only an expiring cookie and a redirect; the session store is left as it is. */
  function HandleLogout(store: Store): (r: (Store, string, string))
    ensures r.0 == store
    ensures r.2 == "/login"
  {
    (store, "session=; HttpOnly; SameSite=Lax; Path=/; Max-Age=0", "/login")
  }

  /** Because logout keeps the session row, the old token still finds its session until it expires. */
  lemma TokenOutlivesLogout(store: Store, token: string, now: Time, sha256: Digest)
    requires ValidDigest(sha256)
    ensures FindByToken(HandleLogout(store).0, token, now, sha256) == FindByToken(store, token, now, sha256)
  {
  }
}
