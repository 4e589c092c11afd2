/**
 * Request gates: the session-cookie lookup shared by the API middleware,
 * the status gate of `require_auth`, the notes-based admin gate of
 * `require_admin` and `is_admin`, `optional_auth`, the portal's layer order,
 * and the first-run setup redirect with its two admin-existence checks.
 */
module Access {
  import opened Wrappers
  import opened Text
  import opened Errors
  import opened Domain
  import opened Tokens
  import opened Sessions
  import opened MemberRepo

  /** `is_admin` (also the test inside `require_admin`): notes present and containing "ADMIN". */
  function IsAdmin(m: Member): (b: bool)
    ensures b ==> m.notes.Some? && |m.notes.value| >= 5
    ensures m.notes.Some? && StartsWith(m.notes.value, "ADMIN") ==> b
  {
    if m.notes.Some? && |m.notes.value| < 5 then
      ContainsTooLong(m.notes.value, "ADMIN");
      false
    else
      m.notes.Some? && Contains(m.notes.value, "ADMIN")
  }

  /**
   * The lookup every gate starts with: the "session" cookie's value, a live
   * session for it (touched by the lookup), then the session's member. Each
   * missing piece is Unauthorized; a failed read of the session table
   * (`sessionFault`) or of the member table (`memberFault`) propagates as a
   * Database error, checked in the order the reads happen.
   */
  function Resolve(cookie: Option<string>, store: Store, ms: Members, now: Time, sha256: Digest,
                   sessionFault: Option<string>, memberFault: Option<string>)
    : (r: (Store, Result<Member, AppError>))
    requires ValidDigest(sha256)
    ensures cookie.None? ==> r == (store, Failure(Unauthorized))
    ensures cookie.Some? && sessionFault.Some? ==> r == (store, Failure(Database(sessionFault.value)))
    ensures cookie.Some? && sessionFault.None? && FindByToken(store, cookie.value, now, sha256).1.Some? && memberFault.Some? ==>
              r.1 == Failure(Database(memberFault.value))
    ensures r.1.Failure? ==> r.1.error == Unauthorized || r.1.error.Database?
    ensures r.1.Failure? && r.1.error.Database? ==> sessionFault.Some? || memberFault.Some?
    ensures r.1.Success? <==>
              (cookie.Some? && sessionFault.None? && FindByToken(store, cookie.value, now, sha256).1.Some?
               && memberFault.None? && FindById(ms, FindByToken(store, cookie.value, now, sha256).1.value.member_id).Some?)
    ensures r.1.Success? ==>
              (r.1.value in ms && r.1.value.id == FindByToken(store, cookie.value, now, sha256).1.value.member_id)
  {
    match cookie
    case None => (store, Failure(Unauthorized))
    case Some(token) =>
      if sessionFault.Some? then (store, Failure(Database(sessionFault.value)))
      else
        var (store', session) := FindByToken(store, token, now, sha256);
        match session
        case None => (store', Failure(Unauthorized))
        case Some(s) =>
          if memberFault.Some? then (store', Failure(Database(memberFault.value)))
          else
            match FindById(ms, s.member_id)
            case None => (store', Failure(Unauthorized))
            case Some(m) => (store', Success(m))
  }

  /** The statuses `require_auth` admits. */
  predicate InGoodStanding(s: MemberStatus) {
    s == Active || s == Honorary
  }

  /**
   * `require_auth`: a failed lookup is returned as it is; after a
   * successful one, Active and Honorary members pass (the request carries
   * exactly that member), Pending is Forbidden and Expired or Suspended is
   * Unauthorized.
   */
  function RequireAuth(cookie: Option<string>, store: Store, ms: Members, now: Time, sha256: Digest,
                       sessionFault: Option<string>, memberFault: Option<string>)
    : (r: (Store, Result<Member, AppError>))
    requires ValidDigest(sha256)
    ensures var (_, looked) := Resolve(cookie, store, ms, now, sha256, sessionFault, memberFault);
            && (looked.Failure? ==> r.1 == looked)
            && (looked.Success? && InGoodStanding(looked.value.status) ==> r.1 == Success(looked.value))
            && (looked.Success? && looked.value.status == MemberStatus.Pending ==> r.1 == Failure(Forbidden))
            && (looked.Success? && (looked.value.status == Expired || looked.value.status == Suspended) ==>
                  r.1 == Failure(Unauthorized))
    ensures r.0 == Resolve(cookie, store, ms, now, sha256, sessionFault, memberFault).0
  {
    var (store', looked) := Resolve(cookie, store, ms, now, sha256, sessionFault, memberFault);
    match looked
    case Failure(e) => (store', Failure(e))
    case Success(m) =>
      match m.status
      case Active => (store', Success(m))
      case Honorary => (store', Success(m))
      case Pending => (store', Failure(Forbidden))
      case _ => (store', Failure(Unauthorized))
  }

  /**
   * `require_admin`: the same lookup, then the admin test; status plays no
   * part. Non-admins are Forbidden.
   */
  function RequireAdmin(cookie: Option<string>, store: Store, ms: Members, now: Time, sha256: Digest,
                        sessionFault: Option<string>, memberFault: Option<string>)
    : (r: (Store, Result<Member, AppError>))
    requires ValidDigest(sha256)
    ensures var (_, looked) := Resolve(cookie, store, ms, now, sha256, sessionFault, memberFault);
            && (looked.Failure? ==> r.1 == looked)
            && (looked.Success? && IsAdmin(looked.value) ==> r.1 == Success(looked.value))
            && (looked.Success? && !IsAdmin(looked.value) ==> r.1 == Failure(Forbidden))
    ensures r.0 == Resolve(cookie, store, ms, now, sha256, sessionFault, memberFault).0
  {
    var (store', looked) := Resolve(cookie, store, ms, now, sha256, sessionFault, memberFault);
    match looked
    case Failure(e) => (store', Failure(e))
    case Success(m) => if IsAdmin(m) then (store', Success(m)) else (store', Failure(Forbidden))
  }

  /**
   * `optional_auth`: never rejects, not even on a failed read; a member is
   * attached exactly when the lookup resolves, whatever its status.
   */
  function OptionalAuth(cookie: Option<string>, store: Store, ms: Members, now: Time, sha256: Digest,
                        sessionFault: Option<string>, memberFault: Option<string>)
    : (r: (Store, Option<Member>))
    requires ValidDigest(sha256)
    ensures r.1.Some? <==> Resolve(cookie, store, ms, now, sha256, sessionFault, memberFault).1.Success?
    ensures r.1.Some? ==> r.1.value in ms
  {
    var (store', looked) := Resolve(cookie, store, ms, now, sha256, sessionFault, memberFault);
    (store', looked.ToOption())
  }

  /** Whoever `require_auth` or `require_admin` admits, `optional_auth` attaches, and it is the same member. */
  lemma GatesAgreeOnMember(cookie: Option<string>, store: Store, ms: Members, now: Time, sha256: Digest,
                           sessionFault: Option<string>, memberFault: Option<string>)
    requires ValidDigest(sha256)
    ensures RequireAuth(cookie, store, ms, now, sha256, sessionFault, memberFault).1.Success? ==>
              OptionalAuth(cookie, store, ms, now, sha256, sessionFault, memberFault).1
                == Some(RequireAuth(cookie, store, ms, now, sha256, sessionFault, memberFault).1.value)
    ensures RequireAdmin(cookie, store, ms, now, sha256, sessionFault, memberFault).1.Success? ==>
              OptionalAuth(cookie, store, ms, now, sha256, sessionFault, memberFault).1
                == Some(RequireAdmin(cookie, store, ms, now, sha256, sessionFault, memberFault).1.value)
  {
  }

  /**
   * The admin gate ignores status: an admin whose membership is Suspended or
   * Pending passes `require_admin` while `require_auth` turns them away.
   */
  lemma AdminGateIgnoresStatus(cookie: Option<string>, store: Store, ms: Members, now: Time, sha256: Digest)
    requires ValidDigest(sha256)
    requires Resolve(cookie, store, ms, now, sha256, None, None).1.Success?
    requires IsAdmin(Resolve(cookie, store, ms, now, sha256, None, None).1.value)
    requires !InGoodStanding(Resolve(cookie, store, ms, now, sha256, None, None).1.value.status)
    ensures RequireAdmin(cookie, store, ms, now, sha256, None, None).1.Success?
    ensures RequireAuth(cookie, store, ms, now, sha256, None, None).1.Failure?
  {
  }

  /**
   * A failed read is a server error at both strict gates while the optional
   * gate lets the request through anonymously.
   */
  lemma FaultsSplitGates(cookie: string, store: Store, ms: Members, now: Time, sha256: Digest, fault: string)
    requires ValidDigest(sha256)
    ensures RequireAuth(Some(cookie), store, ms, now, sha256, Some(fault), None).1 == Failure(Database(fault))
    ensures RequireAdmin(Some(cookie), store, ms, now, sha256, Some(fault), None).1 == Failure(Database(fault))
    ensures OptionalAuth(Some(cookie), store, ms, now, sha256, Some(fault), None) == (store, None)
  {
  }

  /** Members without notes are never admins. */
  lemma NoNotesNoAdmin(m: Member)
    requires m.notes.None?
    ensures !IsAdmin(m)
  {
  }

  /** The admin marker is case-sensitive: notes reading "admin" do not make an admin. */
  lemma AdminMarkerCaseSensitive(m: Member)
    requires m.notes == Some("admin")
    ensures !IsAdmin(m)
  {
    assert "admin"[0] != "ADMIN"[0];
    ContainsTooLong("admin"[1..], "ADMIN");
  }

  // ---------------------------------------------------------------------------
  // Portal layers
  // ---------------------------------------------------------------------------

  datatype PortalOutcome = RedirectToLogin | CsrfRejected | Handled(member: Member)

  /**
   * The portal's route layers: the authentication layer is added last, so
   * it runs first; the CSRF layer only sees authenticated requests. The two
   * layers' own bodies are not part of this model: they enter as their
   * verdicts.
   */
  function PortalLayers(auth: Result<Member, AppError>, csrfOk: bool): (r: PortalOutcome)
    ensures auth.Failure? ==> r == RedirectToLogin
    ensures auth.Success? && !csrfOk ==> r == CsrfRejected
    ensures r.Handled? <==> auth.Success? && csrfOk
  {
    if auth.Failure? then RedirectToLogin
    else if !csrfOk then CsrfRejected
    else Handled(auth.value)
  }

  /** An unauthenticated request gets the login redirect whatever its CSRF token says. */
  lemma CsrfVerdictIrrelevantWhenAnonymous(e: AppError, ok1: bool, ok2: bool)
    ensures PortalLayers(Failure(e), ok1) == PortalLayers(Failure(e), ok2)
  {
  }

  // ---------------------------------------------------------------------------
  // First-run setup redirect
  // ---------------------------------------------------------------------------

  /** The paths `require_setup` lets through without looking for an admin. */
  predicate SetupAllowListed(path: string) {
    StartsWith(path, "/setup") || StartsWith(path, "/static") || StartsWith(path, "/assets") || StartsWith(path, "/favicon")
  }

  /**
   * SQLite's `LIKE '%ADMIN%'`: a substring test that ignores ASCII case.
   * This is the test both admin-existence queries run on the notes column.
   */
  predicate NotesLikeAdmin(notes: string) {
    Contains(Lower(notes), "admin")
  }

  /** `SELECT 1 FROM members WHERE notes LIKE '%ADMIN%' LIMIT 1` found a row. */
  predicate AnyNotesLikeAdmin(ms: Members) {
    exists i :: 0 <= i < |ms| && ms[i].notes.Some? && NotesLikeAdmin(ms[i].notes.value)
  }

  /**
   * The admin-existence test the gates imply: some member passes `is_admin`.
   * Both setup checks should mean this.
   */
  predicate AnyAdmin(ms: Members) {
    exists i :: 0 <= i < |ms| && IsAdmin(ms[i])
  }

  /**
   * Whenever `require_admin` admits anyone, the corrected test says an
   * admin exists: setup is offered only when nobody can administer.
   */
  lemma AdminGateImpliesAnyAdmin(cookie: Option<string>, store: Store, ms: Members, now: Time, sha256: Digest,
                                 sessionFault: Option<string>, memberFault: Option<string>)
    requires ValidDigest(sha256)
    requires RequireAdmin(cookie, store, ms, now, sha256, sessionFault, memberFault).1.Success?
    ensures AnyAdmin(ms)
  {
    var m := RequireAdmin(cookie, store, ms, now, sha256, sessionFault, memberFault).1.value;
    var i :| 0 <= i < |ms| && ms[i] == m;
  }

  /** The query as written finds every admin the gate recognises, and possibly more. */
  lemma AnyAdminImpliesLike(ms: Members)
    requires AnyAdmin(ms)
    ensures AnyNotesLikeAdmin(ms)
  {
    var i :| 0 <= i < |ms| && IsAdmin(ms[i]);
    ContainsLower(ms[i].notes.value, "ADMIN");
    assert Lower("ADMIN") == "admin";
  }

  /**
   * The discrepancy: a table whose only member has notes "admin" satisfies
   * the `LIKE` query, so setup counts as done, yet nobody passes
   * `require_admin`.
   */
  lemma LikeQueryFindsNonAdmin(m: Member)
    requires m.notes == Some("admin")
    ensures AnyNotesLikeAdmin([m])
    ensures !AnyAdmin([m])
  {
    assert Lower("admin") == "admin";
    assert StartsWith(Lower("admin"), "admin");
    assert [m][0] == m && NotesLikeAdmin(m.notes.value);
    AdminMarkerCaseSensitive(m);
  }

  /** The middleware's reading of the query: an error counts as "an admin exists" (fail open). */
  function MiddlewareAdminExists(query: Result<bool, AppError>): (exists_: bool)
    ensures query.Failure? ==> exists_
    ensures query.Success? ==> exists_ == query.value
  {
    match query
    case Success(found) => found
    case Failure(_) => true
  }

  /** The setup page's reading of the same query: an error counts as "no admin". */
  function PageAdminExists(query: Result<bool, AppError>): (exists_: bool)
    ensures query.Failure? ==> !exists_
    ensures query.Success? ==> exists_ == query.value
  {
    match query
    case Success(found) => found
    case Failure(_) => false
  }

  /** The two readings agree on every answer except a failed query. */
  lemma AdminChecksDisagreeOnlyOnError(query: Result<bool, AppError>)
    ensures MiddlewareAdminExists(query) != PageAdminExists(query) <==> query.Failure?
  {
  }

  datatype SetupOutcome = PassThrough | RedirectToSetup

  /**
   * `require_setup`: allow-listed paths pass; any other path is redirected
   * to /setup exactly when the admin check says there is no admin.
   */
  function RequireSetup(path: string, query: Result<bool, AppError>): (r: SetupOutcome)
    ensures SetupAllowListed(path) ==> r == PassThrough
    ensures r == RedirectToSetup <==> !SetupAllowListed(path) && query == Success(false)
  {
    if SetupAllowListed(path) then PassThrough
    else if !MiddlewareAdminExists(query) then RedirectToSetup
    else PassThrough
  }

  /** "/login" is not on the allow-list: before setup it is redirected like any other page. */
  lemma LoginRedirectedBeforeSetup()
    ensures RequireSetup("/login", Success(false)) == RedirectToSetup
  {
    assert "/login"[1] == 'l';
  }
}
