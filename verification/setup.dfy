/**
 * First-run setup: the page redirects to /login once an admin exists, and
 * the handler runs an ordered chain of checks before creating the first
 * admin (a Lifetime member, then made Active with the admin marker and a
 * dues bypass). The admin-existence query is a parameter: its outcome, or
 * its failure.
 */
module Setup {
  import opened Wrappers
  import opened Text
  import opened Errors
  import opened Domain
  import opened MemberRepo
  import opened Access

  datatype SetupRequest = SetupRequest(org_name: string, email: string, username: string, full_name: string,
                                       password: string, password_confirm: string)

  datatype SetupResponse = SetupResponse(status: int, success: bool, redirect: Option<string>, error: Option<string>)

  const AdminNotes := "ADMIN - System administrator"

  /**
   * The admin-existence query the setup checks should run: whether any
   * member passes `is_admin`, or the query's failure. This is the corrected
   * form of the `LIKE '%ADMIN%'` query (see `Access.LikeQueryFindsNonAdmin`).
   */
  function AdminQuery(ms: Members, dbOk: bool): (r: Result<bool, AppError>)
    ensures dbOk ==> r == Success(AnyAdmin(ms))
    ensures !dbOk ==> r.Failure?
  {
    if dbOk then Success(AnyAdmin(ms)) else Failure(Database("query failed"))
  }

  /** The query as the source writes it: ASCII-case-insensitive `LIKE` on notes. */
  function AdminQueryAsWritten(ms: Members, dbOk: bool): (r: Result<bool, AppError>)
    ensures dbOk ==> r == Success(AnyNotesLikeAdmin(ms))
    ensures !dbOk ==> r.Failure?
  {
    if dbOk then Success(AnyNotesLikeAdmin(ms)) else Failure(Database("query failed"))
  }

  datatype PageResponse = RedirectTo(status: int, location: string) | ShowSetupForm

  /** `setup_page`: a 303 to /login once an admin exists (a failed query counts as none). */
  function SetupPage(query: Result<bool, AppError>): (r: PageResponse)
    ensures r.RedirectTo? <==> query == Success(true)
    ensures r.RedirectTo? ==> r == RedirectTo(303, "/login")
  {
    if PageAdminExists(query) then RedirectTo(303, "/login") else ShowSetupForm
  }

  /**
   * The validation chain of `setup_handler`, in order: setup already done,
   * passwords differ, password shorter than 8, email without '@'. The first
   * failing check's message is the answer; None means all passed.
   */
  function SetupCheck(adminExists: bool, req: SetupRequest): (r: Option<string>)
    ensures adminExists ==> r == Some("Setup has already been completed")
    ensures !adminExists && req.password != req.password_confirm ==> r == Some("Passwords do not match")
    ensures !adminExists && req.password == req.password_confirm && |req.password| < 8 ==>
              r == Some("Password must be at least 8 characters")
    ensures !adminExists && req.password == req.password_confirm && |req.password| >= 8 && !ContainsChar(req.email, '@') ==>
              r == Some("Invalid email address")
    ensures r.None? <==> !adminExists && req.password == req.password_confirm && |req.password| >= 8 && ContainsChar(req.email, '@')
  {
    if adminExists then Some("Setup has already been completed")
    else if req.password != req.password_confirm then Some("Passwords do not match")
    else if |req.password| < 8 then Some("Password must be at least 8 characters")
    else if !ContainsChar(req.email, '@') then Some("Invalid email address")
    else None
  }

  /** The follow-up update that turns the new member into the administrator. */
  const PromoteToAdmin := NoChanges.(status := Some(Active), notes := Some(AdminNotes), bypass_dues := Some(true))

  /**
   * The writes of a successful setup: the new member is inserted as a
   * Lifetime member and, when the follow-up update succeeds, promoted to
   * an Active administrator with a dues bypass.
   */
  function CreateAdmin(ms: Members, req: SetupRequest, id: Id, now: Time, passwordHash: string, promoteOk: bool)
    : (r: Members)
    ensures |r| == |ms| + 1 && r[..|ms|] == ms && r[|ms|].membership_type == Lifetime
    ensures r[|ms|].id == id && r[|ms|].email == req.email && r[|ms|].username == req.username
    ensures promoteOk ==>
              var m := r[|ms|];
              m.status == Active && m.notes == Some(AdminNotes) && m.bypass_dues && IsAdmin(m)
    ensures !promoteOk ==> r[|ms|].status == MemberStatus.Pending
  {
    var create := CreateMemberRequest(req.email, req.username, req.full_name, req.password, Lifetime);
    var (created, m) := Create(ms, create, id, now, passwordHash);
    if promoteOk then
      AdminNotesMarkAdmin();
      Promote(created, |ms|, now)
    else created
  }

  /**
   * `setup_handler`: a failed check is a 400 with its message and no write;
   * a failed insert is a 500; otherwise the member is created (Lifetime)
   * and promoted. A failed promotion is logged and ignored: the answer is
   * still success.
   */
  function HandleSetup(ms: Members, req: SetupRequest, query: Result<bool, AppError>, id: Id, now: Time,
                       passwordHash: string, createError: Option<AppError>, promoteOk: bool)
    : (r: (Members, SetupResponse))
    ensures SetupCheck(PageAdminExists(query), req).Some? ==>
              r == (ms, SetupResponse(400, false, None, SetupCheck(PageAdminExists(query), req)))
    ensures SetupCheck(PageAdminExists(query), req).None? && createError.Some? ==>
              r == (ms, SetupResponse(500, false, None, Some("Failed to create admin user: " + Display(createError.value))))
    ensures r.1.success <==> SetupCheck(PageAdminExists(query), req).None? && createError.None?
    ensures r.1.success ==> r == (CreateAdmin(ms, req, id, now, passwordHash, promoteOk),
                                   SetupResponse(200, true, Some("/login"), None))
  {
    match SetupCheck(PageAdminExists(query), req)
    case Some(message) => (ms, SetupResponse(400, false, None, Some(message)))
    case None =>
      if createError.Some? then
        (ms, SetupResponse(500, false, None, Some("Failed to create admin user: " + Display(createError.value))))
      else
        (CreateAdmin(ms, req, id, now, passwordHash, promoteOk), SetupResponse(200, true, Some("/login"), None))
  }

  /** The promotion write on the row just appended (the new member is the last row). */
  function Promote(ms: Members, k: nat, now: Time): (r: Members)
    requires k < |ms|
    ensures |r| == |ms| && r[..k] == ms[..k] && r[k] == Merge(ms[k], PromoteToAdmin, now)
    ensures forall i :: k < i < |ms| ==> r[i] == ms[i]
  {
    ms[k := Merge(ms[k], PromoteToAdmin, now)]
  }

  /** The admin marker written by setup passes `is_admin`. */
  lemma AdminNotesMarkAdmin()
    ensures Contains(AdminNotes, "ADMIN")
  {
    assert StartsWith(AdminNotes, "ADMIN");
  }

  /**
   * Setup runs once: after a successful, fully promoted setup, the
   * corrected admin query reports an admin, so a second attempt is refused
   * with "Setup has already been completed" and the page redirects.
   */
  lemma SetupOnce(ms: Members, req: SetupRequest, query: Result<bool, AppError>, id: Id, now: Time,
                  passwordHash: string, req2: SetupRequest, id2: Id, now2: Time, hash2: string,
                  createError2: Option<AppError>, promoteOk2: bool)
    requires HandleSetup(ms, req, query, id, now, passwordHash, None, true).1.success
    ensures var ms' := HandleSetup(ms, req, query, id, now, passwordHash, None, true).0;
            && SetupPage(AdminQuery(ms', true)) == RedirectTo(303, "/login")
            && HandleSetup(ms', req2, AdminQuery(ms', true), id2, now2, hash2, createError2, promoteOk2)
               == (ms', SetupResponse(400, false, None, Some("Setup has already been completed")))
  {
    var ms' := HandleSetup(ms, req, query, id, now, passwordHash, None, true).0;
    AdminNotesMarkAdmin();
    assert IsAdmin(ms'[|ms|]);
    assert AnyAdmin(ms');
  }
}
