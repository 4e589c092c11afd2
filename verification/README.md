# Coterie membership server: a Dafny model of its core

Coterie is a membership server for clubs. It is written in Rust on Axum and SQLite. It records who is a member and in what standing, gates its pages and API behind sessions and an admin marker, takes dues through Stripe, and publishes events and announcements. This project models the decision logic underneath the HTTP and SQL layers as pure Dafny functions over in-memory stores, and proves what that logic promises.

What is modelled, by module:

- **Wrappers, Text, Collections, Ordering, Domain, Errors**: the shared vocabulary.
  - `Option` and `Result`, and ASCII text helpers such as lower-casing, splitting and UTF-8 byte length.
  - Filtering, counting, paging and SQL `LIMIT` on sequences.
  - A stable insertion sort standing in for `sort_by` and for SQL `ORDER BY`.
  - The records of the domain, and the 32-bit narrowing of `as i32`.
  - The error type and its map to HTTP statuses.
- **Tokens, Sessions, Csrf, Auth**: the authentication layer.
  - 64-hex-digit tokens and their hashes.
  - The session store: create, look up while unexpired, delete, sweep.
  - One CSRF token per session.
  - Session creation and the cookies.
- **Access, Setup, Login, Profile**: who may do what.
  - The status-based and admin gates.
  - The first-run setup redirect and the setup form's checks.
  - The login and password-change checks.
- **MemberRepo, MemberService, AdminMembers, PortalPayments**: member standing.
  - Status and type codecs, create defaults and the update merge.
  - Activation, expiry and the expiry sweep.
  - The admin list pipeline (filter, sort, page) and the dues arithmetic.
  - The payment summary and dues badge of the member portal.
- **PaymentRepo, StripePayments**: the payment store and the Stripe webhook transitions on it.
- **ConfigurableTypes, TypeRepo, TypeServices**: the configurable event, announcement and membership types.
  - `slugify`, hex colours, billing periods and the default tables.
  - The three type repositories, which share one model.
  - The services' validation order and delete guards.
- **EventRepo, EventApi, AdminEvents**: events, attendance, and the API and admin handlers for them.
- **AnnouncementRepo, AnnouncementApi, AdminAnnouncements**: announcements, and the API and admin handlers for them.
- **Settings, SettingsService, SettingsApi, AdminSettings**: application settings.
  - Settings folded into configurations, with defaults.
  - Grouping by category, audited updates with redaction, and typed getters.
  - The API's redaction and batch update, and the admin page.
- **Uploads**: upload validation, deletion and the private-image gate.
- **Seed**: the seeding program's parsers, its payment builder, and its member and payment generation rules.

How the model treats the program's environment:

- Time is an integer count of seconds and ids are natural numbers.
- Strings are sequences of characters.
- Every store is a sequence of records, and each SQL query is a function over that sequence.
- Hashing, random draws, UUIDs, Argon2, calendar month arithmetic and the outcome of I/O are parameters of the functions that use them.
- Where a modelled operation branches on a database or filesystem failure, the failure is a boolean or `Option` argument of that operation. A failure that the source only passes on with `?` is not modelled: the query is taken to succeed, so those members never return a `Database` error. The members concerned are named under "## Left out".

Three behaviours of the code that the model keeps as they are:

- A completed Stripe checkout only marks the payment paid. It does not change the member's status or dues date. The webhook model therefore has no member store to change.
- Replaying a completion event moves `paid_at` again. Webhook handling is not idempotent; see `StripePayments.CompletionReplayMovesPaidAt`.
- Only settings updates write an audit trail. Member, payment and content changes record nothing.

## Model

| member | source | states |
|---|---|---|
| Access.Resolve | src/api/middleware/auth.rs:29-45 | a missing cookie, an unknown or dead session, or a missing member is Unauthorized; a failed read of the session or member table is that Database error, in the order of the reads; otherwise the session's member, with the session touched |
| Access.IsAdmin | src/web/portal/mod.rs:114-119 | notes shorter than five characters never mark an admin, and notes that begin with "ADMIN" always do |
| Access.RequireAuth | src/api/middleware/auth.rs:23-64 | a failed lookup is passed on unchanged; then admits exactly Active and Honorary members and attaches that member; Pending is Forbidden; Expired and Suspended are Unauthorized |
| Access.RequireAdmin | src/api/middleware/auth.rs:66-105 | a failed lookup is passed on unchanged; then admits exactly the members whose notes contain "ADMIN", whatever their status; any other resolved member is Forbidden |
| Access.OptionalAuth | src/api/middleware/auth.rs:107-128 | never rejects, even when a read fails; attaches a member exactly when the lookup resolves |
| Access.GatesAgreeOnMember | src/api/middleware/auth.rs:23-128 | whoever either strict gate admits is the member the optional gate attaches |
| Access.AdminGateIgnoresStatus | src/api/middleware/auth.rs:47-58 | a Suspended or Pending admin passes the admin gate but is refused by the member gate |
| Access.FaultsSplitGates | src/api/middleware/auth.rs:35-38 | a failed session read is a Database error at both strict gates, while the optional gate lets the request through without a member and leaves the sessions alone |
| Access.NoNotesNoAdmin | src/web/portal/mod.rs:114-119 | a member without notes is never an admin |
| Access.AdminMarkerCaseSensitive | src/web/portal/mod.rs:114-119 | notes reading "admin" in lower case do not make an admin |
| Access.PortalLayers | src/web/portal/mod.rs:88-98 | the authentication layer runs before the CSRF layer; an anonymous request is redirected to /login before any CSRF check |
| Access.CsrfVerdictIrrelevantWhenAnonymous | src/web/portal/mod.rs:88-98 | an anonymous request gets the login redirect whatever the CSRF verdict |
| Access.AdminGateImpliesAnyAdmin | src/api/middleware/auth.rs:90-99 | if the admin gate admits anyone, the corrected admin-existence test reports an admin |
| Access.AnyAdminImpliesLike | src/api/middleware/setup.rs:40-62 | every admin the gate recognises also matches the `LIKE '%ADMIN%'` query |
| Access.LikeQueryFindsNonAdmin | src/api/middleware/setup.rs:42-48 | a table whose only member has notes "admin" satisfies the LIKE query while nobody passes the admin gate |
| Access.MiddlewareAdminExists | src/api/middleware/setup.rs:53-61 | a failed query counts as "an admin exists" |
| Access.PageAdminExists | src/web/templates/setup.rs:165-172 | a failed query counts as "no admin" |
| Access.AdminChecksDisagreeOnlyOnError | src/web/templates/setup.rs:153-173 | the middleware and setup-page readings of the query agree except when the query fails |
| Access.RequireSetup | src/api/middleware/setup.rs:12-37 | paths under /setup, /static, /assets and /favicon pass; any other path redirects to /setup exactly when no admin is reported |
| Access.LoginRedirectedBeforeSetup | src/api/middleware/setup.rs:19-34 | "/login" is not allow-listed, so before setup it is redirected to /setup |
| Setup.AdminQuery | src/web/templates/setup.rs:153-173 | corrected admin query: succeeds with whether any member passes `is_admin`, or fails |
| Setup.AdminQueryAsWritten | src/web/templates/setup.rs:154-161 | the query as written: case-insensitive substring match of "ADMIN" on notes |
| Setup.SetupPage | src/web/templates/setup.rs:41-59 | a 303 to /login exactly when the query reports an admin; otherwise the form |
| Setup.SetupCheck | src/web/templates/setup.rs:66-102 | the first failing check in order (setup done, passwords differ, password under 8 characters, email without '@') gives the message; none fails exactly when all pass |
| Setup.CreateAdmin | src/web/templates/setup.rs:104-136 | one Lifetime member is appended; with a successful update it is Active, bypasses dues and carries the admin notes, otherwise it stays Pending |
| Setup.HandleSetup | src/web/templates/setup.rs:62-150 | a failed check is a 400 with no write; a failed insert is a 500 carrying the error text; success exactly when checks pass and the insert succeeds, answering 200 with redirect /login |
| Setup.Promote | src/web/templates/setup.rs:125-136 | only the new row changes, and it receives the admin update |
| Setup.AdminNotesMarkAdmin | src/web/templates/setup.rs:128 | the notes setup writes pass `is_admin` |
| Setup.SetupOnce | src/web/templates/setup.rs:66-75 | after a successful, promoted setup the page redirects and a second setup is refused with "Setup has already been completed" |
| Auth.CreateSession | src/auth/mod.rs:55-64 | a fresh 64-hex-character token; the store gains one row holding its hash, expiring `hours` hours after now |
| Auth.CreateSessionThenValidate | src/auth/mod.rs:55-68 | the token handed out finds its session before expiry |
| Auth.SessionDeadAtExpiry | src/auth/session.rs:75-115 | a session is not found at or after its expiry |
| Auth.SessionCookie | src/auth/mod.rs:78-86 | cookie "session" holding the token, path "/", Lax, HttpOnly, 24-hour Max-Age |
| Auth.LogoutCookie | src/auth/mod.rs:88-95 | an empty "session" cookie at path "/" that expires at once |
| Auth.LogoutMatchesSession | src/auth/mod.rs:78-95 | the logout cookie has the name and path of the session cookie, so it replaces it |
| Auth.VerifyPassword | src/auth/mod.rs:33-40 | an unparsable hash is an Internal error; otherwise the verdict of the hash check |
| Login.FindLoginMember | src/web/templates/auth.rs:49-64 | the identifier is tried as a username first, then as an email only when no username matches |
| Login.LookupLoginMember | src/web/templates/auth.rs:49-64 | a failing username query counts as no match (`.ok().flatten()`), and so does a failing email query; with both working it is `FindLoginMember` |
| Login.ReadHash | src/web/templates/auth.rs:66-71 | a failing hash query counts as no hash; otherwise the stored hash of that email |
| Login.StoredHash | src/auth/mod.rs:105-114 | the password hash of the first row with that email, if it has one |
| Login.SessionHours | src/web/templates/auth.rs:88 | 720 hours with "remember me", else 24 |
| Login.CookieMaxAge | src/web/templates/auth.rs:96-100 | 30 days in seconds with "remember me", else one day |
| Login.LoginCookie | src/web/templates/auth.rs:93-101 | the header starts with "session=" and the token, and a ";" ends the value |
| Login.LoginCookieRoundTrip | src/web/templates/auth.rs:93-101 | reading the session value back from the header gives the issued token |
| Login.HandleLogin | src/web/templates/auth.rs:45-121 | a session is issued exactly when the credentials are accepted and the session insert succeeds; the session belongs to the member found and lasts as long as the cookie's Max-Age; accepted credentials with a failing insert panic; otherwise 401 "Invalid username or password"; the store changes only on success |
| Login.LoginWithoutFaults | src/web/templates/auth.rs:45-121 | with no database failure, a session is issued exactly when a member is found and the stored hash verifies the password |
| Login.LookupFailureLooksUnknown | src/web/templates/auth.rs:49-64 | when both lookups fail the answer is the one an unknown identifier gets, and the store is unchanged |
| Login.HashReadFailureRejects | src/web/templates/auth.rs:66-81 | a failing hash query rejects the login even with the right password |
| Login.FailuresIndistinguishable | src/web/templates/auth.rs:115-120 | an unknown identifier and a wrong password give identical responses |
| Login.PendingMemberLogsIn | src/web/templates/auth.rs:66-112 | status is not checked: a Pending member with the right password gets a session |
| Login.NoHashNoLogin | src/web/templates/auth.rs:74-81 | a member without a stored hash never logs in |
| Login.HandleLogout | src/web/templates/auth.rs:124-133 | only an expiring cookie and a redirect to /login; the session store is unchanged |
| Login.TokenOutlivesLogout | src/web/templates/auth.rs:124-133 | after logout the old token still finds its session until expiry |
| Sessions.Create | src/auth/session.rs:36-73 | one row appended holding the token's hash, never the token; created and last-used at now |
| Sessions.FindByToken | src/auth/session.rs:75-115 | the first live row with the token's hash, touched to now; with none live the store is unchanged |
| Sessions.ExpiringNowNotFound | src/auth/session.rs:88-92 | `expires_at > now` is strict: a session expiring now is not found |
| Sessions.DeleteByToken | src/auth/session.rs:117-126 | removes exactly the rows with the token's hash |
| Sessions.DeleteByTokenIdempotent | src/auth/session.rs:117-126 | deleting an unknown token changes nothing; deleting twice equals deleting once |
| Sessions.DeleteByMember | src/auth/session.rs:128-136 | removes exactly that member's rows |
| Sessions.CleanupExpired | src/auth/session.rs:138-148 | removes exactly the rows with expiry at or before now and reports how many |
| Sessions.CleanupKeepsLive | src/auth/session.rs:138-148 | cleanup never changes the answer of a lookup at the same instant |
| Sessions.CleanupThenFind | src/auth/session.rs:75-148 | a lookup after cleanup returns what it would have returned before |
| Sessions.CreateThenFind | src/auth/session.rs:36-115 | right after create, the token finds a live session of that member with that expiry |
| Csrf.Generate | src/auth/csrf.rs:16-37 | a fresh token; its hash replaces whatever the session had stored |
| Csrf.Validate | src/auth/csrf.rs:40-53 | a session without a stored token validates nothing, and a token validates only against a stored 64-hex-digit hash |
| Csrf.Delete | src/auth/csrf.rs:56-64 | removes the session's row, if any |
| Csrf.CleanupOrphaned | src/auth/csrf.rs:67-76 | keeps exactly the tokens whose session id is the id of a stored session row, expired or not, with their hashes unchanged; reports how many it removed |
| Csrf.CleanupCount | src/auth/csrf.rs:67-76 | the reported count is the number of rows removed |
| Csrf.CleanupAfterSessionSweep | src/auth/csrf.rs:67-76 | run after the expired-session sweep, cleanup keeps exactly the tokens of stored sessions that have not expired |
| Csrf.ValidateAfterGenerate | src/auth/csrf.rs:16-53 | a token validates for the session it was generated for |
| Csrf.GenerateReplaces | src/auth/csrf.rs:24-32 | with an injective digest, only the latest token of a session validates |
| Csrf.GenerateIsolated | src/auth/csrf.rs:16-37 | generating for one session changes no other session's validation |
| Csrf.DeleteInvalidates | src/auth/csrf.rs:56-64 | after deletion nothing validates for that session; deleting again changes nothing |
| Tokens.HexEncode | src/auth/csrf.rs:79-84 | two lower-case hex digits per byte |
| Tokens.HexDecode | src/auth/csrf.rs:79-84 | decodes lower-case hex text of even length back to bytes |
| Tokens.HexRoundTrip | src/auth/csrf.rs:79-84 | decoding an encoding gives the bytes back |
| Tokens.HexEncodeInjective | src/auth/csrf.rs:79-90 | different byte strings have different encodings |
| Tokens.GenerateToken | src/auth/mod.rs:98-103 | 64 lower-case hex characters |
| Tokens.HashToken | src/auth/session.rs:151-156 | the 64-character hex encoding of the token's digest |
| Tokens.HashDiffersFromInput | src/auth/csrf.rs:86-90 | a hash never equals a token that is not 64 lower-case hex characters |
| Errors.Respond | src/error.rs:50-85 | every error maps to a 4xx or 5xx status; 5xx exactly for server faults; database and internal errors answer 500 with a fixed text; the other variants with a message answer with that message |
| Errors.ClientStatuses | src/error.rs:57-71 | 401 and 403 for the unit variants; 404, 400, 409, 402 and 422 for not-found, bad-request, conflict, payment and validation errors |
| Errors.ServerStatuses | src/error.rs:67-76 | 503 for integration errors and unavailability; 502 for an external-service error |
| Errors.DetailNeverLeaks | src/error.rs:53-65 | two database errors, or two internal errors, give identical responses whatever their messages |
| Errors.FromDriverError | src/error.rs:87-91 | a driver error becomes a Database error carrying its text, answered as a 500 with the fixed text |
| Errors.Display | src/error.rs:11-48 | the display text is the variant's label, followed by ": " and the message for variants that carry one |
| Errors.DisplayShowsHiddenDetail | src/error.rs:11-65 | the display text of a database or internal error ends with the detail the HTTP body withholds |
| MemberRepo.ParseStatus | src/repository/member_repository.rs:57-66 | only the five stored names parse; anything else is a Database error |
| MemberRepo.StatusRoundTrip | src/repository/member_repository.rs:57-76 | parsing the stored name of any status gives that status back |
| MemberRepo.ParseStatusOnlyNames | src/repository/member_repository.rs:57-66 | a text parses exactly when it is the stored name of some status |
| MemberRepo.ParseType | src/repository/member_repository.rs:78-86 | only the four stored names parse; anything else is a Database error |
| MemberRepo.TypeRoundTrip | src/repository/member_repository.rs:78-95 | parsing the stored name of any membership type gives that type back |
| MemberRepo.ParseTypeOnlyNames | src/repository/member_repository.rs:78-86 | a text parses exactly when it is the stored name of some type |
| MemberRepo.ListActive | src/repository/member_repository.rs:237-258 | exactly the Active members, each as often as stored (same multiset), latest joined first |
| MemberRepo.ListActiveCount | src/repository/member_repository.rs:237-258 | for any property only Active members have, the listing holds as many members with it as the table |
| MemberRepo.FindById | src/repository/member_repository.rs:151-171 | finds a stored member with the id, and finds none exactly when no member has it |
| MemberRepo.FindByEmail | src/repository/member_repository.rs:173-192 | finds a stored member with the email, and finds none exactly when no member has it |
| MemberRepo.FindByUsername | src/repository/member_repository.rs:194-213 | finds a stored member with the username, and finds none exactly when no member has it |
| MemberRepo.List | src/repository/member_repository.rs:215-236 | the page has exactly the rows left after the offset, up to the limit; newest created first; drawn from the stored members; the first page holds the newest members, and consecutive pages join |
| MemberRepo.ListCompleteBelowLimit | src/repository/member_repository.rs:215-236 | with fewer members than the limit, the first page lists every member |
| MemberRepo.Create | src/repository/member_repository.rs:100-149 | one member appended: Pending, no bypass, joined, created and updated at now, no dues date, expiry or notes, holding the password hash |
| MemberRepo.CreateThenFind | src/repository/member_repository.rs:100-171 | with a fresh id, the created member is found by its id |
| MemberRepo.Merge | src/repository/member_repository.rs:289-320 | supplied fields replace (full_name, status, type, expires_at, bypass_dues, notes), missing ones keep; id, email, username, joined_at, dues and created_at never change; updated_at is now |
| MemberRepo.UpdateWhere | src/repository/member_repository.rs:306-320 | the row with the id is rewritten; every other row is unchanged |
| MemberRepo.Update | src/repository/member_repository.rs:283-334 | NotFound "Member not found" exactly when the id is missing; otherwise the row is merged and returned, other rows unchanged |
| MemberRepo.UpdateNeverClears | src/repository/member_repository.rs:312-314 | an update can never clear expires_at or notes once set |
| MemberRepo.MergeIdempotent | src/repository/member_repository.rs:289-320 | applying the same update twice equals applying it once, later |
| MemberRepo.MergeNoChanges | src/repository/member_repository.rs:289-320 | an empty update only touches updated_at |
| MemberRepo.Delete | src/repository/member_repository.rs:336-345 | removes exactly the rows with that id; afterwards the id is not found |
| MemberRepo.DeleteMissing | src/repository/member_repository.rs:336-345 | deleting a missing id changes nothing |
| MemberService.CreateMember | src/service/member_service.rs:24-43 | Conflict "Email already exists" first, then Conflict "Username already exists"; with working queries, success exactly when both are free, adding one Pending member |
| MemberService.CreateMemberKeepsUnique | src/service/member_service.rs:24-43 | creation keeps emails and usernames pairwise distinct |
| MemberService.Activate | src/service/member_service.rs:45-66 | NotFound for a missing id; an Active member is returned with no write; otherwise every row with the id becomes Active with updated_at now, no other field or row changes, and the returned member is the found one so changed |
| MemberService.ActivateIdempotent | src/service/member_service.rs:45-51 | activating again returns the same store and member |
| MemberService.FindUnique | src/service/member_service.rs:92-113 | with unique ids the lookup returns the row holding the id |
| MemberService.Expire | src/service/member_service.rs:68-90 | NotFound for a missing id, then BadRequest when dues are bypassed; otherwise every row with the id becomes Expired with expires_at and updated_at now, from any status, and every other row is unchanged |
| MemberService.ExpireWritesReturnedRow | src/service/member_service.rs:68-90 | with unique ids, looking the id up after an expiry finds the member the call returned, and ids stay unique |
| MemberService.SweepReport | src/service/member_service.rs:96-110 | the report of a walk over some rows lists as many members as were due, each Expired at now |
| MemberService.SweepReportHasDue | src/service/member_service.rs:96-110 | every due row is in the report, as the sweep leaves it |
| MemberService.SweepReportOnlyDue | src/service/member_service.rs:96-110 | every reported member is some due row as the sweep leaves it |
| MemberService.ExpireDueRow | src/service/member_service.rs:100-107 | with unique ids, expiring a due listed member succeeds, returns the swept row and sweeps exactly that member's row |
| MemberService.SweepMember | src/service/member_service.rs:96-110 | one iteration: a due member is expired and reported, any other member is skipped, and the table stays swept for the members walked |
| MemberService.SweepListed | src/service/member_service.rs:96-110 | after the loop every listed member's row is swept, the rest untouched, and the report is that of the listing, in its order |
| MemberService.CheckExpired | src/service/member_service.rs:92-113 | a failing `list_active` is returned with nothing written; otherwise every row ends as the sweep leaves it (only Active, non-bypassed members with dues before now are expired), and the report walks `list_active` in order, lists as many members as were due, all Expired at now |
| MemberService.SecondSweepEmpty | src/service/member_service.rs:92-113 | after a sweep no member is due at the same time, so a second run reports no one |
| MemberService.SweepIdempotent | src/service/member_service.rs:92-113 | sweeping a row twice at the same time equals sweeping it once |
| AdminMembers.FilterMembers | src/web/portal/admin/members.rs:117-150 | keeps exactly the candidate members whose lower-cased name, email or username contains the lower-cased query and that match the non-empty status and type filters |
| AdminMembers.Candidates | src/web/portal/admin/members.rs:116-120 | the members the page works on: none when the list query fails, otherwise the 1000 most recently created, newest first |
| AdminMembers.CandidatesCompleteBelowCap | src/web/portal/admin/members.rs:116-120 | with fewer than 1000 members, every member is a candidate |
| AdminMembers.EmptyQueryKeepsAll | src/web/portal/admin/members.rs:117-150 | with no query and no filters every candidate is kept, in order |
| AdminMembers.DuesKeyOrder | src/web/portal/admin/members.rs:165-170 | the integer sort key for dues orders a set date before no date and earlier dates first |
| AdminMembers.SortMembers | src/web/portal/admin/members.rs:152-176 | a permutation of the filtered members, sorted by the chosen field (name by default), descending when asked |
| AdminMembers.DuesSortOrder | src/web/portal/admin/members.rs:165-175 | sorted by dues, every earlier row has a set date before no date and the earlier date first, or the reverse when descending |
| AdminMembers.ListMembers | src/web/portal/admin/members.rs:113-184 | page is at least 1 and the requested page when valid; total counts the filtered candidates; total_pages is the ceiling of total over 20; the rows are exactly the sorted list from offset (page-1)*20, 20 of them or as many as remain |
| AdminMembers.MembersPage | src/web/portal/admin/members.rs:75-184 | a non-admin caller gets an empty first page; an administrator gets the filtered, sorted page with the filtered total |
| AdminMembers.Paginate | src/web/portal/admin/members.rs:113-181 | for any sorted list: the page is at least 1 and the requested one when it is at least 1; the totals count the whole list; the rows are the 20 (or fewer at the end) that follow offset (page-1)*20, in order |
| AdminMembers.PageRow | src/web/portal/admin/members.rs:178-184 | row k of a page is the sorted row at the page's offset plus k |
| AdminMembers.ListedRowsPassFilter | src/web/portal/admin/members.rs:117-184 | every listed row is an input member that passes the filters |
| AdminMembers.ListedRowIndex | src/web/portal/admin/members.rs:181-184 | every listed row is a row of the sorted, filtered list |
| AdminMembers.KeptMember | src/web/portal/admin/members.rs:117-150 | a kept member is an input member that passes the filters |
| AdminMembers.Initials | src/web/portal/admin/members.rs:186-198 | the upper-cased first characters of the first two words, or "?" when there are none |
| AdminMembers.DuesExpired | src/web/portal/admin/members.rs:446-448 | expired exactly when there is no dues date or it lies before now |
| AdminMembers.AsU32 | src/web/portal/admin/members.rs:564 | the month count cast to u32: a negative count wraps around modulo 2^32 |
| AdminMembers.ExtensionBase | src/web/portal/admin/members.rs:558-562 | the current dues date when it is after now, else exactly now; never before now |
| AdminMembers.ExtendDues | src/web/portal/admin/members.rs:558-566 | the new dues date is the month addition from the base when it succeeds, and the base when it overflows; so at least now |
| AdminMembers.ExtendDuesNotExpired | src/web/portal/admin/members.rs:536-586 | after an extension the dues are not expired (the new date is not before now), and a dues date after now never moves backwards |
| AdminMembers.ExtendDuesById | src/web/portal/admin/members.rs:536-586 | corrected: "Invalid member ID", then "Member not found" for a missing member or failing lookup, then the write's error; otherwise every row with the parsed id gets the extended dues date and updated_at now, others unchanged |
| AdminMembers.ExtendDuesByIdStores | src/web/portal/admin/members.rs:567-577 | corrected: after a reported extension the member's stored dues date is the date reported |
| AdminMembers.ExtendDuesHandler | src/web/portal/admin/members.rs:536-586 | as written: the same errors; on success the reported date is the extension, the rows are written as above when the path spells the id as stored, and no row changes for any other spelling the parser accepts; the caller is not checked |
| AdminMembers.NonCanonicalIdWritesNothing | src/web/portal/admin/members.rs:567-577 | as written: through a non-canonical spelling of an existing member's id the handler answers success with a dues date that is not the member's stored one |
| AdminMembers.NonCanonicalLeavesDuesUnset | src/web/portal/admin/members.rs:567-577 | as written: a member without dues extended through a non-canonical spelling still has no dues date |
| AdminMembers.CanonicalPathAgrees | src/web/portal/admin/members.rs:567-569 | with the path spelled as stored, the handler as written equals the corrected one |
| AdminMembers.NonAdminExtendsOwnDues | src/web/portal/admin/members.rs:536-586 | a non-admin member extending their own dues succeeds |
| AdminMembers.GatedExtendDues | src/web/portal/admin/members.rs:536-586 | corrected: a non-admin is refused with "Access denied" and nothing else is, success implies an admin caller; an admin gets the handler with its write bound to the parsed id |
| AdminMembers.EndOfDay | src/web/portal/admin/members.rs:617-620 | the chosen day's last second, 23:59:59 |
| AdminMembers.ExpireNowDues | src/web/portal/admin/members.rs:655 | a dues date one day before now |
| AdminMembers.ExpireNowShowsExpired | src/web/portal/admin/members.rs:643-675 | after "expire now" the member's dues show as expired |
| AdminMembers.FormType | src/web/portal/admin/members.rs:797-803 | the stored type names parse to their type; any other text is Regular |
| AdminMembers.FormStatus | src/web/portal/admin/members.rs:815-821 | Active, Expired, Suspended and Honorary are applied; any other text, "Pending" included, applies no status |
| AdminMembers.AdminCreateMember | src/web/portal/admin/members.rs:790-854 | fails exactly when the insert fails, with its error; otherwise one member is appended with the parsed type; with the follow-up update working it has the applied status (Pending when none) and the form's notes, and with it failing (`let _ =`) it stays Pending with no notes |
| AdminMembers.CreatePendingByDefault | src/web/portal/admin/members.rs:815-830 | a form status that is not applied, or a failing follow-up update, leaves the new member Pending |
| AdminMembers.NonAdminCreatesAdmin | src/web/portal/admin/members.rs:790-854 | a non-admin caller can create a member with notes "ADMIN", who passes the admin test |
| AdminMembers.GatedCreateMember | src/web/portal/admin/members.rs:790-854 | with the admin check: a non-admin is refused as Forbidden and nothing else is, success implies an admin caller |
| AdminMembers.AdminUpdateRequest | src/web/portal/admin/members.rs:501-515 | sets full_name, the parsed type, notes (empty when absent) and bypass_dues (whether the box was sent); never status or expiry |
| AdminMembers.FormWithoutNotesClearsNotes | src/web/portal/admin/members.rs:513 | a form without notes overwrites the member's notes with "" |
| PortalPayments.LineOf | src/web/portal/payments.rs:70-90 | a payment's line carries its date, amount and status, and "Membership dues" when the description is empty |
| PortalPayments.PaymentsList | src/web/portal/payments.rs:43-97 | no history exactly when the query fails or the member has no payments; otherwise one line per own payment, in order |
| PortalPayments.ListShowsOnlyOwn | src/web/portal/payments.rs:47-50 | every listed line comes from one of the member's own payments |
| PortalPayments.ListShowsEveryPayment | src/web/portal/payments.rs:47-50 | every payment of the member is listed |
| PortalPayments.Summary | src/web/portal/payments.rs:100-117 | a failed query reports 0 |
| PortalPayments.SummaryIsCompletedTotal | src/web/portal/payments.rs:106-114 | the total is the sum of the member's Completed payments only |
| PortalPayments.SummaryAfterAppend | src/web/portal/payments.rs:106-114 | adding a payment raises the total by its amount exactly when it is the member's and Completed |
| PortalPayments.OfflinePaymentsAndTotal | src/payments/stripe_client.rs:199-242 | a manual payment adds its (i32-stored) amount to the total; a waived payment and a new checkout leave it unchanged |
| PortalPayments.Dues | src/web/portal/payments.rs:120-134 | Current exactly when dues lie after now, Expired exactly when at or before now, Unpaid exactly when unset |
| PortalPayments.BadgeAgainstAdminList | src/web/portal/payments.rs:123-131 | the portal badge and the admin list agree except at dues equal to now, where the badge says Expired and the admin list does not |
| PortalPayments.NextDueOf | src/web/portal/payments.rs:137-147 | shows the dues date exactly when one is set |
| PortalPayments.NextDueMatchesBadge | src/web/portal/payments.rs:120-147 | "not set" exactly when the badge says Unpaid; a shown date is after now exactly when the badge says Current |
| PaymentRepo.ParseStatus | src/repository/payment_repository.rs:52-60 | an unknown status text is a Database error naming the text |
| PaymentRepo.StatusRoundTrip | src/repository/payment_repository.rs:52-69 | every status survives being written as text and read back |
| PaymentRepo.ParseStatusOnlyNames | src/repository/payment_repository.rs:52-69 | a status text parses exactly when it is the stored name of some status |
| PaymentRepo.ParseMethod | src/repository/payment_repository.rs:71-78 | an unknown method text is a Database error naming the text |
| PaymentRepo.MethodRoundTrip | src/repository/payment_repository.rs:71-86 | every payment method survives being written as text and read back |
| PaymentRepo.ParseMethodOnlyNames | src/repository/payment_repository.rs:71-86 | a method text parses exactly when it is the stored name of some method |
| PaymentRepo.FindByStripeId | src/repository/payment_repository.rs:173-192 | a found payment is stored and carries the Stripe id; nothing is found exactly when no payment carries it |
| PaymentRepo.FindByMember | src/repository/payment_repository.rs:151-171 | the member's payments, newest first: a reordering of exactly the stored rows with that member id, duplicates included |
| PaymentRepo.FindByMemberRows | src/repository/payment_repository.rs:151-171 | a payment is listed exactly when it is stored and belongs to the member |
| PaymentRepo.FindByMemberNewestFirst | src/repository/payment_repository.rs:160 | every listed payment was created no earlier than any later one in the list |
| PaymentRepo.Create | src/repository/payment_repository.rs:91-127 | a taken id is a Database error; otherwise the row is appended, stamped with the current time, with the amount narrowed to 32 bits and every other field as given |
| PaymentRepo.CreateThenFind | src/repository/payment_repository.rs:91-149 | a payment created under a fresh id is found by that id |
| PaymentRepo.AmountRoundTrip | src/repository/payment_repository.rs:94 | the amount read back equals the amount written exactly when it fits in 32 bits |
| PaymentRepo.Overwrite | src/repository/payment_repository.rs:194-233 | an update keeps the row's id and creation time, stamps the update time and takes every other field from the new value, the amount narrowed to 32 bits |
| PaymentRepo.OverwriteForgetsPrevious | src/repository/payment_repository.rs:194-233 | the result of an update does not depend on the row's old contents; cleared paid-at and Stripe id stay cleared |
| PaymentRepo.Update | src/repository/payment_repository.rs:194-233 | a missing id is "Failed to retrieve updated payment"; otherwise exactly the row with that id is overwritten |
| PaymentRepo.SetStatus | src/repository/payment_repository.rs:235-267 | sets the status and update time; Completed also stamps paid-at, any other status keeps it; nothing else changes |
| PaymentRepo.SetStatusTwice | src/repository/payment_repository.rs:235-267 | setting the same status twice equals setting it once at the later time |
| PaymentRepo.UpdateStatus | src/repository/payment_repository.rs:235-267 | a missing id is "Failed to retrieve updated payment"; otherwise exactly the row with that id has its status set |
| PaymentRepo.StatusChangeKeepsPaidAt | src/repository/payment_repository.rs:240-254 | a status other than Completed leaves the payment's paid-at as it was |
| PaymentRepo.CreateKeepsInvariants | src/repository/payment_repository.rs:91-127 | creating under a fresh id keeps ids unique and every amount within 32 bits |
| PaymentRepo.UpdateKeepsInvariants | src/repository/payment_repository.rs:194-233 | an update keeps ids unique and every amount within 32 bits |
| PaymentRepo.UpdateStatusKeepsInvariants | src/repository/payment_repository.rs:235-267 | a status update keeps ids unique and every amount within 32 bits |
| StripePayments.CheckoutPayment | src/payments/stripe_client.rs:78-91 | the pending record of a checkout: Stripe method, the session id, USD, no paid-at, described as "<type> Membership Payment" |
| StripePayments.CreateCheckout | src/payments/stripe_client.rs:36-98 | a Stripe failure is "Stripe error: ..." with no write; otherwise the pending payment is created and the session URL returned, or "No checkout URL returned" when there is none |
| StripePayments.CheckoutThenFindByStripeId | src/payments/stripe_client.rs:74-93 | after a checkout the pending payment is found by the session id, unpaid and belonging to the member |
| StripePayments.MarkCompleted | src/payments/stripe_client.rs:148-153 | a completed checkout marks the payment Completed and paid now |
| StripePayments.MarkFailed | src/payments/stripe_client.rs:174-178 | an expired or failed checkout marks the payment Failed and keeps its paid-at |
| StripePayments.Transition | src/payments/stripe_client.rs:141-197 | a webhook never adds or removes payments; an unknown Stripe id changes nothing |
| StripePayments.HandleWebhook | src/payments/stripe_client.rs:100-139 | a bad signature is BadRequest "Invalid signature", any other verification error is "Webhook error: ..."; a verified event never fails and unhandled events change nothing |
| StripePayments.UnknownIdNoChange | src/payments/stripe_client.rs:148-162 | an event for a Stripe id no payment carries leaves the payments unchanged |
| StripePayments.CompletionMarksPaid | src/payments/stripe_client.rs:141-166 | a completed checkout marks exactly the matching payment Completed and paid now; every other payment is unchanged |
| StripePayments.FailureKeepsPaidAt | src/payments/stripe_client.rs:168-197 | an expired or failed checkout marks exactly the matching payment Failed, keeping its paid-at; every other payment is unchanged |
| StripePayments.CompletedTable | src/payments/stripe_client.rs:141-166 | with unique ids, completion changes only the matching row and keeps the table's invariants |
| StripePayments.CompletionReplayMovesPaidAt | src/payments/stripe_client.rs:148-154 | a replayed completion event moves paid-at to the time of the replay: the handler is not idempotent in paid-at |
| StripePayments.ManualPayment | src/payments/stripe_client.rs:199-220 | a manual payment is appended Completed, paid now, with no Stripe id, the amount narrowed to 32 bits; a taken id fails |
| StripePayments.WaivePayment | src/payments/stripe_client.rs:222-242 | a waiver is appended Completed, paid now, Waived, with amount zero and no Stripe id; a taken id fails |
| StripePayments.OfflinePaymentsUnreachableByWebhook | src/payments/stripe_client.rs:199-242 | manual and waived payments carry no Stripe id, so no webhook lookup ever finds them |
| ConfigurableTypes.Normalize | src/domain/configurable_types.rs:165-167 | lower-cases every character and turns every non-alphanumeric one into `-`, position by position |
| ConfigurableTypes.Slugify | src/domain/configurable_types.rs:164-173 | the result is a slug: lower-case alphanumerics in non-empty words joined by single `-`, with no leading or trailing `-` |
| ConfigurableTypes.JoinSplit | src/domain/configurable_types.rs:168-172 | joining the pieces of a split on `-` gives back the text |
| ConfigurableTypes.SplitJoin | src/domain/configurable_types.rs:168-172 | splitting a join of dash-free words on `-` gives back the words |
| ConfigurableTypes.SlugifyFixesSlugs | src/domain/configurable_types.rs:164-173 | a slug slugifies to itself |
| ConfigurableTypes.SlugifyIdempotent | src/domain/configurable_types.rs:164-173 | slugifying twice equals slugifying once |
| ConfigurableTypes.SlugOfNoAlnumIsEmpty | src/domain/configurable_types.rs:164-173 | a name with no alphanumeric character slugifies to the empty text |
| ConfigurableTypes.SlugIsJoinOfWords | src/domain/configurable_types.rs:164-173 | the slug is its alphanumeric words joined by `-`, and empty exactly when there are none |
| ConfigurableTypes.SlugifySeparated | src/domain/configurable_types.rs:164-173 | any run of separators between two names becomes one `-` between their slugs |
| ConfigurableTypes.SlugifyPadded | src/domain/configurable_types.rs:164-173 | separators around a name do not change its slug |
| ConfigurableTypes.SlugifyTwoWords | src/domain/configurable_types.rs:164-173 | two words of letters separated by non-alphanumerics slugify to their lower-case forms joined by `-` |
| ConfigurableTypes.SlugifyExamples | src/domain/configurable_types.rs:219-220 | "Hello World" slugifies to "hello-world" and "CTF Result" to "ctf-result" |
| ConfigurableTypes.ValidateHexColor | src/domain/configurable_types.rs:176-182 | accepted exactly when the text is `#` followed by 3 or 6 hex digits |
| ConfigurableTypes.HexColorExamples | src/domain/configurable_types.rs:226-234 | "#FFF", "#fff", "#FFFFFF" and "#2196F3" are accepted; "FFF", "#GGGGGG" and "#12345" are not |
| ConfigurableTypes.FromStr | src/domain/configurable_types.rs:100-107 | a parsed billing period's name equals the lower-cased input |
| ConfigurableTypes.FromStrExactly | src/domain/configurable_types.rs:92-107 | a text parses to a period exactly when its lower-case form is that period's name |
| ConfigurableTypes.BillingPeriodRoundTrip | src/domain/configurable_types.rs:92-107 | every period's name parses back to it, in any letter case |
| ConfigurableTypes.FromStrIgnoresCase | src/domain/configurable_types.rs:100-107 | parsing ignores letter case |
| ConfigurableTypes.BillingPeriodExamples | src/domain/configurable_types.rs:237-242 | Yearly is named "yearly", and both "yearly" and "YEARLY" parse to it |
| ConfigurableTypes.BillingPeriodInvalid | src/domain/configurable_types.rs:241 | "invalid" is not a billing period |
| ConfigurableTypes.DefaultSlugsDistinct | src/domain/configurable_types.rs:189-211 | each table of default types has pairwise distinct slugs |
| ConfigurableTypes.DefaultMembershipTypesValid | src/domain/configurable_types.rs:205-211 | every default membership type has a non-negative fee and a billing period that parses |
| TypeRepo.FindBySlug | src/repository/event_type_repository.rs:123-141 | a found type is stored and has the slug; nothing is found exactly when no type has it |
| TypeRepo.List | src/repository/event_type_repository.rs:143-167 | the listed types are exactly the stored ones, inactive ones only when asked, ordered by (sort order, name) |
| TypeRepo.ListOrderedBySortOrder | src/repository/event_type_repository.rs:143-167 | sort order never decreases along the list |
| TypeRepo.MaxSortOrder | src/repository/event_type_repository.rs:239-248 | none exactly for an empty table; otherwise the largest sort order present |
| TypeRepo.NextSortOrder | src/repository/event_type_repository.rs:239-248 | 1 for an empty table; otherwise one more than the largest sort order present |
| TypeRepo.SlugFor | src/repository/event_type_repository.rs:73 | without an explicit slug the derived one is a well-formed slug |
| TypeRepo.Create | src/repository/event_type_repository.rs:69-100 | a taken id fails; otherwise the new type is appended active, not a system type, with the given or derived slug and the next sort order; membership types keep fee and period |
| TypeRepo.CreateSortsLast | src/repository/event_type_repository.rs:69-100 | a newly created type sorts after every existing type |
| TypeRepo.Merge | src/repository/membership_type_repository.rs:180-223 | a supplied field replaces and a missing one keeps; id, slug, system flag and creation time never change; fee and period change only for membership types |
| TypeRepo.UpdateNeverClears | src/repository/event_type_repository.rs:169-207 | an update cannot clear a description, colour or icon once set |
| TypeRepo.Update | src/repository/event_type_repository.rs:169-207 | a missing id is "<kind> not found"; otherwise exactly the row with that id is merged |
| TypeRepo.Delete | src/repository/event_type_repository.rs:209-219 | removes exactly the type with the id |
| TypeRepo.EventUsage | src/repository/event_type_repository.rs:221-237 | zero exactly when no event refers to the type |
| TypeRepo.AnnouncementUsage | src/repository/announcement_type_repository.rs:223-239 | zero exactly when no announcement refers to the type |
| TypeRepo.MembershipUsage | src/repository/membership_type_repository.rs:237-253 | zero exactly when no member refers to the type |
| TypeRepo.Reorder | src/repository/event_type_repository.rs:250-261 | a listed type gets the position of its last listing as sort order; unlisted types are unchanged |
| TypeRepo.ReorderPositions | src/repository/event_type_repository.rs:250-261 | with distinct ids, the type listed at position j gets sort order j |
| TypeRepo.SeedRow | src/repository/announcement_type_repository.rs:265-304 | a seeded default is active with the default's slug and name and its list index as sort order; only announcement defaults are system types |
| TypeRepo.SeedCovers | src/repository/event_type_repository.rs:263-303 | after seeding, every default's slug is present |
| TypeRepo.SeedNoop | src/repository/event_type_repository.rs:268-271 | when every default's slug is present, seeding writes nothing and returns no rows |
| TypeRepo.SeedDefaultsCovers | src/repository/event_type_repository.rs:263-303 | after a successful seed every default is found by its slug |
| TypeRepo.SeedTwice | src/repository/event_type_repository.rs:263-303 | a second seed right after a successful one changes nothing and returns no rows |
| TypeServices.CheckColor | src/service/event_type_service.rs:36-44 | a supplied colour that is not valid hex is BadRequest; no colour passes |
| TypeServices.CheckMembershipCreate | src/service/membership_type_service.rs:38-63 | passes exactly when the colour is absent or valid, the period parses and the fee is not negative |
| TypeServices.CheckUpdate | src/service/membership_type_service.rs:78-108 | checks the colour, and for membership types the period and fee, only when each is supplied |
| TypeServices.CreateType | src/service/membership_type_service.rs:38-75 | the first failing check is reported before the slug check; an explicit slug already taken is a Conflict; a request that passes reaches the repository unchanged |
| TypeServices.ExplicitSlugStaysUnique | src/service/event_type_service.rs:46-54 | a type created with an explicit slug has a slug no existing type has |
| TypeServices.UpdateType | src/service/event_type_service.rs:60-72 | a failing check is returned without a write; otherwise the repository update runs unchanged |
| TypeServices.UpdateKeepsMembershipValid | src/service/membership_type_service.rs:78-109 | an accepted membership-type update keeps every type's period parseable and fee non-negative |
| TypeServices.DeleteType | src/service/event_type_service.rs:75-97 | succeeds exactly when the type exists, is not a system event type and is unused; a missing type is NotFound; removes exactly that type |
| TypeServices.DeleteLeavesNoDangling | src/service/membership_type_service.rs:112-127 | after a delete no event, announcement or member refers to the removed type |
| TypeServices.SystemAnnouncementTypeDeletable | src/service/announcement_type_service.rs:75-90 | an unused system announcement type can be deleted: there is no system guard for announcements |
| TypeServices.PricingOf | src/domain/configurable_types.rs:131-133 | the pricing copies id, slug and fee, and the dollar amount is the fee over 100 |
| TypeServices.GetPricing | src/service/membership_type_service.rs:140-154 | a missing type is "Membership type not found"; otherwise that type's pricing |
| TypeServices.AllPricing | src/service/membership_type_service.rs:157-173 | one pricing per active type, in list order |
| TypeServices.AllPricingIsActiveTypes | src/service/membership_type_service.rs:157-173 | a type is priced exactly when it is stored and active |
| Settings.ParseInt | src/domain/settings.rs:66-82 | a parsed integer is within the target width and came from text starting with a digit or a sign |
| Settings.ParseIntRoundTrip | src/domain/settings.rs:66-82 | a number written as decimal text parses back to itself exactly when it fits the target width |
| Settings.ParseBool | src/domain/settings.rs:108-111 | only "true" and "false" parse, to the matching value |
| Settings.LastValueIsLast | src/domain/settings.rs:64-86 | the value applied for a key is that of its last occurrence; none exactly when the key is absent |
| Settings.PaymentKeysDistinct | src/domain/settings.rs:65-83 | the six payment keys are pairwise different, so each field has one source |
| Settings.PaymentFieldsFromLastValues | src/domain/settings.rs:54-89 | each payment field is the last value of its key when it parses, and its default otherwise |
| Settings.PaymentDefaults | src/domain/settings.rs:55-62 | with no settings the payment configuration is 5000, 2500, 50000, 100000, 30 and 7 |
| Settings.PaymentIgnoresUnknownKey | src/domain/settings.rs:84 | a setting under any other key leaves the payment configuration unchanged |
| Settings.PaymentUnparsableResets | src/domain/settings.rs:66-68 | an unparsable regular-fee value resets that field to 5000 and touches no other |
| Settings.MembershipFieldsFromLastValues | src/domain/settings.rs:101-124 | each membership field is the last value of its key when it parses, and its default otherwise |
| Settings.MembershipDefaults | src/domain/settings.rs:102-106 | with no settings: no auto-approve, payment required, 12 months |
| Settings.AutoApproveOnlyExactTrue | src/domain/settings.rs:109-111 | a last auto-approve setting enables it exactly when its value is "true" |
| SettingsService.SettingTypeRoundTrip | src/service/settings_service.rs:62-70 | every setting type's name parses back to it, and any other text reads as String |
| SettingsService.ParseSettingType | src/service/settings_service.rs:62-70 | "number", "boolean" and "json" and nothing else give their types; all other text is String |
| SettingsService.GetPaymentConfig | src/service/settings_service.rs:186-189 | each payment field is the last payment row of its key, or that field's default when the row is missing or does not parse |
| SettingsService.GetMembershipConfig | src/service/settings_service.rs:191-194 | each membership field is the last membership row of its key, or that field's default when the row is missing or does not parse |
| SettingsService.RowToSetting | src/service/settings_service.rs:49-60 | a row's key, value, category and sensitivity are kept and its type text is parsed |
| SettingsService.AllRows | src/service/settings_service.rs:90-100 | one setting per row, in order |
| SettingsService.GetSetting | src/service/settings_service.rs:31-47 | a missing key is SettingNotFound; otherwise a stored row with that key |
| SettingsService.ByCategory | src/service/settings_service.rs:72-88 | exactly the settings of the category, each once as stored (same multiset), ordered by key |
| SettingsService.Group | src/service/settings_service.rs:101-130 | cutting a list into runs of one category loses and reorders nothing, and neighbouring groups have different names |
| SettingsService.GroupNamesIncrease | src/service/settings_service.rs:90-131 | grouping a list sorted by category gives strictly increasing group names |
| SettingsService.AllSettings | src/service/settings_service.rs:90-131 | the groups hold exactly the stored settings, each group one category |
| SettingsService.AllSettingsNamesDistinct | src/service/settings_service.rs:90-131 | no category appears as two groups; groups come in category order |
| SettingsService.UpdateSetting | src/service/settings_service.rs:133-184 | a missing key is SettingNotFound with no write; otherwise only that row's value, author and time change, and one audit entry is appended whose old value is "[REDACTED]" for a sensitive setting |
| SettingsService.AuditRedactsOldSensitiveValue | src/service/settings_service.rs:141-146 | the audit entry hides a sensitive old value and records a plain one; the new value is recorded as given |
| SettingsService.GetBool | src/service/settings_service.rs:201-204 | a missing key passes its error on; a value other than "true" or "false" is "Invalid boolean value for <key>" |
| SettingsService.GetNumber | src/service/settings_service.rs:206-209 | a missing key passes its error on; a value that parses as a 64-bit integer n gives n; any other value is "Invalid number value for <key>" |
| SettingsService.UpdateThenGetBool | src/service/settings_service.rs:133-204 | writing a boolean's text reads back that boolean |
| SettingsService.UpdateThenGetNumber | src/service/settings_service.rs:133-209 | writing a 64-bit number's decimal text reads back that number |
| SettingsService.OtherCategoryIgnored | src/service/settings_service.rs:72-88 | a row of another category does not change a category's list |
| SettingsService.ConfigsIgnoreOtherCategories | src/service/settings_service.rs:186-194 | the payment and membership configurations read only their own category |
| SettingsApi.Redact | src/api/handlers/settings.rs:45-52 | a sensitive setting's value is shown as "[REDACTED]"; everything else is unchanged |
| SettingsApi.ListSettings | src/api/handlers/settings.rs:33-63 | the same groups and keys as the service, with no sensitive value shown and plain settings unchanged |
| SettingsApi.GetCategory | src/api/handlers/settings.rs:66-89 | the category's settings in order, with no sensitive value shown |
| SettingsApi.GetOne | src/api/handlers/settings.rs:92-108 | a missing key is SettingNotFound; otherwise the setting, with a sensitive value hidden |
| SettingsApi.Step | src/api/handlers/settings.rs:139-150 | an unknown key in a batch is skipped; a known one is written, answered and audited with the batch's reason |
| SettingsApi.BatchUpdate | src/api/handlers/settings.rs:127-155 | one answer and one audit entry per known key, all with the batch's reason; existing audit entries and the set of keys are kept |
| SettingsApi.BatchOfUnknownKeys | src/api/handlers/settings.rs:139-150 | a batch of unknown keys changes nothing |
| AdminSettings.DisplayWords | src/web/portal/admin/settings.rs:213-227 | display words are non-empty, start without a lower-case letter, and hold no dot, underscore or blank |
| AdminSettings.DisplayNameOfLastSegment | src/web/portal/admin/settings.rs:213-216 | only the part of the key after its last dot names the setting |
| AdminSettings.OneWordDisplayName | src/web/portal/admin/settings.rs:213-227 | a key ending in one plain word is displayed as that word capitalised |
| AdminSettings.SettingToInfo | src/web/portal/admin/settings.rs:211-243 | the key, display name and sensitivity are carried over; a sensitive value is shown empty |
| AdminSettings.SensitiveValueNotShown | src/web/portal/admin/settings.rs:229-233 | a sensitive setting looks the same whatever its value |
| AdminSettings.Shown | src/web/portal/admin/settings.rs:175-209 | a category is shown exactly when it has settings, under its own name and label, with its settings' infos |
| AdminSettings.FetchNames | src/web/portal/admin/settings.rs:175-209 | the shown categories are the known ones that have settings, in their fixed order |
| AdminSettings.PageCategoriesShown | src/web/portal/admin/settings.rs:175-209 | the page lists exactly the known categories that have stored rows |
| AdminSettings.Page | src/web/portal/admin/settings.rs:70-110 | non-admins are denied; an admin sees the stored rows and their categories |
| AdminSettings.UpdatedPage | src/web/portal/admin/settings.rs:135-168 | an unknown key shows the not-found message with no write; a known one shows "Updated '<name>'" and adds one audit entry without reason |
| AdminSettings.AdminUpdate | src/web/portal/admin/settings.rs:112-169 | non-admins are denied; a bad CSRF token shows the error with no write; nothing is written unless the caller is an admin with a valid token |
| EventRepo.ParseEventType | src/repository/event_repository.rs:66-76 | an unknown event type text is "Invalid event type: <text>" |
| EventRepo.EventTypeRoundTrip | src/repository/event_repository.rs:66-87 | every event type survives being written as text and read back |
| EventRepo.ParseEventTypeOnlyNames | src/repository/event_repository.rs:66-87 | a type text parses exactly when it is the stored name of some event type |
| EventRepo.ParseVisibility | src/repository/event_repository.rs:89-96 | an unknown visibility text is "Invalid visibility: <text>" |
| EventRepo.VisibilityRoundTrip | src/repository/event_repository.rs:89-104 | every visibility survives being written as text and read back |
| EventRepo.ParseVisibilityOnlyNames | src/repository/event_repository.rs:89-104 | a visibility text parses exactly when it is the stored name of some visibility |
| EventRepo.ParseAttendance | src/repository/event_repository.rs:375-382 | an unknown attendance text is "Invalid attendance status: <text>" |
| EventRepo.AttendanceRoundTrip | src/repository/event_repository.rs:299-387 | every attendance status survives being written as text and read back |
| EventRepo.FlagToInt | src/repository/event_repository.rs:117 | the RSVP flag is stored as 0 or 1 |
| EventRepo.FlagRoundTrip | src/repository/event_repository.rs:58-117 | a stored RSVP flag reads back as the same boolean |
| EventRepo.Create | src/repository/event_repository.rs:109-152 | a taken id is a Database error; otherwise the event is appended as given, stamped with the current time |
| EventRepo.CreateThenFind | src/repository/event_repository.rs:109-174 | a created event is found by its id |
| EventRepo.List | src/repository/event_repository.rs:176-196 | exactly the rows left after the offset, up to the limit; latest start first; drawn from the stored events; the first page holds the latest-starting events |
| EventRepo.ListPages | src/repository/event_repository.rs:176-196 | a page of a rows and the page of b rows after it make up the page of a+b rows |
| EventRepo.ListUpcoming | src/repository/event_repository.rs:198-221 | the soonest events starting after now, soonest first: as many as the limit when it is below their number, otherwise all of them |
| EventRepo.ListUpcomingComplete | src/repository/event_repository.rs:198-221 | with a negative or large enough limit, every future event is listed |
| EventRepo.ListPublic | src/repository/event_repository.rs:223-244 | exactly the public events, latest first |
| EventRepo.Overwrite | src/repository/event_repository.rs:246-286 | an update keeps id, creator and creation time, stamps the update time and takes every other field from the new value |
| EventRepo.Update | src/repository/event_repository.rs:246-286 | a missing id is "Failed to retrieve updated event"; otherwise exactly the row with that id is overwritten |
| EventRepo.UpdateThenFind | src/repository/event_repository.rs:246-286 | an updated event is found by its id as returned |
| EventRepo.Delete | src/repository/event_repository.rs:288-297 | removes exactly the event with the id |
| EventRepo.Register | src/repository/event_repository.rs:299-318 | a new (event, member) pair gets one Registered row; an existing pair adds no row |
| EventRepo.RegisterUpsert | src/repository/event_repository.rs:299-318 | registering keeps at most one row per pair, and that pair's row is Registered |
| EventRepo.AttendanceOf | src/repository/event_repository.rs:358-387 | none exactly when the member has no row for the event |
| EventRepo.RegisterThenStatus | src/repository/event_repository.rs:299-387 | after registering, the member's status for the event is Registered |
| EventRepo.Cancel | src/repository/event_repository.rs:320-338 | the pair's row becomes Cancelled and nothing else changes |
| EventRepo.CancelWithoutRow | src/repository/event_repository.rs:320-338 | cancelling without a row creates nothing |
| EventRepo.CancelThenStatus | src/repository/event_repository.rs:320-387 | after cancelling, the status is Cancelled if a row existed and none otherwise |
| EventRepo.AttendeeCount | src/repository/event_repository.rs:340-356 | zero exactly when the event has no Registered row |
| EventRepo.RegisterCount | src/repository/event_repository.rs:299-356 | registering adds one attendee unless the member was already registered |
| EventRepo.CancelCount | src/repository/event_repository.rs:320-356 | cancelling removes one attendee exactly when the member was registered |
| EventRepo.RegisteredEventsAsWritten | src/repository/event_repository.rs:389-413 | the query as written succeeds only when the member has no upcoming registration, since the row it reads lacks the image column |
| EventRepo.RegisteredEventsFailure | src/repository/event_repository.rs:393-407 | a member registered for one future event gets an error from the query as written |
| EventRepo.RegisteredEvents | src/repository/event_repository.rs:389-413 | exactly the future events the member is registered for, soonest first |
| EventRepo.RegisterShowsEvent | src/repository/event_repository.rs:299-413 | after registering for a future event, the member's registered events include it |
| EventApi.ListLimit | src/api/handlers/events.rs:60 | 50 by default, a requested limit up to 100 as given, never more than 100 |
| EventApi.List | src/api/handlers/events.rs:55-71 | anonymous callers and public-only requests get the public events; signed-in callers get the upcoming ones under the limit |
| EventApi.ListBounds | src/api/handlers/events.rs:55-71 | anonymous callers see only public events; a signed-in caller sees at most 100 |
| EventApi.NegativeLimitListsAll | src/api/handlers/events.rs:60-67 | a negative limit lists every future event, since the cap only bounds it from above |
| EventApi.Get | src/api/handlers/events.rs:73-100 | a missing event is NotFound; a non-public event is Forbidden to anonymous callers; otherwise the stored event |
| EventApi.NewEvent | src/api/handlers/events.rs:102-127 | the new event is the request's fields, owned by the caller, with no type id or image |
| EventApi.Create | src/api/handlers/events.rs:102-127 | fails exactly when the id is taken; otherwise appends one event holding every field of the request, owned by the caller, with no type id or image, created and updated now |
| EventApi.CreateOwnedByCaller | src/api/handlers/events.rs:102-127 | an event created under a fresh id is stored and owned by the caller |
| EventApi.ApplyUpdate | src/api/handlers/events.rs:147-176 | a supplied field replaces and a missing one keeps; id, creator, type id, image and creation time are kept |
| EventApi.ClearingOptionalFields | src/api/handlers/events.rs:163-168 | an explicit null clears the end time or location, and a missing field keeps it |
| EventApi.OwnedEvent | src/api/handlers/events.rs:136-145 | a missing event is NotFound and one created by someone else is Forbidden |
| EventApi.Update | src/api/handlers/events.rs:129-181 | only the creator may update, and the repository update receives the merged event |
| EventApi.UpdateByCreatorOnly | src/api/handlers/events.rs:129-181 | a successful update was made by the creator and keeps creator, type id and creation time |
| EventApi.Delete | src/api/handlers/events.rs:183-203 | only the creator may delete, with the same errors as for updates |
| EventApi.Register | src/api/handlers/events.rs:205-242 | a missing event is NotFound, an admin-only one Forbidden, one without RSVP answers without a write; otherwise the member is registered |
| EventApi.RegisterIgnoresCapacity | src/api/handlers/events.rs:205-242 | registration succeeds past the maximum number of attendees: capacity is not checked |
| EventApi.Cancel | src/api/handlers/events.rs:244-271 | a missing event is NotFound, one without RSVP answers without a write; otherwise the attendance is cancelled |
| EventApi.RegisterThenCancel | src/api/handlers/events.rs:205-271 | registering then cancelling leaves the member Cancelled and the attendee count as before |
| AdminEvents.Candidates | src/web/portal/admin/events.rs:142-145 | the 1000 stored events that start latest, latest first, or all of them when there are fewer |
| AdminEvents.FilterEvents | src/web/portal/admin/events.rs:149-171 | an event is kept exactly when it is a candidate and passes the text, type, visibility and time filters |
| AdminEvents.UpcomingAndPastPartition | src/web/portal/admin/events.rs:165-169 | the upcoming and past views split the unfiltered view between them; no time filter means upcoming |
| AdminEvents.CandidatesCompleteBelowCap | src/web/portal/admin/events.rs:142-145 | below 1000 stored events every event is a candidate |
| AdminEvents.SortEvents | src/web/portal/admin/events.rs:173-181 | a permutation of the events, ordered by the chosen field and direction |
| AdminEvents.StartTimeOrder | src/web/portal/admin/events.rs:178-180 | the default order is by start time, ascending or descending as asked |
| AdminEvents.RowOf | src/web/portal/admin/events.rs:193-207 | a row is past exactly when its event is not upcoming |
| AdminEvents.ListEvents | src/web/portal/admin/events.rs:92-246 | non-admins get an empty page; otherwise the requested page, the filtered total and at most one page of rows |
| AdminEvents.ListedRowsPassFilter | src/web/portal/admin/events.rs:149-208 | every listed row is a stored event passing all the filters, past or not as the time filter says |
| AdminEvents.FormEventType | src/web/portal/admin/events.rs:472-479 | the form never produces a Hackathon |
| AdminEvents.FormEventTypeRoundTrip | src/web/portal/admin/events.rs:472-479 | every type but Hackathon is read back from its name; any other text becomes Meeting |
| AdminEvents.FormVisibilityRoundTrip | src/web/portal/admin/events.rs:481-486 | every visibility is read back from its name; any other text becomes MembersOnly |
| AdminEvents.ParseI32 | src/web/portal/admin/events.rs:446-450 | a parsed attendee limit fits 32 bits; an empty text parses to nothing |
| AdminEvents.NonEmptyText | src/web/portal/admin/events.rs:510 | an empty location is none, any other is kept |
| AdminEvents.FromForm | src/web/portal/admin/events.rs:472-517 | an unparsable start time fails; otherwise each field comes from the form, with an empty or bad end time giving none |
| AdminEvents.Create | src/web/portal/admin/events.rs:411-523 | non-admins are denied, then an upload error, then a bad start time; otherwise the event is appended with no type id, the uploaded image and the caller as creator |
| AdminEvents.CreateThenFind | src/web/portal/admin/events.rs:411-523 | the created event is found by its id with the parsed start time |
| AdminEvents.ChooseImage | src/web/portal/admin/events.rs:632-639 | a new upload wins; otherwise removal clears the image and else the old one is kept |
| AdminEvents.ChooseImageCases | src/web/portal/admin/events.rs:632-639 | the image changes only through an upload or a removal, and is absent exactly when nothing new was uploaded and it was removed or missing |
| AdminEvents.Update | src/web/portal/admin/events.rs:525-667 | non-admins are denied; a bad id is "Invalid event ID", a missing event "Event not found", then upload and start errors; otherwise every form field is written, an empty end, location or capacity becoming none, the image chosen from upload, removal or the old one, the stored id, type id, creator and creation time kept, and rows of other ids unchanged |
| AdminEvents.UpdatePreserves | src/web/portal/admin/events.rs:525-667 | an update keeps id, type id, creator and creation time and is found by id afterwards |
| AdminEvents.Delete | src/web/portal/admin/events.rs:669-687 | non-admins are denied and a bad id is "Invalid event ID"; otherwise exactly that event is removed |
| AnnouncementRepo.ParseType | src/repository/announcement_repository.rs:50-59 | an unknown type text is "Invalid announcement type: <text>" |
| AnnouncementRepo.TypeRoundTrip | src/repository/announcement_repository.rs:50-69 | every announcement type survives being written as text and read back |
| AnnouncementRepo.ParseTypeOnlyNames | src/repository/announcement_repository.rs:50-69 | a type text parses exactly when it is the stored name of some type |
| AnnouncementRepo.ToRow | src/repository/announcement_repository.rs:77-78 | the public and featured flags are stored as 0 or 1 |
| AnnouncementRepo.FromRow | src/repository/announcement_repository.rs:35-48 | a row decodes exactly when its type text parses, with each flag true when its stored number is not 0 |
| AnnouncementRepo.RowRoundTrip | src/repository/announcement_repository.rs:35-108 | an announcement written as a row reads back as the stored announcement |
| AnnouncementRepo.Create | src/repository/announcement_repository.rs:74-108 | a taken id is a Database error; otherwise the announcement is appended, stamped with the current time |
| AnnouncementRepo.CreateThenFind | src/repository/announcement_repository.rs:74-129 | a created announcement is found by its id |
| AnnouncementRepo.Overwrite | src/repository/announcement_repository.rs:211-243 | an update replaces title, content, type, flags and publication time and keeps id, creator, type id, image and creation time |
| AnnouncementRepo.Update | src/repository/announcement_repository.rs:211-243 | a missing id is "Failed to retrieve updated announcement"; otherwise exactly the row with that id is overwritten |
| AnnouncementRepo.UpdateThenFind | src/repository/announcement_repository.rs:211-243 | an updated announcement is found by its id as returned |
| AnnouncementRepo.UpdateWithImage | src/repository/announcement_repository.rs:211-243 | corrected: as `update`, and the row also takes the record's image; other rows unchanged |
| AnnouncementRepo.UpdateWithImageThenFind | src/repository/announcement_repository.rs:211-243 | after the corrected update the id finds the row returned |
| AnnouncementRepo.OverwriteWithItself | src/repository/announcement_repository.rs:211-243 | writing a row over itself only moves its update time |
| AnnouncementRepo.Delete | src/repository/announcement_repository.rs:245-254 | removes exactly the announcement with the id |
| AnnouncementRepo.List | src/repository/announcement_repository.rs:131-150 | exactly the rows left after the offset, up to the limit; newest created first; drawn from the stored announcements; the first page holds the newest |
| AnnouncementRepo.ListPages | src/repository/announcement_repository.rs:131-150 | a page of a rows and the page of b rows after it make up the page of a+b rows |
| AnnouncementRepo.ListRecent | src/repository/announcement_repository.rs:152-171 | the most recently published announcements, latest first: as many as a non-negative limit below their number, otherwise all of them |
| AnnouncementRepo.ListPublic | src/repository/announcement_repository.rs:173-190 | exactly the public published announcements, latest first |
| AnnouncementRepo.ListFeatured | src/repository/announcement_repository.rs:192-209 | exactly the featured published announcements, latest first |
| AnnouncementRepo.NarrowedListings | src/repository/announcement_repository.rs:152-209 | the public and featured lists are the full recent list narrowed by their flag |
| AnnouncementRepo.UnpublishHides | src/repository/announcement_repository.rs:152-243 | clearing an announcement's publication time removes it from the recent list |
| AnnouncementApi.ListLimit | src/api/handlers/announcements.rs:49 | 20 by default, a requested limit up to 100 as given, never more than 100 |
| AnnouncementApi.List | src/api/handlers/announcements.rs:44-60 | featured requests get the featured list; anonymous or public-only requests the public list; others the recent list under the limit |
| AnnouncementApi.ListShowsPublishedOnly | src/api/handlers/announcements.rs:44-60 | only published announcements are listed, and a featured request shows private featured ones too |
| AnnouncementApi.Get | src/api/handlers/announcements.rs:62-89 | a missing announcement is NotFound; a private one needs a signed-in caller and a draft is shown only to its creator |
| AnnouncementApi.AnonymousReadsPublicPublished | src/api/handlers/announcements.rs:62-89 | an anonymous caller reads exactly the public published announcements |
| AnnouncementApi.NewAnnouncement | src/api/handlers/announcements.rs:91-118 | published now exactly when asked; no image or type id; owned by the caller |
| AnnouncementApi.Create | src/api/handlers/announcements.rs:91-118 | fails exactly when the id is taken; otherwise appends one announcement with the request's text, type and flags, owned by the caller, published now exactly when asked |
| AnnouncementApi.DraftVisibleToCreatorOnly | src/api/handlers/announcements.rs:76-86 | a draft just created is readable by its creator and by no one else |
| AnnouncementApi.ApplyUpdate | src/api/handlers/announcements.rs:138-158 | a supplied field replaces and a missing one keeps; id, creator and creation time are kept |
| AnnouncementApi.Owned | src/api/handlers/announcements.rs:126-136 | a missing announcement is NotFound and one created by someone else is Forbidden |
| AnnouncementApi.Update | src/api/handlers/announcements.rs:120-163 | only the creator may update, and the repository update receives the merged announcement |
| AnnouncementApi.UnpublishMakesDraft | src/api/handlers/announcements.rs:153-156 | clearing the publication time makes the announcement a draft only its creator can read |
| AnnouncementApi.Delete | src/api/handlers/announcements.rs:165-185 | only the creator may delete, with the same errors as for updates |
| AdminAnnouncements.Candidates | src/web/portal/admin/announcements.rs:132-135 | the 1000 most recently created announcements, newest first, or all of them when there are fewer |
| AdminAnnouncements.CandidatesCompleteBelowCap | src/web/portal/admin/announcements.rs:132-135 | with fewer than 1000 announcements, every one is a candidate |
| AdminAnnouncements.FilterAnnouncements | src/web/portal/admin/announcements.rs:137-161 | an announcement is kept exactly when it is a candidate and passes the text, type and status filters |
| AdminAnnouncements.PublishedAndDraftPartition | src/web/portal/admin/announcements.rs:149-158 | the published and draft views split the unfiltered view; an unknown status filters nothing |
| AdminAnnouncements.PublishedAtKeyOrder | src/web/portal/admin/announcements.rs:184-192 | the publication-time key orders a missing time before any present one, as Rust orders options |
| AdminAnnouncements.SortAnnouncements | src/web/portal/admin/announcements.rs:163-203 | a permutation ordered by the chosen field, descending unless "asc" is asked |
| AdminAnnouncements.PublishedSortOrder | src/web/portal/admin/announcements.rs:184-192 | sorted by publication time, drafts first when ascending and last when descending |
| AdminAnnouncements.DefaultNewestFirst | src/web/portal/admin/announcements.rs:193-201 | by default the newest announcement comes first |
| AdminAnnouncements.PreviewAsWritten | src/web/portal/admin/announcements.rs:212-216 | content of at most 100 bytes is shown whole; longer content is cut at byte 100, which panics unless byte 100 starts a character |
| AdminAnnouncements.PreviewPanics | src/web/portal/admin/announcements.rs:212-216 | a 101-byte content whose byte 100 falls inside a two-byte character makes the preview as written panic |
| AdminAnnouncements.Preview | src/web/portal/admin/announcements.rs:212-216 | content of at most 100 bytes is shown whole; longer content is cut after the most whole characters that fit in 100 bytes, then "..." |
| AdminAnnouncements.PreviewAgrees | src/web/portal/admin/announcements.rs:212-216 | wherever the preview as written does not panic, the corrected preview gives the same text |
| AdminAnnouncements.RowOf | src/web/portal/admin/announcements.rs:211-228 | a row is marked published exactly when its announcement is |
| AdminAnnouncements.ListAnnouncements | src/web/portal/admin/announcements.rs:85-266 | non-admins get an empty page; otherwise the requested page, the filtered total and at most one page of rows, each with its preview cut by the corrected character-boundary rule |
| AdminAnnouncements.ListedRowsMatchStatus | src/web/portal/admin/announcements.rs:137-228 | every listed row is a stored announcement matching the status filter, published or draft as asked |
| AdminAnnouncements.Detail | src/web/portal/admin/announcements.rs:292-359 | an admin sees the stored announcement with the id; anyone else is denied |
| AdminAnnouncements.Existing | src/web/portal/admin/announcements.rs:515-526 | non-admins are denied; a bad id is "Invalid announcement ID" and a missing one "Announcement not found" |
| AdminAnnouncements.FormTypeRoundTrip | src/web/portal/admin/announcements.rs:468-475 | every type is read back from its name; any other text becomes General |
| AdminAnnouncements.Create | src/web/portal/admin/announcements.rs:412-503 | non-admins are denied, then an upload error is shown; otherwise the announcement is appended from the form, published now exactly when asked |
| AdminAnnouncements.Update | src/web/portal/admin/announcements.rs:505-615 | the lookup errors, then an upload error; otherwise the row with the id takes the form's fields and the image chosen as upload, else none when removal is ticked, else the old one; other rows unchanged |
| AdminAnnouncements.Edited | src/web/portal/admin/announcements.rs:583-605 | the edited record takes the form's text, type and flags and the chosen image, and keeps the stored publication time, type id, creator and creation time |
| AdminAnnouncements.UpdateAsWritten | src/web/portal/admin/announcements.rs:505-615 | as written: the same errors, and on success the image is the stored one whatever the form says |
| AdminAnnouncements.UploadedImageDropped | src/repository/announcement_repository.rs:211-243 | an administrator's edit of a stored announcement that uploads an image other than the stored one succeeds, and as written returns and stores the old image, not the upload |
| AdminAnnouncements.UpdatePreserves | src/web/portal/admin/announcements.rs:505-615 | an edit takes the form's fields and keeps the publication time, type id, creator and creation time |
| AdminAnnouncements.SetPublished | src/web/portal/admin/announcements.rs:637-695 | publishing sets the publication time and unpublishing clears it, after the same lookup errors |
| AdminAnnouncements.SetPublishedChangesOnlyPublication | src/web/portal/admin/announcements.rs:657-659 | publishing or unpublishing changes only the publication and update times |
| AdminAnnouncements.PublishThenUnpublish | src/web/portal/admin/announcements.rs:637-695 | publishing then unpublishing gives back the announcement as a draft |
| AdminAnnouncements.Delete | src/web/portal/admin/announcements.rs:617-635 | non-admins are denied and a bad id is "Invalid announcement ID"; otherwise exactly that announcement is removed |
| Profile.PasswordCheck | src/web/portal/profile.rs:119-157 | mismatched new passwords are reported first, then a new password under 8 characters, then a wrong or missing current password; passes exactly when all three checks pass |
| Profile.MissingHashIsIncorrectPassword | src/web/portal/profile.rs:138-149 | a member with no stored hash always gets "Current password is incorrect" |
| Profile.SetPasswordHash | src/web/portal/profile.rs:178-182 | only the member's own row gets the new hash and update time |
| Profile.UpdatePassword | src/web/portal/profile.rs:114-196 | a failed check is shown with no write; the hash is written exactly when the checks pass and hashing and the write succeed |
| Profile.PasswordChangeOnlyHash | src/web/portal/profile.rs:178-182 | a password change alters no row but the caller's, and in it nothing but the hash and update time |
| Profile.UpdateProfile | src/web/portal/profile.rs:73-103 | fails exactly when the caller's row is gone; otherwise that row gets the new full name and updated_at now, and every other row is unchanged |
| Uploads.BadTypeListsAllowed | src/web/uploads.rs:43-46 | the rejection message lists the allowed extensions joined by ", " |
| Uploads.UploadExtension | src/web/uploads.rs:36-40 | the extension is the lower-cased text after the last dot, or the whole lower-cased name when there is no dot |
| Uploads.WholeNameExtension | src/web/uploads.rs:36-40 | a name without a dot is its own extension |
| Uploads.SaveUploadedFile | src/web/uploads.rs:25-70 | too large is rejected first, then a disallowed extension, then a failed write; otherwise a new file named by the uuid and lower-cased extension is stored in the uploads directory, and "uploads/<name>" is returned |
| Uploads.SizeBoundary | src/web/uploads.rs:21-33 | exactly 10 MB is accepted and one byte more is rejected |
| Uploads.ExtensionIgnoresCase | src/web/uploads.rs:36-47 | an upload is accepted exactly when its lower-cased extension is allowed, and is stored under the lower-cased extension |
| Uploads.DeleteUploadedFile | src/web/uploads.rs:74-88 | paths outside "uploads/" and missing files are left alone; otherwise the file is removed or the removal error reported |
| Uploads.SaveThenDelete | src/web/uploads.rs:56-88 | with the default uploads directory, deleting the returned path removes exactly the file the save wrote |
| Uploads.DeleteMissesOtherDir | src/web/uploads.rs:56-88 | with any other uploads directory, deleting the returned path leaves the saved file in place |
| Uploads.Traverses | src/web/uploads.rs:136-139 | the guard fires exactly when the name has two adjacent dots, a "/" or a "\" |
| Uploads.IsPrivateImage | src/web/uploads.rs:91-127 | private exactly when a non-public event or a non-public announcement uses "uploads/<name>" as its image, a failed query counting as no use |
| Uploads.PathExtension | src/web/uploads.rs:175 | the extension used for serving is the text after the last dot |
| Uploads.ContentType | src/web/uploads.rs:175-181 | jpg and jpeg are image/jpeg; anything not allowed is application/octet-stream |
| Uploads.ServeUpload | src/web/uploads.rs:130-192 | a traversing name is 400; otherwise 401 exactly when the image is private and no live session is presented, 404 exactly when permitted but not stored, 500 exactly when stored but not openable, and 200 exactly when permitted, stored and openable, with the content type of its extension |
| Uploads.PublicImageIgnoresSession | src/web/uploads.rs:140-157 | serving an image no private event or announcement uses does not depend on the session cookie |
| Uploads.PrivateEventImageNeedsSession | src/web/uploads.rs:91-157 | the image of a non-public event is refused without a session cookie |
| Uploads.FailedLookupsServeEveryone | src/web/uploads.rs:91-157 | when both privacy queries fail, a stored image is sent to anyone |
| Uploads.SaveThenServe | src/web/uploads.rs:56-181 | a public file just saved is served from the same directory with its image type |
| Uploads.StoredUploadServable | src/web/uploads.rs:56-181 | a name the upload step generates passes the traversal guard and is served with its image type |
| Seed.ParseMembershipType | src/bin/seed.rs:148-160 | "student" and "corporate" map to their types, "lifetime" and "founding" to Lifetime, in any case; anything else is Regular |
| Seed.MembershipTypeCaseInsensitive | src/bin/seed.rs:148-160 | the type parse ignores letter case |
| Seed.MembershipTypeRoundTrip | src/bin/seed.rs:148-160 | every membership type's lower-case word parses back to it |
| Seed.ParseMemberStatus | src/bin/seed.rs:162-171 | "active", "expired", "suspended" and "honorary" map to their statuses in any case; anything else is Pending |
| Seed.MemberStatusCaseInsensitive | src/bin/seed.rs:162-171 | the status parse ignores letter case |
| Seed.MemberStatusRoundTrip | src/bin/seed.rs:162-171 | every status's lower-case word parses back to it |
| Seed.UuidPrefix | src/bin/seed.rs:184 | eight lower-case hex digits taken from the uuid |
| Seed.MakePayment | src/bin/seed.rs:174-201 | dated the given days back, paid at that date exactly when Completed, with a "pi_seed_" Stripe id exactly when paid through Stripe |
| Seed.InRange | src/bin/seed.rs:256-286 | a random draw in a range lands within it |
| Seed.InRangeOnto | src/bin/seed.rs:256-286 | every value of a range can be drawn |
| Seed.GenerateMemberConfig | src/bin/seed.rs:255-299 | the roll decides status, type, months and dues exemption: honorary members are exempt, pending ones have no months, the top rolls are lifetime founders |
| Seed.StatusByRoll | src/bin/seed.rs:258-290 | status bands: Active below 70 and from 98, Expired 70-79, Pending 80-87, Suspended 88-92, Honorary 93-97 |
| Seed.PaidMonths | src/bin/seed.rs:718 | at most 24 months of payments, and all of them when there are no more |
| Seed.DefaultDues | src/bin/seed.rs:694-696 | the first membership type's fee, or 5000 when there is none |
| Seed.SeedMemberPayments | src/bin/seed.rs:694-748 | exempt members get no payments; pending ones one pending Stripe payment; others one completed payment per paid month plus a failed one for some expired members, all at the dues amount and in the past |
| Domain.WrapI32 | src/repository/payment_repository.rs:94 | a 64-bit amount cast to 32 bits: in range, congruent modulo 2^32, unchanged when it already fits |
| Ordering.SortBy | src/web/portal/admin/members.rs:152-176 | the shared model of `sort_by`: a permutation of the input, ordered by the key in the chosen direction |
| Ordering.SortByStable | src/web/portal/admin/members.rs:152-176 | the sort is stable: elements with equal keys keep their input order, in either direction |
| Ordering.SortedPrefixRanked | src/repository/event_repository.rs:176-196 | the first rows of the sorted list are ranked: each one may precede every row left out |
| Ordering.SortedPairs | src/web/portal/admin/members.rs:152-176 | in a sorted list every element may precede every later one, not only its neighbour |
| Collections.PageNumber | src/web/portal/admin/members.rs:113 | the page is the requested one when it is at least 1, and 1 otherwise |
| Collections.TotalPages | src/web/portal/admin/members.rs:179 | the page count is the least number of pages that hold the total; zero items give zero pages |
| Collections.Window | src/web/portal/admin/members.rs:115-184 | skipping `offset` and taking `count` gives that slice of the list, shorter only at its end |
| Collections.WindowsJoin | src/repository/event_repository.rs:176-196 | two consecutive windows make up the window of their joint length |
| Collections.SqlLimit | src/repository/event_repository.rs:209 | a SQL LIMIT keeps a prefix of the rows, and a negative limit keeps them all |
| SettingsApi.RunBatch | src/api/handlers/settings.rs:127-155 | the loop over a batch computes the same state as the batch definition and keeps every per-update promise |
| TypeRepo.SeedFrom | src/repository/event_type_repository.rs:263-303 | seeding from a position appends only new rows, each active and stamped now |

## Left out

- HTTP routing, Axum extractors and HTML/HTMX rendering: the handlers are modelled only through the data they read, the checks they make and the status or store they produce. The markup around AdminAnnouncements.Update's upload error is also not modelled.
- SQL text, SQLite itself and the connection pool: each query becomes a function over a sequence of rows. A database failure becomes a flag argument where a modelled operation branches on it. Where the source only passes one on with `?`, the query is taken to succeed; the lines below that start with a member's name say where.
- Argon2 password hashing and verification, SHA-256 and the random number generator: each becomes a parameter. A `Tokens.Digest` is any function that returns 32 bytes. Where a property needs two tokens to hash apart, such as `Csrf.GenerateReplaces`, that is a precondition and not a proved property of SHA-256.
- UUID generation: the fresh id is a parameter. Seed.UuidPrefix takes the id as given.
- Calendar month arithmetic from chrono (`checked_add_months`): it is an abstract function that never moves a date backwards, so results that need exact month lengths are not stated.
- Floating-point values: dollar amounts shown as `{:.2}` text and `f64` settings are not modelled, and money is kept in integer cents.
- TypeServices.PricingOf: `fee_dollars` is `fee_cents as f64 / 100.0` in the source and an exact `real` in the model, so the f64 rounding of that quotient is not modelled.
- MemberService.CreateMember, MemberService.Activate and MemberService.Expire: the lookups and writes they pass on with `?` (member_service.rs lines 26, 31, 35, 46, 58, 69 and 82) are taken to succeed, so these members never fail with `Database`.
- EventApi.List, EventApi.Get, EventApi.Create, EventApi.Update, EventApi.Delete, EventApi.Register and EventApi.Cancel: the repository calls they pass on with `?` are taken to succeed, so these members never fail with `Database`.
- AnnouncementApi.List, AnnouncementApi.Get, AnnouncementApi.Create, AnnouncementApi.Update and AnnouncementApi.Delete: the repository calls they pass on with `?` are taken to succeed, so these members never fail with `Database`.
- SettingsService.GetSetting, SettingsService.UpdateSetting, SettingsService.GetBool and SettingsService.GetNumber: the settings queries they pass on with `?` (settings_service.rs lines 43, 85, 101, 163 and 180) are taken to succeed; the only failure they return is SettingNotFound or a parse error.
- SettingsApi.ListSettings, SettingsApi.GetCategory, SettingsApi.GetOne and SettingsApi.BatchUpdate: the service calls they pass on with `?` are taken to succeed, apart from SettingNotFound.
- TypeServices.CreateType, TypeServices.UpdateType and TypeServices.DeleteType: the `find_by_slug`, `find_by_id` and `count_usage` calls they pass on with `?` are taken to succeed.
- Unicode: lower-casing, `is_alphanumeric` and whitespace trimming are modelled for ASCII characters only.
- Byte lengths: Rust `len()` counts UTF-8 bytes, and the model counts characters everywhere except the announcement preview, where the difference is the point.
- Profile.PasswordCheck: the minimum-length check counts characters, while the source counts bytes. A password of multi-byte characters can therefore pass in the source with fewer characters than the model requires.
- The filesystem: the upload directory is a set of file names. Rust `Path` edge cases, such as absolute components inside a file name, are not modelled beyond the `..` and separator checks.
- Uploads.IsPrivateImage: the two queries read `image_url` of events and of announcements. The announcement repository's insert and its `update` never write that column (see "## Findings"), so only an announcement edited through the corrected `AdminAnnouncements.Update` can make an image private; the lookup itself checks both tables, as the source does.
- The CSRF check of a form is a boolean verdict; the middleware's cookie and form parsing are not modelled.
- `Auth`'s validate, invalidate and cleanup operations delegate to the functions of `Sessions`, so they have no separate members.
- The member repository's `list_expired` query is not modelled. Its filter is the one `MemberService.CheckExpired` states.
- Seed.MembershipTypeRoundTrip and Seed.MemberStatusRoundTrip: the round trips are stated over lower-case words rather than the capitalised names the seeding program prints. Parsing is case-insensitive, so the two differ only in letter case.
- The slugify test vectors "Special!@#$Characters" and "  Multiple   Spaces  " are not restated as constants. The general lemmas `ConfigurableTypes.SlugifySeparated` and `ConfigurableTypes.SlugifyPadded` cover them.
- The Stripe client and the webhook signature check are modelled only through their outcomes: a session id and url, or an error, and a verified event or a rejection.
- Logging, tracing and metrics.
- Login.HandleLogin: a failed session insert panics in the source (`unwrap`); the model returns `Panicked` with the session store unchanged, and what the server sends after a panic is not modelled.
- MemberService.CheckExpired: a failing `list_active` is the `listError` argument, but a database failure inside `expire_member`, which the loop skips with `if let Ok`, has no flag; with unique ids the modelled expiry of a listed due member always succeeds. The integration notification after each expiry is not modelled.
- AdminEvents.ListEvents: a failed attendee count shows 0 in the source (`unwrap_or(0)`); the model counts the attendance rows and has no failure flag here.
- AdminEvents.Update: a failing event lookup shows "Error loading event" in the source; the model's lookup reads the stored events and cannot fail.
- AdminAnnouncements.Existing: a failing announcement lookup shows "Error loading announcement" in the source; the model's lookup reads the stored announcements and cannot fail.
- AdminSettings.Page, AdminSettings.UpdatedPage and AdminSettings.AdminUpdate: the categories come from `get_all_settings().unwrap_or_default()`, so a failed read shows no categories in the source; the model always shows the categories of the stored rows.
- AdminEvents.Candidates: a failed `list(1000, 0)` shows an empty list in the source (`unwrap_or_default`); the model has no failure flag here and always lists the stored events.
- AdminAnnouncements.Candidates: a failed `list(1000, 0)` shows an empty list in the source (`unwrap_or_default`); the model has no failure flag here and always lists the stored announcements.
- MemberRepo.ListActive, EventRepo.List, AnnouncementRepo.List, MemberRepo.List: SQLite leaves the order of rows with equal sort keys open; the model fixes it as the stored order.

The dues boundary is stated as the lemma `PortalPayments.BadgeAgainstAdminList`, not as a finding. The member portal shows Expired when the dues date equals now, while the admin list and the expiry sweep use a strict comparison. Either choice is defensible, so the lemma records the disagreement without correcting it.

## Findings

| source | as written | input that shows it | evidently intended | confidence | as-written member | corrected member |
|---|---|---|---|---|---|---|
| src/web/portal/admin/announcements.rs:212-216 | the list preview slices the content at byte 100 with `&content[..100]` | 99 ASCII characters followed by "é" (2 bytes in UTF-8): byte 100 falls inside that character, so the slice panics and the admin announcements page fails | cut the preview at a character boundary, keeping at most 100 bytes | high, not executed | AdminAnnouncements.PreviewPanics | AdminAnnouncements.PreviewAgrees |
| src/web/templates/setup.rs:154-161 | first-run setup counts as done when any member's notes match `LIKE '%ADMIN%'`, which SQLite compares case-insensitively for ASCII | one member whose notes are "admin": setup is reported complete, yet the case-sensitive `contains("ADMIN")` test in `is_admin` admits nobody, so no administrator exists | setup counts as done exactly when some member passes the admin test | medium, not executed | Access.LikeQueryFindsNonAdmin | Access.AdminGateImpliesAnyAdmin |
| src/repository/event_repository.rs:393-407 | the registered-events SELECT lists the event columns without `image_url`, and rows are decoded into a record that has an `image_url` field | any member with at least one registration for an upcoming event: decoding the row fails, so the query returns an error instead of the events | select `image_url` with the other columns and return the member's upcoming registered events | medium, not executed | EventRepo.RegisteredEventsFailure | EventRepo.RegisterShowsEvent |
| src/repository/announcement_repository.rs:211-243 | the announcement `update` writes title, content, type, flags, publication time and updated_at, and its SET list has no `image_url`, while the admin edit handler (src/web/portal/admin/announcements.rs:583-607) computes the new image and passes it in | an edit of an announcement whose image is "uploads/a.png" that uploads "uploads/b.png": the stored row, and the announcement read back, keep "uploads/a.png" | store the image the handler chose: the upload, else none when removal is ticked, else the old one | medium, not executed | AdminAnnouncements.UploadedImageDropped | AdminAnnouncements.Update |
| src/web/portal/admin/members.rs:790-854 | `admin_create_member` binds the caller as `_current_user` and never calls `is_admin`; the portal routes sit behind only the authentication and CSRF layers (src/web/portal/mod.rs:86-97) | a logged-in non-admin member posts the new-member form with notes "ADMIN": a member is created who passes the admin test | only an administrator may create members, as the admin pages' own `is_admin` checks show | high, not executed | AdminMembers.NonAdminCreatesAdmin | AdminMembers.GatedCreateMember |
| src/web/portal/admin/members.rs:536-586 | `admin_extend_dues` binds the caller as `_current_user` and never calls `is_admin`; the same holds for activate, suspend, update, set-dues, expire-now and the payments list (lines 243, 311, 487, 595, 643, 677) | a logged-in non-admin member posts an extension of 12 months for their own id: the call succeeds and moves their dues date forward | only an administrator may change a member's dues | high, not executed | AdminMembers.NonAdminExtendsOwnDues | AdminMembers.GatedExtendDues |
| src/web/portal/admin/members.rs:567-569 | the dues UPDATE binds the path text `member_id` as received, while the lookup (src/repository/member_repository.rs:151-162) binds the parsed id's canonical text, as `admin_set_dues` and `admin_expire_now` do for their writes (lines 622-624 and 657-659) | an existing member's id posted in upper case, e.g. `/550E8400-E29B-41D4-A716-446655440000/extend-dues`: the member is found, the UPDATE matches no row, and "Dues extended!" is answered | bind the parsed id, so that the reported date is the stored one | medium, not executed | AdminMembers.NonCanonicalIdWritesNothing | AdminMembers.ExtendDuesById |
