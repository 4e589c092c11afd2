/**
 * The admin member pages: the list pipeline (search and filters, sort,
 * pages of 20), initials, the dues actions (extend, set, expire now), the
 * `dues_expired` flag, and the create and update forms. Calendar arithmetic
 * is a parameter: `addMonths`, which may fail (overflow) and otherwise
 * never moves a date backwards.
 */
module AdminMembers {
  import opened Wrappers
  import opened Text
  import opened Errors
  import opened Domain
  import opened Collections
  import opened Ordering
  import opened MemberRepo
  import Access

  const PerPage: nat := 20

  /** How many members the list page loads: `list(1000, 0)`. */
  const ListCap: nat := 1000

  // ---------------------------------------------------------------------------
  // Filtering
  // ---------------------------------------------------------------------------

  datatype ListQuery = ListQuery(q: Option<string>, status: Option<string>, member_type: Option<string>,
                                 sort: Option<string>, order: Option<string>, page: Option<int>)

  /** The lower-cased search text matches the lower-cased name, email or username. */
  predicate SearchMatches(m: Member, needle: string) {
    Contains(Lower(m.full_name), needle) || Contains(Lower(m.email), needle) || Contains(Lower(m.username), needle)
  }

  /** The list filter: each non-empty criterion must hold; the status and type filters compare variant names exactly. */
  predicate Keep(m: Member, needle: string, statusFilter: string, typeFilter: string) {
    && (|needle| == 0 || SearchMatches(m, needle))
    && (|statusFilter| == 0 || StatusToStr(m.status) == statusFilter)
    && (|typeFilter| == 0 || TypeToStr(m.membership_type) == typeFilter)
  }

  /**
   * The rows the page works on: `list(1000, 0)`, the 1000 most recently
   * created members, newest first; a failed query (`listOk` false) reads as
   * no members at all.
   */
  function Candidates(ms: Members, listOk: bool): (r: Members)
    ensures !listOk ==> r == []
    ensures listOk ==> |r| == (if |ms| < ListCap then |ms| else ListCap) && Ranked(ms, r, CreatedKey, true)
    ensures forall m :: m in r ==> m in ms
  {
    if listOk then MemberRepo.List(ms, ListCap, 0) else []
  }

  /** When the table holds no more than the cap and the query succeeds, every member is a candidate. */
  lemma CandidatesCompleteBelowCap(ms: Members, m: Member)
    requires |ms| <= ListCap
    ensures m in Candidates(ms, true) <==> m in ms
  {
    ListCompleteBelowLimit(ms, ListCap, m);
  }

  /** The filter step: the candidates kept, in their order. */
  function FilterMembers(ms: Members, listOk: bool, query: ListQuery): (r: Members)
    ensures forall m :: m in r <==> m in Candidates(ms, listOk)
                                    && Keep(m, Lower(query.q.GetOr("")), query.status.GetOr(""), query.member_type.GetOr(""))
    ensures |r| <= |Candidates(ms, listOk)|
  {
    var needle := Lower(query.q.GetOr(""));
    var st := query.status.GetOr("");
    var ty := query.member_type.GetOr("");
    Filter(Candidates(ms, listOk), (m: Member) => Keep(m, needle, st, ty))
  }

  /** With no search text and no filters every candidate is listed. */
  lemma EmptyQueryKeepsAll(ms: Members, listOk: bool, sort: Option<string>, order: Option<string>, page: Option<int>)
    ensures FilterMembers(ms, listOk, ListQuery(None, None, None, sort, order, page)) == Candidates(ms, listOk)
  {
    assert Lower("") == "";
    FilterAll(Candidates(ms, listOk), (m: Member) => Keep(m, Lower(""), "", ""));
  }

  // ---------------------------------------------------------------------------
  // Sorting
  // ---------------------------------------------------------------------------

  /** The last whitespace-separated word, or "" when there is none. */
  function LastWord(s: string): string {
    var words := Words(s);
    if |words| == 0 then "" else words[|words| - 1]
  }

  /** Set-aside marker between the two parts of a name key: smaller than every character. */
  const Separator: int := -1

  /**
   * The key each sort field compares:
   *  - "name": last word, then whole name, both lower-cased;
   *  - "status" and "type": the variant names;
   *  - "joined": the join date;
   *  - "dues": dated members first by date, then the undated ones;
   *  - anything else: the lower-cased name.
   */
  function SortKey(field: string): Member -> seq<int> {
    (m: Member) =>
      if field == "name" then Codes(Lower(LastWord(m.full_name))) + [Separator] + Codes(Lower(m.full_name))
      else if field == "status" then Codes(StatusToStr(m.status))
      else if field == "type" then Codes(TypeToStr(m.membership_type))
      else if field == "joined" then [m.joined_at]
      else if field == "dues" then DuesKey(m.dues_paid_until)
      else Codes(Lower(m.full_name))
  }

  function DuesKey(dues: Option<Time>): seq<int> {
    match dues
    case Some(d) => [0, d]
    case None => [1]
  }

  /**
   * The dues order: a dated member precedes an undated one, two dated
   * members go by date, two undated ones tie.
   */
  predicate DuesBefore(a: Option<Time>, b: Option<Time>) {
    match (a, b)
    case (Some(x), Some(y)) => x <= y
    case (Some(_), None) => true
    case (None, Some(_)) => false
    case (None, None) => true
  }

  /** The dues key orders exactly as the dues comparison of the source. */
  lemma DuesKeyOrder(a: Option<Time>, b: Option<Time>)
    ensures LexCmp(DuesKey(a), DuesKey(b)) <= 0 <==> DuesBefore(a, b)
  {
    if a.Some? && b.Some? {
      assert DuesKey(a)[1..] == [a.value] && DuesKey(b)[1..] == [b.value];
      assert LexCmp([a.value], [b.value]) == LexCmp([], []) || a.value != b.value;
    }
  }

  /** Sort direction: descending only for exactly "desc". */
  function Descending(order: Option<string>): bool {
    order == Some("desc")
  }

  function SortMembers(ms: Members, query: ListQuery): (r: Members)
    ensures multiset(r) == multiset(ms) && |r| == |ms|
    ensures Sorted(r, SortKey(query.sort.GetOr("name")), Descending(query.order))
  {
    SortBy(ms, SortKey(query.sort.GetOr("name")), Descending(query.order))
  }

  /**
   * Sorting by dues ascending: every dated member precedes every undated one
   * and dates never decrease; with "desc" the whole comparison is reversed.
   */
  lemma DuesSortOrder(ms: Members, query: ListQuery, i: int, j: int)
    requires query.sort == Some("dues")
    requires 0 <= i < j < |SortMembers(ms, query)|
    ensures var r := SortMembers(ms, query);
            if Descending(query.order) then DuesBefore(r[j].dues_paid_until, r[i].dues_paid_until)
            else DuesBefore(r[i].dues_paid_until, r[j].dues_paid_until)
  {
    var r := SortMembers(ms, query);
    SortedPairs(r, SortKey("dues"), Descending(query.order), i, j);
    DuesKeyOrder(r[i].dues_paid_until, r[j].dues_paid_until);
    DuesKeyOrder(r[j].dues_paid_until, r[i].dues_paid_until);
  }

  // ---------------------------------------------------------------------------
  // Pages
  // ---------------------------------------------------------------------------

  datatype ListPage = ListPage(rows: Members, page: int, total: nat, total_pages: nat)

  /**
   * Page `max(1, page or 1)` of 20 rows of an already sorted list (the rows
   * from offset `(page - 1) * 20` on), with the page count rounded up.
   */
  function Paginate(sorted: Members, requested: Option<int>): (r: ListPage)
    ensures PageOf(r, sorted)
    ensures requested.Some? && requested.value >= 1 ==> r.page == requested.value
  {
    var page := PageNumber(requested.GetOr(1));
    PageWindow(sorted, page);
    ListPage(Window(sorted, PageOffset(page), PerPage), page, |sorted|, TotalPages(|sorted|, PerPage))
  }

  /**
   * `r` is a page of `sorted`: page numbers start at 1, the totals count
   * all of `sorted`, and the rows are the 20 (or fewer, at the end) that
   * follow the page's offset, in order.
   */
  predicate PageOf(r: ListPage, sorted: Members) {
    && r.page >= 1
    && r.total == |sorted|
    && r.total_pages == TotalPages(r.total, PerPage)
    && var offset := PageOffset(r.page);
       && |r.rows| == (if offset >= r.total then 0 else if offset + PerPage <= r.total then PerPage else r.total - offset)
       && forall k :: 0 <= k < |r.rows| ==> offset + k < |sorted| && r.rows[k] == sorted[offset + k]
  }

  /** `admin_members_page`: filter, sort, then show the requested page of 20. */
  function ListMembers(ms: Members, listOk: bool, query: ListQuery): (r: ListPage)
    ensures PageOf(r, SortMembers(FilterMembers(ms, listOk, query), query))
    ensures r.total == |FilterMembers(ms, listOk, query)|
    ensures query.page.Some? && query.page.value >= 1 ==> r.page == query.page.value
  {
    var filtered := FilterMembers(ms, listOk, query);
    var sorted := SortMembers(filtered, query);
    Paginate(sorted, query.page)
  }

  /** What a non-admin caller is shown: no rows, page 1, nothing counted. */
  const EmptyPage := ListPage([], 1, 0, 0)

  /**
   * `admin_members_page` with its gate: a caller who is not an admin gets
   * the empty page; an admin gets the filtered, sorted page.
   */
  function MembersPage(caller: Member, ms: Members, listOk: bool, query: ListQuery): (r: ListPage)
    ensures !Access.IsAdmin(caller) ==> r == EmptyPage
    ensures Access.IsAdmin(caller) ==> PageOf(r, SortMembers(FilterMembers(ms, listOk, query), query))
    ensures Access.IsAdmin(caller) ==> r.total == |FilterMembers(ms, listOk, query)|
  {
    if !Access.IsAdmin(caller) then EmptyPage else ListMembers(ms, listOk, query)
  }

  /** The offset of page `page`: `(page - 1) * 20` rows are skipped. */
  function PageOffset(page: int): nat
    requires page >= 1
  {
    (page - 1) * PerPage
  }

  /** The window of page `page`: the rows from its offset on, a full page or as many as remain. */
  lemma PageWindow(sorted: Members, page: int)
    requires page >= 1
    ensures var offset, rows := PageOffset(page), Window(sorted, PageOffset(page), PerPage);
            && |rows| == (if offset >= |sorted| then 0 else if offset + PerPage <= |sorted| then PerPage else |sorted| - offset)
            && forall k :: 0 <= k < |rows| ==> offset + k < |sorted| && rows[k] == sorted[offset + k]
  {
  }

  /** Every row shown is a member of the table that passes the filter. */
  lemma ListedRowsPassFilter(ms: Members, listOk: bool, query: ListQuery, k: nat)
    requires k < |ListMembers(ms, listOk, query).rows|
    ensures var row := ListMembers(ms, listOk, query).rows[k];
            row in ms && Keep(row, Lower(query.q.GetOr("")), query.status.GetOr(""), query.member_type.GetOr(""))
  {
    var sorted := SortMembers(FilterMembers(ms, listOk, query), query);
    var idx := ListedRowIndex(ms, listOk, query, k);
    PermutationKeepsElements(FilterMembers(ms, listOk, query), sorted, idx);
    KeptMember(ms, listOk, query, sorted[idx]);
  }

  /** Where a listed row sits in the sorted list. */
  lemma ListedRowIndex(ms: Members, listOk: bool, query: ListQuery, k: nat) returns (idx: nat)
    requires k < |ListMembers(ms, listOk, query).rows|
    ensures var sorted := SortMembers(FilterMembers(ms, listOk, query), query);
            idx < |sorted| && ListMembers(ms, listOk, query).rows[k] == sorted[idx]
  {
    var r := ListMembers(ms, listOk, query);
    idx := PageRow(r, SortMembers(FilterMembers(ms, listOk, query), query), k);
  }

  /** Row `k` of a page of `sorted` is the row at the page's offset plus `k`. */
  lemma PageRow(r: ListPage, sorted: Members, k: nat) returns (idx: nat)
    requires PageOf(r, sorted) && k < |r.rows|
    ensures idx == PageOffset(r.page) + k && idx < |sorted| && r.rows[k] == sorted[idx]
  {
    idx := PageOffset(r.page) + k;
  }


  lemma KeptMember(ms: Members, listOk: bool, query: ListQuery, m: Member)
    requires m in FilterMembers(ms, listOk, query)
    ensures m in ms && Keep(m, Lower(query.q.GetOr("")), query.status.GetOr(""), query.member_type.GetOr(""))
  {
  }

  // ---------------------------------------------------------------------------
  // Initials and dues
  // ---------------------------------------------------------------------------

  /**
   * Initials: the first characters of the first two words, upper-cased, or
   * "?" when the name has no words.
   */
  function Initials(fullName: string): (r: string)
    ensures |Words(fullName)| == 0 ==> r == "?"
    ensures |Words(fullName)| == 1 ==> r == [UpperChar(Words(fullName)[0][0])]
    ensures |Words(fullName)| >= 2 ==> r == [UpperChar(Words(fullName)[0][0]), UpperChar(Words(fullName)[1][0])]
  {
    var words := Words(fullName);
    if |words| == 0 then "?"
    else if |words| == 1 then [UpperChar(words[0][0])]
    else [UpperChar(words[0][0]), UpperChar(words[1][0])]
  }

  /** `dues_expired`: the dues date is before now, and a member with no date counts as expired. */
  function DuesExpired(m: Member, now: Time): (expired: bool)
    ensures m.dues_paid_until.None? ==> expired
    ensures m.dues_paid_until.Some? ==> (expired <==> m.dues_paid_until.value < now)
  {
    match m.dues_paid_until
    case None => true
    case Some(d) => d < now
  }

  /** Calendar month addition: None on overflow; a result never lies before its base. */
  type AddMonths = (Time, nat) -> Option<Time>

  ghost predicate NeverBackwards(addMonths: AddMonths) {
    forall t, n :: addMonths(t, n).Some? ==> addMonths(t, n).value >= t
  }

  /** Rust's `months as u32` on an i32: negative counts wrap around to large ones. */
  function AsU32(months: int): (r: nat)
    requires I32Min <= months <= I32Max
    ensures months >= 0 ==> r == months
    ensures months < 0 ==> r == months + 0x1_0000_0000
  {
    if months < 0 then months + 0x1_0000_0000 else months
  }

  /** The date an extension counts from: current dues if still in the future, otherwise now. */
  function ExtensionBase(m: Member, now: Time): (base: Time)
    ensures base >= now
    ensures m.dues_paid_until.Some? && m.dues_paid_until.value > now ==> base == m.dues_paid_until.value
    ensures !(m.dues_paid_until.Some? && m.dues_paid_until.value > now) ==> base == now
  {
    match m.dues_paid_until
    case Some(d) => if d > now then d else now
    case None => now
  }

  /**
   * `admin_extend_dues`: the new dues date is `months` calendar months after
   * the base, or the base itself when that addition overflows.
   */
  function ExtendDues(m: Member, months: int, now: Time, addMonths: AddMonths): (newDues: Time)
    requires I32Min <= months <= I32Max
    requires NeverBackwards(addMonths)
    ensures newDues >= ExtensionBase(m, now) >= now
    ensures addMonths(ExtensionBase(m, now), AsU32(months)).None? ==> newDues == ExtensionBase(m, now)
    ensures addMonths(ExtensionBase(m, now), AsU32(months)).Some? ==>
              newDues == addMonths(ExtensionBase(m, now), AsU32(months)).value
  {
    var base := ExtensionBase(m, now);
    addMonths(base, AsU32(months)).GetOr(base)
  }

  /** After an extension the member is never shown as expired at that moment, and dues never shrink. */
  lemma ExtendDuesNotExpired(m: Member, months: int, now: Time, addMonths: AddMonths)
    requires I32Min <= months <= I32Max
    requires NeverBackwards(addMonths)
    ensures !DuesExpired(m.(dues_paid_until := Some(ExtendDues(m, months, now, addMonths))), now)
    ensures m.dues_paid_until.Some? && m.dues_paid_until.value > now ==>
              ExtendDues(m, months, now, addMonths) >= m.dues_paid_until.value
  {
  }

  /**
   * `admin_extend_dues` with its write bound to the parsed id, as
   * `admin_set_dues` and `admin_expire_now` bind theirs. An id that does not
   * parse (`memberId` None), a member that cannot be loaded (missing, or the
   * lookup fails: `findOk` false) and a failed write each give their
   * message; otherwise every row with the id gets the new dues date and
   * `updated_at` now.
   */
  function ExtendDuesById(ms: Members, memberId: Option<Id>, months: int, now: Time,
                          addMonths: AddMonths, findOk: bool, writeError: Option<string>)
    : (r: Result<(Members, Time), string>)
    requires I32Min <= months <= I32Max
    requires NeverBackwards(addMonths)
    ensures memberId.None? ==> r == Failure("Invalid member ID")
    ensures memberId.Some? && (!findOk || FindById(ms, memberId.value).None?) ==> r == Failure("Member not found")
    ensures memberId.Some? && findOk && FindById(ms, memberId.value).Some? && writeError.Some? ==>
              r == Failure("Error: " + writeError.value)
    ensures r.Success? <==> memberId.Some? && findOk && FindById(ms, memberId.value).Some? && writeError.None?
    ensures r.Success? ==> r.value.1 == ExtendDues(FindById(ms, memberId.value).value, months, now, addMonths)
    ensures r.Success? ==> |r.value.0| == |ms| && forall i :: 0 <= i < |ms| ==>
              r.value.0[i] == if ms[i].id == memberId.value
                              then ms[i].(dues_paid_until := Some(r.value.1), updated_at := now) else ms[i]
  {
    match memberId
    case None => Failure("Invalid member ID")
    case Some(id) =>
      var found := FindById(ms, id);
      if !findOk || found.None? then Failure("Member not found")
      else
        var newDues := ExtendDues(found.value, months, now, addMonths);
        if writeError.Some? then Failure("Error: " + writeError.value)
        else Success((UpdateWhere(ms, id, (row: Member) => row.(dues_paid_until := Some(newDues), updated_at := now)), newDues))
  }

  /** With the write bound to the parsed id, the date reported is the one stored for the member. */
  lemma ExtendDuesByIdStores(ms: Members, id: Id, months: int, now: Time, addMonths: AddMonths,
                             findOk: bool, writeError: Option<string>)
    requires I32Min <= months <= I32Max
    requires NeverBackwards(addMonths)
    ensures var r := ExtendDuesById(ms, Some(id), months, now, addMonths, findOk, writeError);
            r.Success? ==> FindById(r.value.0, id).Some? && FindById(r.value.0, id).value.dues_paid_until == Some(r.value.1)
  {
  }


  /**
   * `admin_extend_dues` as routed. The caller is bound but never consulted.
   * The lookup binds the parsed id, while the UPDATE binds the path text as
   * received: `canonical` says whether that text spells the id as it is
   * stored (lower-case and hyphenated). Any other spelling the uuid parser
   * accepts (upper-case, simple, braced, urn) finds the member, matches no
   * row in the UPDATE, and is still answered as a success.
   */
  function ExtendDuesHandler(caller: Member, ms: Members, memberId: Option<Id>, canonical: bool, months: int, now: Time,
                             addMonths: AddMonths, findOk: bool, writeError: Option<string>)
    : (r: Result<(Members, Time), string>)
    requires I32Min <= months <= I32Max
    requires NeverBackwards(addMonths)
    ensures memberId.None? ==> r == Failure("Invalid member ID")
    ensures memberId.Some? && (!findOk || FindById(ms, memberId.value).None?) ==> r == Failure("Member not found")
    ensures memberId.Some? && findOk && FindById(ms, memberId.value).Some? && writeError.Some? ==>
              r == Failure("Error: " + writeError.value)
    ensures r.Success? <==> memberId.Some? && findOk && FindById(ms, memberId.value).Some? && writeError.None?
    ensures r.Success? ==> r.value.1 == ExtendDues(FindById(ms, memberId.value).value, months, now, addMonths)
    ensures r.Success? && canonical ==> |r.value.0| == |ms| && forall i :: 0 <= i < |ms| ==>
              r.value.0[i] == if ms[i].id == memberId.value
                              then ms[i].(dues_paid_until := Some(r.value.1), updated_at := now) else ms[i]
    ensures r.Success? && !canonical ==> r.value.0 == ms
  {
    match ExtendDuesById(ms, memberId, months, now, addMonths, findOk, writeError)
    case Failure(e) => Failure(e)
    case Success((after, newDues)) => Success((if canonical then after else ms, newDues))
  }

  /**
   * A path spelling the member's id other than as stored: the handler
   * reports the extended date, yet the member's stored dues are not that
   * date, because nothing was written.
   */
  lemma NonCanonicalIdWritesNothing(caller: Member, ms: Members, id: Id, months: int, now: Time, addMonths: AddMonths)
    requires I32Min <= months <= I32Max && NeverBackwards(addMonths)
    requires FindById(ms, id).Some?
    requires FindById(ms, id).value.dues_paid_until != Some(ExtendDues(FindById(ms, id).value, months, now, addMonths))
    ensures var r := ExtendDuesHandler(caller, ms, Some(id), false, months, now, addMonths, true, None);
            r.Success? && r.value.0 == ms && FindById(r.value.0, id).value.dues_paid_until != Some(r.value.1)
  {
  }

  /** A member whose dues were never set, extended through a non-canonical path, still has no dues. */
  lemma NonCanonicalLeavesDuesUnset(caller: Member, ms: Members, id: Id, months: int, now: Time, addMonths: AddMonths)
    requires I32Min <= months <= I32Max && NeverBackwards(addMonths)
    requires FindById(ms, id).Some? && FindById(ms, id).value.dues_paid_until.None?
    ensures var r := ExtendDuesHandler(caller, ms, Some(id), false, months, now, addMonths, true, None);
            r.Success? && FindById(r.value.0, id).value.dues_paid_until.None?
  {
    NonCanonicalIdWritesNothing(caller, ms, id, months, now, addMonths);
  }

  /** With the path spelled as stored, the handler is the corrected one. */
  lemma CanonicalPathAgrees(caller: Member, ms: Members, memberId: Option<Id>, months: int, now: Time,
                            addMonths: AddMonths, findOk: bool, writeError: Option<string>)
    requires I32Min <= months <= I32Max && NeverBackwards(addMonths)
    ensures ExtendDuesHandler(caller, ms, memberId, true, months, now, addMonths, findOk, writeError)
            == ExtendDuesById(ms, memberId, months, now, addMonths, findOk, writeError)
  {
  }

  /**
   * The handler never looks at the caller: a member without admin rights
   * who posts their own id extends their own dues, to a date they are not
   * expired at.
   */
  lemma NonAdminExtendsOwnDues(caller: Member, ms: Members, months: int, now: Time, addMonths: AddMonths)
    requires !Access.IsAdmin(caller) && caller in ms
    requires I32Min <= months <= I32Max && NeverBackwards(addMonths)
    ensures var r := ExtendDuesHandler(caller, ms, Some(caller.id), true, months, now, addMonths, true, None);
            r.Success? && r.value.1 >= now
  {
    var i :| 0 <= i < |ms| && ms[i] == caller;
    assert ms[i].id == caller.id;
  }

  /** The message a non-admin caller gets from a gated member action. */
  const AccessDenied := "Access denied"

  /**
   * `admin_extend_dues` corrected: the admin check the member pages apply,
   * and the write bound to the parsed id. A non-admin caller is refused and
   * nothing is written.
   */
  function GatedExtendDues(caller: Member, ms: Members, memberId: Option<Id>, months: int, now: Time,
                           addMonths: AddMonths, findOk: bool, writeError: Option<string>)
    : (r: Result<(Members, Time), string>)
    requires I32Min <= months <= I32Max
    requires NeverBackwards(addMonths)
    ensures !Access.IsAdmin(caller) ==> r == Failure(AccessDenied)
    ensures r.Success? ==> Access.IsAdmin(caller)
    ensures Access.IsAdmin(caller) ==> r == ExtendDuesById(ms, memberId, months, now, addMonths, findOk, writeError)
  {
    if !Access.IsAdmin(caller) then Failure(AccessDenied)
    else ExtendDuesById(ms, memberId, months, now, addMonths, findOk, writeError)
  }

  /** `admin_set_dues`: a calendar day (days since the epoch) becomes its last second, 23:59:59. */
  function EndOfDay(day: int): (t: Time)
    ensures t / SecondsPerDay == day && t % SecondsPerDay == SecondsPerDay - 1
  {
    day * SecondsPerDay + SecondsPerDay - 1
  }

  /** `admin_expire_now`: dues are set to one day before now, so they read as expired at once. */
  function ExpireNowDues(now: Time): (t: Time)
    ensures t < now
  {
    now - SecondsPerDay
  }

  lemma ExpireNowShowsExpired(m: Member, now: Time)
    ensures DuesExpired(m.(dues_paid_until := Some(ExpireNowDues(now))), now)
  {
  }

  // ---------------------------------------------------------------------------
  // Forms
  // ---------------------------------------------------------------------------

  /** The form's membership type: the four exact names; anything else is Regular. */
  function FormType(s: string): (t: MembershipType)
    ensures ParseType(s).Success? ==> t == ParseType(s).value
    ensures ParseType(s).Failure? ==> t == Regular
  {
    if s == "Regular" then Regular
    else if s == "Student" then Student
    else if s == "Corporate" then Corporate
    else if s == "Lifetime" then Lifetime
    else Regular
  }

  /** The form's status: Active, Expired, Suspended or Honorary; anything else (including "Pending") is no change. */
  function FormStatus(s: string): (st: Option<MemberStatus>)
    ensures st.Some? <==> ParseStatus(s).Success? && s != "Pending"
    ensures st.Some? ==> st.value == ParseStatus(s).value
  {
    if s == "Active" then Some(Active)
    else if s == "Expired" then Some(Expired)
    else if s == "Suspended" then Some(Suspended)
    else if s == "Honorary" then Some(Honorary)
    else None
  }

  datatype CreateForm = CreateForm(email: string, username: string, full_name: string, password: string,
                                   membership_type: string, status: string, notes: Option<string>)

  /**
   * `admin_create_member` as routed: the caller is bound but never
   * consulted. The repository insert may fail; after it, status and notes
   * are written by a second update only when the form supplies either. That
   * update's result is discarded: when it fails (`updateOk` false) the
   * member stays as inserted, Pending and without notes, and the handler
   * still succeeds.
   */
  function AdminCreateMember(caller: Member, ms: Members, form: CreateForm, id: Id, now: Time, passwordHash: string,
                             insertError: Option<AppError>, updateOk: bool)
    : (r: Result<(Members, Member), AppError>)
    requires forall i :: 0 <= i < |ms| ==> ms[i].id != id
    ensures r.Failure? <==> insertError.Some?
    ensures r.Failure? ==> r.error == insertError.value
    ensures r.Success? ==> r.value.1.id == id && r.value.1.membership_type == FormType(form.membership_type)
    ensures r.Success? && updateOk ==> r.value.1.status == FormStatus(form.status).GetOr(MemberStatus.Pending)
    ensures r.Success? && updateOk ==> r.value.1.notes == form.notes
    ensures r.Success? && !updateOk ==> r.value.1.status == MemberStatus.Pending && r.value.1.notes.None?
    ensures r.Success? ==> |r.value.0| == |ms| + 1 && r.value.0[..|ms|] == ms && r.value.0[|ms|] == r.value.1
  {
    if insertError.Some? then Failure(insertError.value)
    else
      var req := CreateMemberRequest(form.email, form.username, form.full_name, form.password, FormType(form.membership_type));
      var (created, m) := Create(ms, req, id, now, passwordHash);
      var st := FormStatus(form.status);
      if (st.None? && form.notes.None?) || !updateOk then Success((created, m))
      else
        CreateThenFind(ms, req, id, now, passwordHash);
        var u := Update(created, id, NoChanges.(status := st, notes := form.notes), now);
        Success(u.value)
  }

  /** "Pending", or any unknown status, leaves a freshly created member Pending, whether or not the update runs. */
  lemma CreatePendingByDefault(caller: Member, ms: Members, form: CreateForm, id: Id, now: Time, passwordHash: string,
                               updateOk: bool)
    requires forall i :: 0 <= i < |ms| ==> ms[i].id != id
    requires FormStatus(form.status).None?
    ensures AdminCreateMember(caller, ms, form, id, now, passwordHash, None, updateOk).value.1.status == MemberStatus.Pending
  {
  }

  /**
   * The handler never looks at the caller: a member without admin rights
   * can create a member whose notes read "ADMIN", and that member is an
   * admin.
   */
  lemma NonAdminCreatesAdmin(caller: Member, ms: Members, form: CreateForm, id: Id, now: Time, passwordHash: string)
    requires !Access.IsAdmin(caller)
    requires forall i :: 0 <= i < |ms| ==> ms[i].id != id
    requires form.notes == Some("ADMIN")
    ensures var r := AdminCreateMember(caller, ms, form, id, now, passwordHash, None, true);
            r.Success? && Access.IsAdmin(r.value.1) && r.value.0[|ms|] == r.value.1
  {
    assert StartsWith("ADMIN", "ADMIN");
  }

  /**
   * `admin_create_member` with the admin check the member pages apply: a
   * non-admin caller is refused with 403 and no member is created.
   */
  function GatedCreateMember(caller: Member, ms: Members, form: CreateForm, id: Id, now: Time, passwordHash: string,
                             insertError: Option<AppError>, updateOk: bool)
    : (r: Result<(Members, Member), AppError>)
    requires forall i :: 0 <= i < |ms| ==> ms[i].id != id
    ensures !Access.IsAdmin(caller) ==> r == Failure(Forbidden)
    ensures r.Success? ==> Access.IsAdmin(caller)
    ensures Access.IsAdmin(caller) ==> r == AdminCreateMember(caller, ms, form, id, now, passwordHash, insertError, updateOk)
  {
    if !Access.IsAdmin(caller) then Failure(Forbidden)
    else AdminCreateMember(caller, ms, form, id, now, passwordHash, insertError, updateOk)
  }

  datatype UpdateForm = UpdateForm(full_name: string, membership_type: string, notes: Option<string>, bypass_dues: Option<string>)

  /**
   * `admin_update_member`: full name, type, notes (an absent field becomes
   * "") and the bypass checkbox (present means on) are all written.
   */
  function AdminUpdateRequest(form: UpdateForm): (u: UpdateMemberRequest)
    ensures u.full_name == Some(form.full_name) && u.membership_type == Some(FormType(form.membership_type))
    ensures u.notes == Some(form.notes.GetOr("")) && u.bypass_dues == Some(form.bypass_dues.Some?)
    ensures u.status.None? && u.expires_at.None?
  {
    NoChanges.(full_name := Some(form.full_name), membership_type := Some(FormType(form.membership_type)),
               notes := Some(form.notes.GetOr("")), bypass_dues := Some(form.bypass_dues.Some?))
  }

  /**
   * Saving the admin form without notes replaces an admin's marker with "",
   * so a member can lose admin rights through this form.
   */
  lemma FormWithoutNotesClearsNotes(m: Member, form: UpdateForm, now: Time)
    requires form.notes.None?
    ensures Merge(m, AdminUpdateRequest(form), now).notes == Some("")
  {
  }
}
