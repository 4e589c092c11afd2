/**
 * The member table: the status and membership-type text codecs, `create`
 * with its defaults, lookups, the COALESCE-style `update` merge and
 * `delete`. The table is a sequence of rows; password hashing is a
 * parameter (the hash string the caller computed).
 */
module MemberRepo {
  import opened Wrappers
  import opened Errors
  import opened Domain
  import opened Collections
  import opened Ordering

  type Members = seq<Member>

  // ---------------------------------------------------------------------------
  // Codecs
  // ---------------------------------------------------------------------------

  function StatusToStr(s: MemberStatus): string {
    match s
    case Pending => "Pending"
    case Active => "Active"
    case Expired => "Expired"
    case Suspended => "Suspended"
    case Honorary => "Honorary"
  }

  /** `parse_member_status`: exact names only; anything else is a Database error. */
  function ParseStatus(s: string): (r: Result<MemberStatus, AppError>)
    ensures r.Failure? ==> r.error.Database?
  {
    if s == "Pending" then Success(MemberStatus.Pending)
    else if s == "Active" then Success(Active)
    else if s == "Expired" then Success(Expired)
    else if s == "Suspended" then Success(Suspended)
    else if s == "Honorary" then Success(Honorary)
    else Failure(Database("Invalid member status: " + s))
  }

  lemma StatusRoundTrip(s: MemberStatus)
    ensures ParseStatus(StatusToStr(s)) == Success(s)
  {
  }

  /** Only the five rendered names parse. */
  lemma ParseStatusOnlyNames(text: string)
    ensures ParseStatus(text).Success? <==> exists s: MemberStatus :: StatusToStr(s) == text
  {
    if ParseStatus(text).Success? {
      StatusRoundTrip(ParseStatus(text).value);
    }
  }

  function TypeToStr(t: MembershipType): string {
    match t
    case Regular => "Regular"
    case Student => "Student"
    case Corporate => "Corporate"
    case Lifetime => "Lifetime"
  }

  /** `parse_membership_type`: exact names only; anything else is a Database error. */
  function ParseType(s: string): (r: Result<MembershipType, AppError>)
    ensures r.Failure? ==> r.error.Database?
  {
    if s == "Regular" then Success(Regular)
    else if s == "Student" then Success(Student)
    else if s == "Corporate" then Success(Corporate)
    else if s == "Lifetime" then Success(Lifetime)
    else Failure(Database("Invalid membership type: " + s))
  }

  lemma TypeRoundTrip(t: MembershipType)
    ensures ParseType(TypeToStr(t)) == Success(t)
  {
  }

  lemma ParseTypeOnlyNames(text: string)
    ensures ParseType(text).Success? <==> exists t: MembershipType :: TypeToStr(t) == text
  {
    if ParseType(text).Success? {
      TypeRoundTrip(ParseType(text).value);
    }
  }

  // ---------------------------------------------------------------------------
  // Lookups
  // ---------------------------------------------------------------------------

  /** `find_by_id`: a row with the id, if there is one. */
  function FindById(ms: Members, id: Id): (r: Option<Member>)
    ensures r.Some? ==> r.value in ms && r.value.id == id
    ensures r.None? <==> forall i :: 0 <= i < |ms| ==> ms[i].id != id
  {
    FindFirst(ms, (m: Member) => m.id == id)
  }

  /** `find_by_email`: a row with exactly that email, if there is one. */
  function FindByEmail(ms: Members, email: string): (r: Option<Member>)
    ensures r.Some? ==> r.value in ms && r.value.email == email
    ensures r.None? <==> forall i :: 0 <= i < |ms| ==> ms[i].email != email
  {
    FindFirst(ms, (m: Member) => m.email == email)
  }

  /** `find_by_username`: a row with exactly that username, if there is one. */
  function FindByUsername(ms: Members, username: string): (r: Option<Member>)
    ensures r.Some? ==> r.value in ms && r.value.username == username
    ensures r.None? <==> forall i :: 0 <= i < |ms| ==> ms[i].username != username
  {
    FindFirst(ms, (m: Member) => m.username == username)
  }

  function CreatedKey(m: Member): seq<int> {
    [m.created_at]
  }

  /**
   * `list(limit, offset)`: the members newest created first, skipping
   * `offset` of them and keeping at most `limit`.
   */
  function List(ms: Members, limit: nat, offset: nat): (r: Members)
    ensures |r| == if offset >= |ms| then 0 else if offset + limit <= |ms| then limit else |ms| - offset
    ensures forall x :: x in r ==> x in ms
    ensures Sorted(r, CreatedKey, true) && multiset(r) <= multiset(ms)
    ensures offset == 0 ==> Ranked(ms, r, CreatedKey, true)
  {
    var sorted := SortBy(ms, CreatedKey, true);
    SortByMembers(ms, CreatedKey, true);
    WindowSorted(sorted, offset, limit, CreatedKey, true);
    WindowSubMultiset(sorted, offset, limit);
    SortedPrefixRanked(ms, limit, CreatedKey, true);
    Window(sorted, offset, limit)
  }

  /** With room for every row, `list(limit, 0)` holds every member. */
  lemma ListCompleteBelowLimit(ms: Members, limit: nat, m: Member)
    requires |ms| <= limit
    ensures m in List(ms, limit, 0) <==> m in ms
  {
    var sorted := SortBy(ms, CreatedKey, true);
    SortByMembers(ms, CreatedKey, true);
    assert Window(sorted, 0, limit) == sorted;
  }

  function JoinedKey(m: Member): seq<int> {
    [m.joined_at]
  }

  /**
   * `list_active`: the Active rows, latest joined first. Rows that joined
   * at the same instant keep their stored order, which is one of the orders
   * SQLite may return.
   */
  function ListActive(ms: Members): (r: Members)
    ensures forall m :: m in r <==> m in ms && m.status == Active
    ensures Sorted(r, JoinedKey, true)
    ensures |r| == Count(ms, (m: Member) => m.status == Active)
    ensures multiset(r) == multiset(Filter(ms, (m: Member) => m.status == Active))
  {
    var active := Filter(ms, (m: Member) => m.status == Active);
    SortByMembers(active, JoinedKey, true);
    FilterCount(ms, (m: Member) => m.status == Active);
    SortBy(active, JoinedKey, true)
  }

  /** Any count of Active members comes out the same over the listing and over the whole table. */
  lemma ListActiveCount(ms: Members, p: Member -> bool)
    requires forall m :: p(m) ==> m.status == Active
    ensures Count(ListActive(ms), p) == Count(ms, p)
  {
    var isActive := (m: Member) => m.status == Active;
    SortByCount(Filter(ms, isActive), JoinedKey, true, p);
    CountWithinFilter(ms, isActive, p);
  }

  // ---------------------------------------------------------------------------
  // Create
  // ---------------------------------------------------------------------------

  /** The password is hashed by the caller-supplied Argon2 result `passwordHash`. */
  datatype CreateMemberRequest = CreateMemberRequest(
    email: string,
    username: string,
    full_name: string,
    password: string,
    membership_type: MembershipType)

  /**
   * `create`: a new Pending row with no dues, expiry or notes, no dues
   * bypass, and joined_at = created_at = updated_at = now.
   */
  function Create(ms: Members, req: CreateMemberRequest, id: Id, now: Time, passwordHash: string): (r: (Members, Member))
    ensures r.0 == ms + [r.1]
    ensures r.1.id == id && r.1.email == req.email && r.1.username == req.username
    ensures r.1.full_name == req.full_name && r.1.membership_type == req.membership_type
    ensures r.1.status == MemberStatus.Pending && !r.1.bypass_dues
    ensures r.1.joined_at == now && r.1.created_at == now && r.1.updated_at == now
    ensures r.1.dues_paid_until.None? && r.1.expires_at.None? && r.1.notes.None?
    ensures r.1.password_hash == Some(passwordHash) && r.1.membership_type_id.None?
  {
    var m := Member(id, req.email, req.username, req.full_name, MemberStatus.Pending, req.membership_type,
                    now, None, None, false, None, now, now, Some(passwordHash), None);
    (ms + [m], m)
  }

  /** A created member can be found by its id when the id was fresh. */
  lemma CreateThenFind(ms: Members, req: CreateMemberRequest, id: Id, now: Time, passwordHash: string)
    requires forall i :: 0 <= i < |ms| ==> ms[i].id != id
    ensures var (ms', m) := Create(ms, req, id, now, passwordHash);
            FindById(ms', id) == Some(m)
  {
    var (ms', m) := Create(ms, req, id, now, passwordHash);
    FindFirstAppend(ms, m, (x: Member) => x.id == id);
  }

  // ---------------------------------------------------------------------------
  // Update
  // ---------------------------------------------------------------------------

  datatype UpdateMemberRequest = UpdateMemberRequest(
    full_name: Option<string>,
    status: Option<MemberStatus>,
    membership_type: Option<MembershipType>,
    expires_at: Option<Time>,
    bypass_dues: Option<bool>,
    notes: Option<string>)

  /** `UpdateMemberRequest::default()`: every field None. */
  const NoChanges := UpdateMemberRequest(None, None, None, None, None, None)

  /** The row after the UPDATE statement: each given field replaces, each absent one keeps. */
  function Merge(m: Member, u: UpdateMemberRequest, now: Time): (r: Member)
    ensures r.full_name == u.full_name.GetOr(m.full_name)
    ensures r.status == u.status.GetOr(m.status)
    ensures r.membership_type == u.membership_type.GetOr(m.membership_type)
    ensures r.expires_at == u.expires_at.Or(m.expires_at)
    ensures r.bypass_dues == u.bypass_dues.GetOr(m.bypass_dues)
    ensures r.notes == u.notes.Or(m.notes)
    ensures r.updated_at == now
    ensures r.id == m.id && r.email == m.email && r.username == m.username && r.joined_at == m.joined_at
    ensures r.dues_paid_until == m.dues_paid_until && r.created_at == m.created_at
    ensures r.password_hash == m.password_hash && r.membership_type_id == m.membership_type_id
  {
    m.(full_name := u.full_name.GetOr(m.full_name),
       status := u.status.GetOr(m.status),
       membership_type := u.membership_type.GetOr(m.membership_type),
       expires_at := u.expires_at.Or(m.expires_at),
       bypass_dues := u.bypass_dues.GetOr(m.bypass_dues),
       notes := u.notes.Or(m.notes),
       updated_at := now)
  }

  /** `UPDATE members … WHERE id = ?`: `f` applied to the rows with that id. */
  function UpdateWhere(ms: Members, id: Id, f: Member -> Member): (r: Members)
    ensures |r| == |ms|
    ensures forall i :: 0 <= i < |ms| ==> r[i] == if ms[i].id == id then f(ms[i]) else ms[i]
  {
    MapWhere(ms, (m: Member) => m.id == id, f)
  }

  /**
   * `update`: NotFound when no row has the id; otherwise the merged row is
   * written and returned.
   */
  function Update(ms: Members, id: Id, u: UpdateMemberRequest, now: Time): (r: Result<(Members, Member), AppError>)
    ensures FindById(ms, id).None? <==> r.Failure?
    ensures r.Failure? ==> r.error == NotFound("Member not found")
    ensures r.Success? ==> r.value.1 == Merge(FindById(ms, id).value, u, now)
    ensures r.Success? ==> |r.value.0| == |ms| && forall i :: 0 <= i < |ms| ==>
              r.value.0[i] == if ms[i].id == id then Merge(ms[i], u, now) else ms[i]
  {
    match FindById(ms, id)
    case None => Failure(NotFound("Member not found"))
    case Some(existing) => Success((UpdateWhere(ms, id, (m: Member) => Merge(m, u, now)), Merge(existing, u, now)))
  }

  /** Once set, an expiry date or notes can never be cleared through `update`. */
  lemma UpdateNeverClears(m: Member, u: UpdateMemberRequest, now: Time)
    ensures m.expires_at.Some? ==> Merge(m, u, now).expires_at.Some?
    ensures m.notes.Some? ==> Merge(m, u, now).notes.Some?
  {
  }

  /** Applying the same update twice gives the same row as applying it once (at the later time). */
  lemma MergeIdempotent(m: Member, u: UpdateMemberRequest, t1: Time, t2: Time)
    ensures Merge(Merge(m, u, t1), u, t2) == Merge(m, u, t2)
  {
  }

  /** An update that sets nothing only moves updated_at. */
  lemma MergeNoChanges(m: Member, now: Time)
    ensures Merge(m, NoChanges, now) == m.(updated_at := now)
  {
  }

  // ---------------------------------------------------------------------------
  // Delete
  // ---------------------------------------------------------------------------

  /** `delete`: removes every row with the id; deleting a missing id changes nothing. */
  function Delete(ms: Members, id: Id): (r: Members)
    ensures forall m :: m in r <==> m in ms && m.id != id
    ensures FindById(r, id).None?
  {
    var r := Filter(ms, (m: Member) => m.id != id);
    assert forall i :: 0 <= i < |r| ==> r[i].id != id;
    r
  }

  lemma DeleteMissing(ms: Members, id: Id)
    requires FindById(ms, id).None?
    ensures Delete(ms, id) == ms
  {
    FilterAll(ms, (m: Member) => m.id != id);
  }
}
