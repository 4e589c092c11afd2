/**
 * Member lifecycle rules on top of the member table: creation with
 * duplicate checks, activation, expiry (refused for members whose dues are
 * bypassed) and the periodic sweep that expires members whose dues have
 * lapsed. Integration notifications are not modelled.
 */
module MemberService {
  import opened Wrappers
  import opened Errors
  import opened Domain
  import opened Collections
  import opened MemberRepo

  /**
   * `create_member`: Conflict when the email is taken (checked first), then
   * when the username is taken; otherwise exactly one row is added.
   */
  function CreateMember(ms: Members, req: CreateMemberRequest, id: Id, now: Time, passwordHash: string)
    : (r: Result<(Members, Member), AppError>)
    ensures FindByEmail(ms, req.email).Some? ==> r == Failure(Conflict("Email already exists"))
    ensures FindByEmail(ms, req.email).None? && FindByUsername(ms, req.username).Some? ==>
              r == Failure(Conflict("Username already exists"))
    ensures r.Success? <==> FindByEmail(ms, req.email).None? && FindByUsername(ms, req.username).None?
    ensures r.Success? ==> r.value.0 == ms + [r.value.1] && r.value.1.status == MemberStatus.Pending
  {
    if FindByEmail(ms, req.email).Some? then Failure(Conflict("Email already exists"))
    else if FindByUsername(ms, req.username).Some? then Failure(Conflict("Username already exists"))
    else Success(Create(ms, req, id, now, passwordHash))
  }

  /** A successful creation leaves email and username unique when they were unique before. */
  lemma CreateMemberKeepsUnique(ms: Members, req: CreateMemberRequest, id: Id, now: Time, passwordHash: string)
    requires forall i, j :: 0 <= i < j < |ms| ==> ms[i].email != ms[j].email && ms[i].username != ms[j].username
    requires CreateMember(ms, req, id, now, passwordHash).Success?
    ensures var ms' := CreateMember(ms, req, id, now, passwordHash).value.0;
            forall i, j :: 0 <= i < j < |ms'| ==> ms'[i].email != ms'[j].email && ms'[i].username != ms'[j].username
  {
  }

  const ActivateOnly := NoChanges.(status := Some(Active))

  /**
   * `activate_member`: NotFound for a missing id; an Active member is
   * returned as it is with the table untouched; any other status becomes
   * Active.
   */
  function Activate(ms: Members, id: Id, now: Time): (r: Result<(Members, Member), AppError>)
    ensures FindById(ms, id).None? ==> r == Failure(NotFound("Member not found"))
    ensures FindById(ms, id).Some? ==> r.Success? && r.value.1.status == Active
    ensures FindById(ms, id).Some? && FindById(ms, id).value.status == Active ==> r == Success((ms, FindById(ms, id).value))
    ensures FindById(ms, id).Some? && FindById(ms, id).value.status != Active ==>
              r.value.1 == FindById(ms, id).value.(status := Active, updated_at := now)
    ensures r.Success? ==> |r.value.0| == |ms|
    ensures FindById(ms, id).Some? && FindById(ms, id).value.status != Active ==>
              forall i :: 0 <= i < |ms| ==>
                r.value.0[i] == if ms[i].id == id then ms[i].(status := Active, updated_at := now) else ms[i]
  {
    match FindById(ms, id)
    case None => Failure(NotFound("Member not found"))
    case Some(m) =>
      if m.status == Active then Success((ms, m))
      else Update(ms, id, ActivateOnly, now)
  }

  /** Activating twice is activating once. */
  lemma ActivateIdempotent(ms: Members, id: Id, now: Time)
    requires UniqueMemberIds(ms)
    requires Activate(ms, id, now).Success?
    ensures var (ms', m) := Activate(ms, id, now).value;
            Activate(ms', id, now) == Success((ms', m))
  {
    var (ms', m) := Activate(ms, id, now).value;
    var i :| 0 <= i < |ms| && ms[i] == FindById(ms, id).value;
    if FindById(ms, id).value.status != Active {
      assert ms'[i] == m;
      FindUnique(ms', id, i);
    }
  }

  /** With unique ids, the row found for an id is the row at that id's index. */
  lemma FindUnique(ms: Members, id: Id, i: nat)
    requires UniqueMemberIds(ms) && i < |ms| && ms[i].id == id
    ensures FindById(ms, id) == Some(ms[i])
  {
    var f := FindById(ms, id);
    var j :| 0 <= j < |ms| && ms[j] == f.value;
  }

  /** The row `expire_member` writes. */
  function ExpiryUpdate(now: Time): UpdateMemberRequest {
    NoChanges.(status := Some(Expired), expires_at := Some(now))
  }

  /**
   * `expire_member`: NotFound for a missing id; BadRequest with the table
   * untouched when dues are bypassed; otherwise the member becomes Expired
   * with expires_at = now, whatever its status was.
   */
  function Expire(ms: Members, id: Id, now: Time): (r: Result<(Members, Member), AppError>)
    ensures FindById(ms, id).None? ==> r == Failure(NotFound("Member not found"))
    ensures FindById(ms, id).Some? && FindById(ms, id).value.bypass_dues ==>
              r == Failure(BadRequest("Member has dues bypass enabled"))
    ensures r.Success? <==> FindById(ms, id).Some? && !FindById(ms, id).value.bypass_dues
    ensures r.Success? ==> r.value.1 == FindById(ms, id).value.(status := Expired, expires_at := Some(now), updated_at := now)
    ensures r.Success? ==> |r.value.0| == |ms| && forall i :: 0 <= i < |ms| ==>
              r.value.0[i] == if ms[i].id == id then ms[i].(status := Expired, expires_at := Some(now), updated_at := now) else ms[i]
  {
    match FindById(ms, id)
    case None => Failure(NotFound("Member not found"))
    case Some(m) =>
      if m.bypass_dues then Failure(BadRequest("Member has dues bypass enabled"))
      else Update(ms, id, ExpiryUpdate(now), now)
  }

  /** With unique ids, looking the id up after an expiry finds the row the call returned. */
  lemma ExpireWritesReturnedRow(ms: Members, id: Id, now: Time)
    requires UniqueMemberIds(ms)
    requires Expire(ms, id, now).Success?
    ensures var (ms', m) := Expire(ms, id, now).value;
            UniqueMemberIds(ms') && FindById(ms', id) == Some(m)
  {
    var (ms', m) := Expire(ms, id, now).value;
    var i :| 0 <= i < |ms| && ms[i] == FindById(ms, id).value;
    assert forall j :: 0 <= j < |ms| ==> ms'[j].id == ms[j].id;
    FindUnique(ms', id, i);
  }

  /** The sweep's selection: Active, not bypassed, and dues set and strictly before now. */
  predicate ShouldExpire(m: Member, now: Time) {
    m.status == Active && !m.bypass_dues && m.dues_paid_until.Some? && m.dues_paid_until.value < now
  }

  /** `ShouldExpire` at a fixed time, as a predicate value for counting. */
  function DueAt(now: Time): Member -> bool {
    (m: Member) => ShouldExpire(m, now)
  }

  /** What the sweep leaves in a row. */
  function AfterSweep(m: Member, now: Time): Member {
    if ShouldExpire(m, now) then m.(status := Expired, expires_at := Some(now), updated_at := now) else m
  }

  /**
   * What a sweep over `rows` reports, in their order: each due row as the
   * sweep leaves it.
   */
  function SweepReport(rows: Members, now: Time): (r: seq<Member>)
    ensures |r| == Count(rows, DueAt(now))
    ensures forall e :: e in r ==> e.status == Expired && e.expires_at == Some(now)
  {
    if |rows| == 0 then []
    else
      var k := |rows| - 1;
      CountPrefix(rows, k, DueAt(now));
      assert rows[..k + 1] == rows;
      SweepReport(rows[..k], now) + (if ShouldExpire(rows[k], now) then [AfterSweep(rows[k], now)] else [])
  }

  /** Every due row is reported, as the sweep leaves it. */
  lemma {:induction false} SweepReportHasDue(rows: Members, now: Time, i: nat)
    requires i < |rows| && ShouldExpire(rows[i], now)
    ensures AfterSweep(rows[i], now) in SweepReport(rows, now)
  {
    var k := |rows| - 1;
    if i < k {
      assert rows[..k][i] == rows[i];
      SweepReportHasDue(rows[..k], now, i);
    }
  }

  /** Only due rows are reported: each reported member is some due row after the sweep. */
  lemma {:induction false} SweepReportOnlyDue(rows: Members, now: Time, e: Member) returns (i: nat)
    requires e in SweepReport(rows, now)
    ensures i < |rows| && ShouldExpire(rows[i], now) && e == AfterSweep(rows[i], now)
  {
    var k := |rows| - 1;
    if e in SweepReport(rows[..k], now) {
      i := SweepReportOnlyDue(rows[..k], now, e);
      assert rows[..k][i] == rows[i];
    } else {
      i := k;
    }
  }

  /** The rows of `ms` in `done` are swept and the others untouched. */
  predicate SweptRows(ms: Members, cur: Members, done: set<Member>, now: Time) {
    |cur| == |ms| && forall i :: 0 <= i < |ms| ==> cur[i] == if ms[i] in done then AfterSweep(ms[i], now) else ms[i]
  }

  /**
   * Expiring a due Active member `m` of a table with unique ids, part of
   * which is already swept: the expiry succeeds, reports `m` as swept, and
   * marks `m` swept in the table.
   */
  lemma ExpireDueRow(ms: Members, cur: Members, done: set<Member>, m: Member, now: Time)
    requires UniqueMemberIds(ms) && SweptRows(ms, cur, done, now) && m in ms && ShouldExpire(m, now)
    ensures Expire(cur, m.id, now).Success?
    ensures var (next, e) := Expire(cur, m.id, now).value;
            e == AfterSweep(m, now) && SweptRows(ms, next, done + {m}, now)
  {
    var j :| 0 <= j < |ms| && ms[j] == m;
    assert forall i :: 0 <= i < |ms| ==> cur[i].id == ms[i].id;
    assert UniqueMemberIds(cur);
    FindUnique(cur, m.id, j);
    var (next, e) := Expire(cur, m.id, now).value;
    ExpireAgain(cur[j], m, now);
    MarkSwept(ms, cur, next, done, j, now);
  }

  /** Writing the expiry into every row with the id of the due member at `j` marks that member swept. */
  lemma MarkSwept(ms: Members, cur: Members, next: Members, done: set<Member>, j: nat, now: Time)
    requires UniqueMemberIds(ms) && SweptRows(ms, cur, done, now) && j < |ms| && ShouldExpire(ms[j], now)
    requires |next| == |cur| && forall i :: 0 <= i < |cur| ==>
               next[i] == if cur[i].id == ms[j].id then cur[i].(status := Expired, expires_at := Some(now), updated_at := now) else cur[i]
    ensures SweptRows(ms, next, done + {ms[j]}, now)
  {
    forall i | 0 <= i < |ms|
      ensures next[i] == if ms[i] in done + {ms[j]} then AfterSweep(ms[i], now) else ms[i]
    {
      assert cur[i].id == ms[i].id;
      if i == j {
        ExpireAgain(cur[j], ms[j], now);
      } else {
        assert ms[i].id != ms[j].id;
        assert ms[i] in done + {ms[j]} <==> ms[i] in done;
      }
    }
  }

  /** Expiring a due member, or that member once it has been swept, gives the swept row. */
  lemma ExpireAgain(row: Member, m: Member, now: Time)
    requires ShouldExpire(m, now) && (row == m || row == AfterSweep(m, now))
    ensures row.(status := Expired, expires_at := Some(now), updated_at := now) == AfterSweep(m, now)
  {
  }

  /**
   * One iteration of the sweep over the listed member `m`: a bypassed member
   * is skipped; one whose dues date is set and before now is expired
   * through `Expire` and reported when that succeeds.
   */
  method SweepMember(ms: Members, cur: Members, ghost done: set<Member>, ghost walked: Members, expired: seq<Member>,
                     m: Member, now: Time)
    returns (next: Members, reported: seq<Member>)
    requires UniqueMemberIds(ms) && SweptRows(ms, cur, done, now) && expired == SweepReport(walked, now)
    requires m in ms && m.status == Active
    ensures SweptRows(ms, next, done + {m}, now)
    ensures reported == SweepReport(walked + [m], now)
  {
    assert (walked + [m])[..|walked|] == walked;
    next, reported := cur, expired;
    if !m.bypass_dues && m.dues_paid_until.Some? && m.dues_paid_until.value < now {
      ExpireDueRow(ms, cur, done, m, now);
      var r := Expire(cur, m.id, now);
      if r.Success? {
        next, reported := r.value.0, expired + [r.value.1];
      }
    } else {
      assert AfterSweep(m, now) == m;
    }
  }

  /**
   * The loop of the sweep: every listed member, in order, through
   * `SweepMember`. Afterwards every listed member is swept.
   */
  method SweepListed(ms: Members, listed: Members, now: Time) returns (result: Members, expired: seq<Member>)
    requires UniqueMemberIds(ms)
    requires forall m :: m in listed ==> m in ms && m.status == Active
    ensures SweptRows(ms, result, (set m | m in listed), now)
    ensures expired == SweepReport(listed, now)
  {
    result, expired := ms, [];
    ghost var done: set<Member> := {};
    var k := 0;
    while k < |listed|
      invariant 0 <= k <= |listed|
      invariant done == set m | m in listed[..k]
      invariant SweptRows(ms, result, done, now)
      invariant expired == SweepReport(listed[..k], now)
    {
      assert listed[k] in listed;
      WalkStep(listed, k);
      result, expired := SweepMember(ms, result, done, listed[..k], expired, listed[k], now);
      done := done + {listed[k]};
      k := k + 1;
    }
    assert listed[..k] == listed;
  }

  /** Walking one more listed member: the walked prefix and its members each grow by that member. */
  lemma WalkStep(listed: Members, k: nat)
    requires k < |listed|
    ensures listed[..k + 1] == listed[..k] + [listed[k]]
    ensures var walked, longer := listed[..k], listed[..k + 1];
            (set m | m in longer) == (set m | m in walked) + {listed[k]}
  {
    assert listed[..k + 1] == listed[..k] + [listed[k]];
  }

  /**
   * `check_expired_members`: walks the Active members, newest joined first
   * (`list_active`), and expires every one that is not bypassed and whose
   * dues_paid_until is set and before now. Members with no dues date never
   * expire; other rows are untouched. The members expired are returned in
   * the order walked. A failing `list_active` (`listError`) fails the whole
   * sweep before anything is written.
   */
  method CheckExpired(ms: Members, now: Time, listError: Option<AppError>)
    returns (result: Members, expired: seq<Member>, err: Option<AppError>)
    requires UniqueMemberIds(ms)
    ensures err == listError
    ensures listError.Some? ==> result == ms && expired == []
    ensures listError.None? ==> |result| == |ms| && forall i :: 0 <= i < |ms| ==> result[i] == AfterSweep(ms[i], now)
    ensures listError.None? ==> expired == SweepReport(ListActive(ms), now)
    ensures listError.None? ==> |expired| == Count(ms, DueAt(now))
    ensures forall e :: e in expired ==> e.status == Expired && e.expires_at == Some(now)
  {
    result, expired, err := ms, [], listError;
    if listError.Some? {
      return;
    }
    var active := ListActive(ms);
    result, expired := SweepListed(ms, active, now);
    ListActiveCount(ms, DueAt(now));
    forall i | 0 <= i < |ms|
      ensures result[i] == AfterSweep(ms[i], now)
    {
      if ms[i] !in active {
        assert AfterSweep(ms[i], now) == ms[i];
      }
    }
  }

  /**
   * After a sweep nothing is left to expire: run again at the same time on
   * the swept table, `CheckExpired` reports no one (its count is zero).
   */
  lemma SecondSweepEmpty(ms: Members, swept: Members, now: Time)
    requires |swept| == |ms| && forall i :: 0 <= i < |ms| ==> swept[i] == AfterSweep(ms[i], now)
    ensures Count(swept, DueAt(now)) == 0
  {
    forall i | 0 <= i < |swept|
      ensures !DueAt(now)(swept[i])
    {
      assert swept[i] == AfterSweep(ms[i], now);
    }
  }

  /** A second sweep at the same instant changes no row. */
  lemma SweepIdempotent(m: Member, now: Time)
    ensures AfterSweep(AfterSweep(m, now), now) == AfterSweep(m, now)
  {
  }
}
