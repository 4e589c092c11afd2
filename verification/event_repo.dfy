/**
 * The event table and the attendance table: the text codecs of the event
 * type, visibility and attendance status, the 1/0 encoding of
 * `rsvp_required`, the listings, and the attendance upsert, cancel and
 * counts. An attendance row is keyed by the pair (event, member).
 */
module EventRepo {
  import opened Wrappers
  import opened Errors
  import opened Domain
  import opened Collections
  import opened Ordering

  type Events = seq<Event>
  type Attendances = seq<Attendance>

  // ---------------------------------------------------------------------------
  // Codecs
  // ---------------------------------------------------------------------------

  function EventTypeToStr(t: EventType): string {
    match t
    case Meeting => "Meeting"
    case Workshop => "Workshop"
    case CTF => "CTF"
    case Social => "Social"
    case Training => "Training"
    case Hackathon => "Hackathon"
  }

  /** `parse_event_type`: exact names only; anything else is a Database error. */
  function ParseEventType(s: string): (r: Result<EventType, AppError>)
    ensures r.Failure? ==> r.error == Database("Invalid event type: " + s)
  {
    if s == "Meeting" then Success(EventType.Meeting)
    else if s == "Workshop" then Success(Workshop)
    else if s == "CTF" then Success(CTF)
    else if s == "Social" then Success(Social)
    else if s == "Training" then Success(Training)
    else if s == "Hackathon" then Success(Hackathon)
    else Failure(Database("Invalid event type: " + s))
  }

  lemma EventTypeRoundTrip(t: EventType)
    ensures ParseEventType(EventTypeToStr(t)) == Success(t)
  {
  }

  lemma ParseEventTypeOnlyNames(text: string)
    ensures ParseEventType(text).Success? <==> exists t: EventType :: EventTypeToStr(t) == text
  {
    if ParseEventType(text).Success? {
      EventTypeRoundTrip(ParseEventType(text).value);
    }
  }

  function VisibilityToStr(v: EventVisibility): string {
    match v
    case Public => "Public"
    case MembersOnly => "MembersOnly"
    case AdminOnly => "AdminOnly"
  }

  /** `parse_visibility`: exact names only. */
  function ParseVisibility(s: string): (r: Result<EventVisibility, AppError>)
    ensures r.Failure? ==> r.error == Database("Invalid visibility: " + s)
  {
    if s == "Public" then Success(Public)
    else if s == "MembersOnly" then Success(MembersOnly)
    else if s == "AdminOnly" then Success(AdminOnly)
    else Failure(Database("Invalid visibility: " + s))
  }

  lemma VisibilityRoundTrip(v: EventVisibility)
    ensures ParseVisibility(VisibilityToStr(v)) == Success(v)
  {
  }

  lemma ParseVisibilityOnlyNames(text: string)
    ensures ParseVisibility(text).Success? <==> exists v: EventVisibility :: VisibilityToStr(v) == text
  {
    if ParseVisibility(text).Success? {
      VisibilityRoundTrip(ParseVisibility(text).value);
    }
  }

  function AttendanceToStr(s: AttendanceStatus): string {
    match s
    case Registered => "Registered"
    case Waitlisted => "Waitlisted"
    case Cancelled => "Cancelled"
  }

  /** The status column as `get_member_attendance_status` reads it. */
  function ParseAttendance(s: string): (r: Result<AttendanceStatus, AppError>)
    ensures r.Failure? ==> r.error == Database("Invalid attendance status: " + s)
  {
    if s == "Registered" then Success(Registered)
    else if s == "Waitlisted" then Success(Waitlisted)
    else if s == "Cancelled" then Success(Cancelled)
    else Failure(Database("Invalid attendance status: " + s))
  }

  lemma AttendanceRoundTrip(s: AttendanceStatus)
    ensures ParseAttendance(AttendanceToStr(s)) == Success(s)
  {
  }

  /** A flag column: written as 1 or 0, read back as "not zero". */
  function FlagToInt(b: bool): (i: int)
    ensures i == 0 || i == 1
  {
    if b then 1 else 0
  }

  function IntToFlag(i: int): bool {
    i != 0
  }

  lemma FlagRoundTrip(b: bool)
    ensures IntToFlag(FlagToInt(b)) == b
  {
  }

  // ---------------------------------------------------------------------------
  // Events
  // ---------------------------------------------------------------------------

  function FindById(es: Events, id: Id): Option<Event> {
    FindFirst(es, (e: Event) => e.id == id)
  }

  function StartKey(e: Event): seq<int> {
    [e.start_time]
  }

  /**
   * `create`: the row is stored with created_at and updated_at taken from
   * the clock, whatever the caller's record says; a taken id is a
   * Database error.
   */
  function Create(es: Events, e: Event, now: Time): (r: Result<(Events, Event), AppError>)
    ensures r.Failure? <==> FindById(es, e.id).Some?
    ensures r.Failure? ==> r.error.Database?
    ensures r.Success? ==> r.value.0 == es + [r.value.1]
    ensures r.Success? ==> r.value.1 == e.(created_at := now, updated_at := now)
  {
    if FindById(es, e.id).Some? then Failure(Database("UNIQUE constraint failed: events.id"))
    else
      var row := e.(created_at := now, updated_at := now);
      Success((es + [row], row))
  }

  lemma CreateThenFind(es: Events, e: Event, now: Time)
    requires Create(es, e, now).Success?
    ensures FindById(Create(es, e, now).value.0, e.id) == Some(Create(es, e, now).value.1)
  {
    FindFirstAppend(es, Create(es, e, now).value.1, (x: Event) => x.id == e.id);
  }

  /**
   * `list(limit, offset)`: the events by start time, latest first, skipping
   * `offset` of them and keeping at most `limit`.
   */
  function List(es: Events, limit: nat, offset: nat): (r: Events)
    ensures |r| == if offset >= |es| then 0 else if offset + limit <= |es| then limit else |es| - offset
    ensures forall x :: x in r ==> x in es
    ensures Sorted(r, StartKey, true) && multiset(r) <= multiset(es)
    ensures offset == 0 ==> Ranked(es, r, StartKey, true)
  {
    var sorted := SortBy(es, StartKey, true);
    SortByMembers(es, StartKey, true);
    WindowSorted(sorted, offset, limit, StartKey, true);
    WindowSubMultiset(sorted, offset, limit);
    SortedPrefixRanked(es, limit, StartKey, true);
    Window(sorted, offset, limit)
  }

  /** Consecutive pages of `list` join into one longer page: an offset skips the rows before it. */
  lemma ListPages(es: Events, a: nat, b: nat, offset: nat)
    ensures List(es, a, offset) + List(es, b, offset + a) == List(es, a + b, offset)
  {
    WindowsJoin(SortBy(es, StartKey, true), offset, a, b);
  }

  predicate IsUpcoming(now: Time, e: Event) {
    e.start_time > now
  }

  function UpcomingAt(now: Time): Event -> bool {
    (e: Event) => IsUpcoming(now, e)
  }

  /**
   * `list_upcoming`: the events starting after now, soonest first; with a
   * non-negative limit, the `limit` soonest of them.
   */
  function ListUpcoming(es: Events, now: Time, limit: int): (r: Events)
    ensures Sorted(r, StartKey, false)
    ensures forall i :: 0 <= i < |r| ==> r[i].start_time > now && r[i] in es
    ensures |r| == if 0 <= limit < Count(es, UpcomingAt(now)) then limit else Count(es, UpcomingAt(now))
    ensures Ranked(Filter(es, UpcomingAt(now)), r, StartKey, false)
  {
    var upcoming := Filter(es, UpcomingAt(now));
    FilterCount(es, UpcomingAt(now));
    SqlLimitRanked(upcoming, limit, StartKey, false);
    SqlLimit(SortBy(upcoming, StartKey, false), limit)
  }

  /** Every upcoming event is listed when the limit leaves room for all of them. */
  lemma ListUpcomingComplete(es: Events, now: Time, limit: int, e: Event)
    requires e in es && e.start_time > now
    requires limit < 0 || limit >= |es|
    ensures e in ListUpcoming(es, now, limit)
  {
    var upcoming := Filter(es, UpcomingAt(now));
    SortByMembers(upcoming, StartKey, false);
    var sorted := SortBy(upcoming, StartKey, false);
    assert SqlLimit(sorted, limit) == sorted;
  }

  /** `list_public`: exactly the Public events, newest start first. */
  function ListPublic(es: Events): (r: Events)
    ensures Sorted(r, StartKey, true)
    ensures forall e :: e in r <==> e in es && e.visibility == Public
  {
    var shown := Filter(es, (e: Event) => e.visibility == Public);
    SortByMembers(shown, StartKey, true);
    SortBy(shown, StartKey, true)
  }

  /**
   * `update`: overwrites every column but id, created_by and created_at
   * with the given record's values; a missing id surfaces as the Database
   * error of the read-back.
   */
  function Overwrite(row: Event, e: Event, now: Time): (r: Event)
    ensures r.id == row.id && r.created_by == row.created_by && r.created_at == row.created_at
    ensures r == e.(id := row.id, created_by := row.created_by, created_at := row.created_at, updated_at := now)
  {
    row.(title := e.title, description := e.description, event_type := e.event_type,
         event_type_id := e.event_type_id, visibility := e.visibility, start_time := e.start_time,
         end_time := e.end_time, location := e.location, max_attendees := e.max_attendees,
         rsvp_required := e.rsvp_required, image_url := e.image_url, updated_at := now)
  }

  function Update(es: Events, id: Id, e: Event, now: Time): (r: Result<(Events, Event), AppError>)
    ensures r.Failure? <==> FindById(es, id).None?
    ensures r.Failure? ==> r.error == Database("Failed to retrieve updated event")
    ensures r.Success? ==> r.value.1 == Overwrite(FindById(es, id).value, e, now)
    ensures r.Success? ==> |r.value.0| == |es| && forall i :: 0 <= i < |es| ==>
              r.value.0[i] == if es[i].id == id then Overwrite(es[i], e, now) else es[i]
  {
    match FindById(es, id)
    case None => Failure(Database("Failed to retrieve updated event"))
    case Some(row) => Success((MapWhere(es, (x: Event) => x.id == id, (x: Event) => Overwrite(x, e, now)),
                               Overwrite(row, e, now)))
  }

  /** After an update, the id finds the row the update returned. */
  lemma UpdateThenFind(es: Events, id: Id, e: Event, now: Time)
    requires Update(es, id, e, now).Success?
    ensures FindById(Update(es, id, e, now).value.0, id) == Some(Update(es, id, e, now).value.1)
  {
    FindFirstMapWhere(es, (x: Event) => x.id == id, (x: Event) => Overwrite(x, e, now));
  }

  function Delete(es: Events, id: Id): (r: Events)
    ensures forall e :: e in r <==> e in es && e.id != id
  {
    Filter(es, (e: Event) => e.id != id)
  }

  // ---------------------------------------------------------------------------
  // Attendance
  // ---------------------------------------------------------------------------

  /** The row of the (event, member) pair. */
  function AtPair(ev: Id, mem: Id): Attendance -> bool {
    (a: Attendance) => a.event_id == ev && a.member_id == mem
  }

  /** The table's key: no two rows share an (event, member) pair. */
  predicate PairsUnique(rows: Attendances) {
    forall i, j :: 0 <= i < j < |rows| ==>
      rows[i].event_id != rows[j].event_id || rows[i].member_id != rows[j].member_id
  }

  function Reregister(now: Time): Attendance -> Attendance {
    (a: Attendance) => a.(status := Registered, registered_at := now)
  }

  /**
   * `register_attendance`: an upsert. A new pair gets a Registered row;
   * an existing row becomes Registered again with a fresh registered_at.
   */
  function Register(rows: Attendances, ev: Id, mem: Id, now: Time): (r: Attendances)
    ensures FindFirst(rows, AtPair(ev, mem)).None? ==> r == rows + [Attendance(ev, mem, Registered, now)]
    ensures FindFirst(rows, AtPair(ev, mem)).Some? ==> |r| == |rows|
  {
    if FindFirst(rows, AtPair(ev, mem)).Some? then MapWhere(rows, AtPair(ev, mem), Reregister(now))
    else rows + [Attendance(ev, mem, Registered, now)]
  }

  /** After registering, the pair has exactly one row, and it says Registered. */
  lemma RegisterUpsert(rows: Attendances, ev: Id, mem: Id, now: Time)
    requires PairsUnique(rows)
    ensures PairsUnique(Register(rows, ev, mem, now))
    ensures exists i :: 0 <= i < |Register(rows, ev, mem, now)| && AtPair(ev, mem)(Register(rows, ev, mem, now)[i])
                        && Register(rows, ev, mem, now)[i].status == Registered
  {
    var r := Register(rows, ev, mem, now);
    if FindFirst(rows, AtPair(ev, mem)).Some? {
      var k :| 0 <= k < |rows| && rows[k] == FindFirst(rows, AtPair(ev, mem)).value;
      assert AtPair(ev, mem)(r[k]);
    } else {
      assert AtPair(ev, mem)(r[|rows|]);
    }
  }

  /** `get_member_attendance_status`: None when the pair has no row. */
  function AttendanceOf(rows: Attendances, ev: Id, mem: Id): (r: Option<AttendanceStatus>)
    ensures r.None? <==> forall i :: 0 <= i < |rows| ==> !AtPair(ev, mem)(rows[i])
  {
    match FindFirst(rows, AtPair(ev, mem))
    case None => None
    case Some(a) => Some(a.status)
  }

  lemma RegisterThenStatus(rows: Attendances, ev: Id, mem: Id, now: Time)
    ensures AttendanceOf(Register(rows, ev, mem, now), ev, mem) == Some(Registered)
  {
    var r := Register(rows, ev, mem, now);
    if FindFirst(rows, AtPair(ev, mem)).Some? {
      assert forall i :: 0 <= i < |r| && AtPair(ev, mem)(r[i]) ==> r[i].status == Registered;
    } else {
      FindFirstAppend(rows, Attendance(ev, mem, Registered, now), AtPair(ev, mem));
    }
  }

  function Cancelling(a: Attendance): Attendance {
    a.(status := Cancelled)
  }

  /** `cancel_attendance`: the pair's row becomes Cancelled; without a row nothing changes. */
  function Cancel(rows: Attendances, ev: Id, mem: Id): (r: Attendances)
    ensures |r| == |rows|
    ensures forall i :: 0 <= i < |rows| ==> r[i] == if AtPair(ev, mem)(rows[i]) then rows[i].(status := Cancelled) else rows[i]
  {
    MapWhere(rows, AtPair(ev, mem), Cancelling)
  }

  lemma CancelWithoutRow(rows: Attendances, ev: Id, mem: Id)
    requires AttendanceOf(rows, ev, mem).None?
    ensures Cancel(rows, ev, mem) == rows
  {
    MapWhereNone(rows, AtPair(ev, mem), Cancelling);
  }

  lemma CancelThenStatus(rows: Attendances, ev: Id, mem: Id)
    ensures AttendanceOf(Cancel(rows, ev, mem), ev, mem)
            == if AttendanceOf(rows, ev, mem).None? then None else Some(Cancelled)
  {
    if AttendanceOf(rows, ev, mem).None? {
      CancelWithoutRow(rows, ev, mem);
    } else {
      var r := Cancel(rows, ev, mem);
      assert forall i :: 0 <= i < |r| && AtPair(ev, mem)(r[i]) ==> r[i].status == Cancelled;
    }
  }

  function RegisteredFor(ev: Id): Attendance -> bool {
    (a: Attendance) => a.event_id == ev && a.status == Registered
  }

  /** `get_attendee_count`: the Registered rows of the event. */
  function AttendeeCount(rows: Attendances, ev: Id): (n: nat)
    ensures n == 0 <==> forall i :: 0 <= i < |rows| ==> !(rows[i].event_id == ev && rows[i].status == Registered)
  {
    Count(rows, RegisteredFor(ev))
  }

  /** Registering adds one attendee unless the member was already registered. */
  lemma RegisterCount(rows: Attendances, ev: Id, mem: Id, now: Time)
    requires PairsUnique(rows)
    ensures AttendeeCount(Register(rows, ev, mem, now), ev)
            == AttendeeCount(rows, ev) + if AttendanceOf(rows, ev, mem) == Some(Registered) then 0 else 1
  {
    var p := AtPair(ev, mem);
    match FindFirst(rows, p)
    case None =>
      CountConcat(rows, [Attendance(ev, mem, Registered, now)], RegisteredFor(ev));
    case Some(a) =>
      var k :| 0 <= k < |rows| && rows[k] == a;
      assert forall i :: 0 <= i < |rows| && i != k ==> !p(rows[i]);
      CountMapWhereOne(rows, p, Reregister(now), RegisteredFor(ev), k);
  }

  /** Cancelling removes one attendee exactly when the member was registered. */
  lemma CancelCount(rows: Attendances, ev: Id, mem: Id)
    requires PairsUnique(rows)
    ensures AttendeeCount(Cancel(rows, ev, mem), ev)
            == AttendeeCount(rows, ev) - if AttendanceOf(rows, ev, mem) == Some(Registered) then 1 else 0
  {
    var p := AtPair(ev, mem);
    match FindFirst(rows, p)
    case None =>
      CancelWithoutRow(rows, ev, mem);
    case Some(a) =>
      var k :| 0 <= k < |rows| && rows[k] == a;
      assert forall i :: 0 <= i < |rows| && i != k ==> !p(rows[i]);
      CountMapWhereOne(rows, p, Cancelling, RegisteredFor(ev), k);
  }

  // ---------------------------------------------------------------------------
  // A member's registered events
  // ---------------------------------------------------------------------------

  /** The events the join of `get_member_registered_events` selects. */
  predicate RegisteredUpcoming(rows: Attendances, mem: Id, now: Time, e: Event) {
    e.start_time > now && exists a :: a in rows && a.event_id == e.id && a.member_id == mem && a.status == Registered
  }

  /**
   * `get_member_registered_events` as written: its SELECT list leaves out
   * `image_url`, which the row type requires, so decoding fails as soon as
   * the join yields a row; only an empty result comes back.
   */
  function RegisteredEventsAsWritten(es: Events, rows: Attendances, mem: Id, now: Time): (r: Result<Events, AppError>)
    ensures r.Success? <==> forall i :: 0 <= i < |es| ==> !RegisteredUpcoming(rows, mem, now, es[i])
  {
    var joined := Filter(es, (e: Event) => RegisteredUpcoming(rows, mem, now, e));
    if |joined| == 0 then
      assert forall i :: 0 <= i < |es| ==> es[i] in es;
      Success([])
    else
      assert joined[0] in joined;
      Failure(Database("no column found for name: image_url"))
  }

  /** A member registered for one upcoming event gets an error instead of the list. */
  lemma RegisteredEventsFailure(es: Events, rows: Attendances, mem: Id, now: Time, e: Event)
    requires e in es && e.start_time > now
    requires Attendance(e.id, mem, Registered, now) in rows
    ensures RegisteredEventsAsWritten(es, rows, mem, now).Failure?
  {
    assert RegisteredUpcoming(rows, mem, now, e);
  }

  /** The intended result: the member's upcoming registered events, soonest first. */
  function RegisteredEvents(es: Events, rows: Attendances, mem: Id, now: Time): (r: Events)
    ensures Sorted(r, StartKey, false)
    ensures forall e :: e in r <==> e in es && RegisteredUpcoming(rows, mem, now, e)
  {
    var joined := Filter(es, (e: Event) => RegisteredUpcoming(rows, mem, now, e));
    SortByMembers(joined, StartKey, false);
    SortBy(joined, StartKey, false)
  }

  /** Registering for an upcoming event puts it on the member's list. */
  lemma RegisterShowsEvent(es: Events, rows: Attendances, e: Event, mem: Id, now: Time, later: Time)
    requires e in es && e.start_time > later
    ensures e in RegisteredEvents(es, Register(rows, e.id, mem, now), mem, later)
  {
    var r := Register(rows, e.id, mem, now);
    RegisterThenStatus(rows, e.id, mem, now);
    var a := FindFirst(r, AtPair(e.id, mem)).value;
    assert a in r && a.event_id == e.id && a.member_id == mem && a.status == Registered;
  }
}
