/**
 * The JSON API for events: the listing dispatch and its limit, the
 * visibility gate of `get`, creation, the creator-only update and delete
 * with their field merge, and RSVP registration and cancellation. The
 * caller is `Option<Id>` for the routes that allow anonymous access and
 * an `Id` for the authenticated ones.
 */
module EventApi {
  import opened Wrappers
  import opened Errors
  import opened Domain
  import opened Collections
  import EventRepo

  type Events = EventRepo.Events
  type Attendances = EventRepo.Attendances

  const EventNotFound := NotFound("Event not found")

  /** `limit.unwrap_or(50).min(100)`. */
  function ListLimit(requested: Option<int>): (limit: int)
    ensures limit <= 100
    ensures requested.None? ==> limit == 50
    ensures requested.Some? && requested.value <= 100 ==> limit == requested.value
  {
    var l := requested.GetOr(50);
    if l < 100 then l else 100
  }

  /**
   * `list`: anonymous callers and `public_only` requests get every Public
   * event, with the limit ignored; other callers get the upcoming events,
   * at most the limit.
   */
  function List(es: Events, now: Time, limit: Option<int>, publicOnly: Option<bool>, caller: Option<Id>): (r: Events)
    ensures publicOnly.GetOr(false) || caller.None? ==> r == EventRepo.ListPublic(es)
    ensures !(publicOnly.GetOr(false) || caller.None?) ==> r == EventRepo.ListUpcoming(es, now, ListLimit(limit))
  {
    if publicOnly.GetOr(false) || caller.None? then EventRepo.ListPublic(es)
    else EventRepo.ListUpcoming(es, now, ListLimit(limit))
  }

  /** Anonymous callers only ever see Public events, and a non-negative limit caps the member listing at 100. */
  lemma ListBounds(es: Events, now: Time, limit: Option<int>, publicOnly: Option<bool>, caller: Option<Id>)
    ensures caller.None? ==> forall e :: e in List(es, now, limit, publicOnly, caller) ==> e.visibility == Public
    ensures caller.Some? && !publicOnly.GetOr(false) && ListLimit(limit) >= 0 ==>
              |List(es, now, limit, publicOnly, caller)| <= 100
  {
  }

  /**
   * A negative requested limit passes the cap and reaches SQLite, which
   * reads it as no limit at all: every upcoming event is returned.
   */
  lemma NegativeLimitListsAll(es: Events, now: Time, caller: Id, e: Event)
    requires e in es && e.start_time > now
    ensures e in List(es, now, Some(-1), None, Some(caller))
  {
    EventRepo.ListUpcomingComplete(es, now, -1, e);
  }

  /** `get`: Public events for everyone; members-only and admin-only events for any signed-in caller. */
  function Get(es: Events, id: Id, caller: Option<Id>): (r: Result<Event, AppError>)
    ensures EventRepo.FindById(es, id).None? ==> r == Failure(EventNotFound)
    ensures r.Success? <==> EventRepo.FindById(es, id).Some?
                            && (EventRepo.FindById(es, id).value.visibility == Public || caller.Some?)
    ensures r.Success? ==> r.value == EventRepo.FindById(es, id).value
    ensures r.Failure? && EventRepo.FindById(es, id).Some? ==> r.error == Forbidden
  {
    match EventRepo.FindById(es, id)
    case None => Failure(EventNotFound)
    case Some(e) =>
      if e.visibility != Public && caller.None? then Failure(Forbidden) else Success(e)
  }

  datatype CreateEventRequest = CreateEventRequest(
    title: string,
    description: string,
    event_type: EventType,
    visibility: EventVisibility,
    start_time: Time,
    end_time: Option<Time>,
    location: Option<string>,
    max_attendees: Option<int>,
    rsvp_required: bool)

  /** The record `create` builds: no type id, no image, created by the caller. */
  function NewEvent(req: CreateEventRequest, id: Id, caller: Id, now: Time): (e: Event)
    ensures e.created_by == caller && e.event_type_id.None? && e.image_url.None?
    ensures e.title == req.title && e.start_time == req.start_time && e.visibility == req.visibility
  {
    Event(id, req.title, req.description, req.event_type, None, req.visibility, req.start_time,
          req.end_time, req.location, req.max_attendees, req.rsvp_required, None, caller, now, now)
  }

  function Create(es: Events, req: CreateEventRequest, id: Id, caller: Id, now: Time): (r: Result<(Events, Event), AppError>)
    ensures r.Failure? <==> EventRepo.FindById(es, id).Some?
    ensures r.Success? ==> var e := r.value.1;
              && r.value.0 == es + [e]
              && e.id == id && e.created_by == caller && e.created_at == now && e.updated_at == now
              && e.event_type_id.None? && e.image_url.None?
              && e.title == req.title && e.description == req.description && e.event_type == req.event_type
              && e.visibility == req.visibility && e.start_time == req.start_time && e.end_time == req.end_time
              && e.location == req.location && e.max_attendees == req.max_attendees
              && e.rsvp_required == req.rsvp_required
  {
    EventRepo.Create(es, NewEvent(req, id, caller, now), now)
  }

  /** The creator of a created event is its caller, and it can be read back. */
  lemma CreateOwnedByCaller(es: Events, req: CreateEventRequest, id: Id, caller: Id, now: Time)
    requires EventRepo.FindById(es, id).None?
    ensures Create(es, req, id, caller, now).Success?
    ensures var (es', e) := Create(es, req, id, caller, now).value;
            e.created_by == caller && EventRepo.FindById(es', id) == Some(e)
  {
    EventRepo.CreateThenFind(es, NewEvent(req, id, caller, now), now);
  }

  /**
   * An update request. The outer Option says whether a field is set; for
   * end_time, location and max_attendees the inner Option is the new
   * value, so `Some(None)` clears the field.
   */
  datatype UpdateEventRequest = UpdateEventRequest(
    title: Option<string>,
    description: Option<string>,
    event_type: Option<EventType>,
    visibility: Option<EventVisibility>,
    start_time: Option<Time>,
    end_time: Option<Option<Time>>,
    location: Option<Option<string>>,
    max_attendees: Option<Option<int>>,
    rsvp_required: Option<bool>)

  function ApplyUpdate(e: Event, u: UpdateEventRequest, now: Time): (r: Event)
    ensures r.id == e.id && r.created_by == e.created_by && r.created_at == e.created_at
    ensures r.event_type_id == e.event_type_id && r.image_url == e.image_url && r.updated_at == now
    ensures r.title == u.title.GetOr(e.title) && r.start_time == u.start_time.GetOr(e.start_time)
    ensures r.visibility == u.visibility.GetOr(e.visibility) && r.rsvp_required == u.rsvp_required.GetOr(e.rsvp_required)
    ensures r.end_time == u.end_time.GetOr(e.end_time)
    ensures r.location == u.location.GetOr(e.location)
    ensures r.max_attendees == u.max_attendees.GetOr(e.max_attendees)
  {
    e.(title := u.title.GetOr(e.title),
       description := u.description.GetOr(e.description),
       event_type := u.event_type.GetOr(e.event_type),
       visibility := u.visibility.GetOr(e.visibility),
       start_time := u.start_time.GetOr(e.start_time),
       end_time := u.end_time.GetOr(e.end_time),
       location := u.location.GetOr(e.location),
       max_attendees := u.max_attendees.GetOr(e.max_attendees),
       rsvp_required := u.rsvp_required.GetOr(e.rsvp_required),
       updated_at := now)
  }

  /** `Some(None)` clears an optional field; `None` leaves it alone. */
  lemma ClearingOptionalFields(e: Event, u: UpdateEventRequest, now: Time)
    ensures u.end_time == Some(None) ==> ApplyUpdate(e, u, now).end_time.None?
    ensures u.location == Some(None) ==> ApplyUpdate(e, u, now).location.None?
    ensures u.end_time.None? ==> ApplyUpdate(e, u, now).end_time == e.end_time
    ensures u.location.None? ==> ApplyUpdate(e, u, now).location == e.location
  {
  }

  /** The creator check shared by update and delete: NotFound first, then Forbidden. */
  function OwnedEvent(es: Events, id: Id, caller: Id): (r: Result<Event, AppError>)
    ensures r.Success? <==> EventRepo.FindById(es, id).Some? && EventRepo.FindById(es, id).value.created_by == caller
    ensures EventRepo.FindById(es, id).None? ==> r == Failure(EventNotFound)
    ensures r.Failure? && EventRepo.FindById(es, id).Some? ==> r.error == Forbidden
    ensures r.Success? ==> r.value == EventRepo.FindById(es, id).value
  {
    match EventRepo.FindById(es, id)
    case None => Failure(EventNotFound)
    case Some(e) => if e.created_by != caller then Failure(Forbidden) else Success(e)
  }

  /** `update`: the creator's merged record is written back. */
  function Update(es: Events, id: Id, caller: Id, u: UpdateEventRequest, now: Time): (r: Result<(Events, Event), AppError>)
    ensures OwnedEvent(es, id, caller).Failure? ==> r == Failure(OwnedEvent(es, id, caller).error)
    ensures OwnedEvent(es, id, caller).Success? ==>
              r == EventRepo.Update(es, id, ApplyUpdate(OwnedEvent(es, id, caller).value, u, now), now)
  {
    match OwnedEvent(es, id, caller)
    case Failure(err) => Failure(err)
    case Success(e) => EventRepo.Update(es, id, ApplyUpdate(e, u, now), now)
  }

  /** Only the creator can change an event, and the change keeps its creator and its type id. */
  lemma UpdateByCreatorOnly(es: Events, id: Id, caller: Id, u: UpdateEventRequest, now: Time)
    requires Update(es, id, caller, u, now).Success?
    ensures var e := EventRepo.FindById(es, id).value;
            var r := Update(es, id, caller, u, now).value.1;
            e.created_by == caller && r.created_by == caller && r.event_type_id == e.event_type_id
            && r.created_at == e.created_at
  {
  }

  /** `delete`: only the creator can remove an event. */
  function Delete(es: Events, id: Id, caller: Id): (r: Result<Events, AppError>)
    ensures r.Success? <==> OwnedEvent(es, id, caller).Success?
    ensures r.Failure? ==> r.error == OwnedEvent(es, id, caller).error
    ensures r.Success? ==> r.value == EventRepo.Delete(es, id)
  {
    match OwnedEvent(es, id, caller)
    case Failure(err) => Failure(err)
    case Success(_) => Success(EventRepo.Delete(es, id))
  }

  // ---------------------------------------------------------------------------
  // RSVP
  // ---------------------------------------------------------------------------

  /** The two successful answers: a 200 "does not require registration" or the registration itself. */
  datatype RsvpOutcome = NotRequired | Done

  /**
   * `register`: NotFound, then Forbidden for admin-only events, then no
   * write at all when the event takes no RSVPs, else the upsert. The
   * capacity `max_attendees` is not consulted.
   */
  function Register(es: Events, rows: Attendances, id: Id, caller: Id, now: Time): (r: (Attendances, Result<RsvpOutcome, AppError>))
    ensures r.1.Failure? || r.1.value == NotRequired ==> r.0 == rows
    ensures EventRepo.FindById(es, id).None? ==> r.1 == Failure(EventNotFound)
    ensures r.1 == Success(Done) <==> (EventRepo.FindById(es, id).Some?
                                       && EventRepo.FindById(es, id).value.visibility != AdminOnly
                                       && EventRepo.FindById(es, id).value.rsvp_required)
    ensures r.1 == Success(Done) ==> r.0 == EventRepo.Register(rows, id, caller, now)
  {
    match EventRepo.FindById(es, id)
    case None => (rows, Failure(EventNotFound))
    case Some(e) =>
      if e.visibility == AdminOnly then (rows, Failure(Forbidden))
      else if !e.rsvp_required then (rows, Success(NotRequired))
      else (EventRepo.Register(rows, id, caller, now), Success(Done))
  }

  /**
   * A registration is accepted whatever the attendee count: an event at
   * or over its `max_attendees` still gains an attendee.
   */
  lemma RegisterIgnoresCapacity(es: Events, rows: Attendances, e: Event, caller: Id, now: Time)
    requires EventRepo.PairsUnique(rows)
    requires EventRepo.FindById(es, e.id) == Some(e)
    requires e.visibility != AdminOnly && e.rsvp_required
    requires e.max_attendees.Some? && EventRepo.AttendeeCount(rows, e.id) >= e.max_attendees.value
    requires EventRepo.AttendanceOf(rows, e.id, caller) != Some(Registered)
    ensures Register(es, rows, e.id, caller, now).1 == Success(Done)
    ensures EventRepo.AttendeeCount(Register(es, rows, e.id, caller, now).0, e.id) > e.max_attendees.value
  {
    EventRepo.RegisterCount(rows, e.id, caller, now);
  }

  /** `cancel`: NotFound, then no write for an event without RSVPs, else the cancellation. */
  function Cancel(es: Events, rows: Attendances, id: Id, caller: Id): (r: (Attendances, Result<RsvpOutcome, AppError>))
    ensures r.1.Failure? || r.1.value == NotRequired ==> r.0 == rows
    ensures EventRepo.FindById(es, id).None? ==> r.1 == Failure(EventNotFound)
    ensures r.1 == Success(Done) <==> EventRepo.FindById(es, id).Some? && EventRepo.FindById(es, id).value.rsvp_required
    ensures r.1 == Success(Done) ==> r.0 == EventRepo.Cancel(rows, id, caller)
  {
    match EventRepo.FindById(es, id)
    case None => (rows, Failure(EventNotFound))
    case Some(e) =>
      if !e.rsvp_required then (rows, Success(NotRequired))
      else (EventRepo.Cancel(rows, id, caller), Success(Done))
  }

  /** Registering and then cancelling leaves the member's row Cancelled and the count where it started. */
  lemma RegisterThenCancel(es: Events, rows: Attendances, id: Id, caller: Id, now: Time)
    requires EventRepo.PairsUnique(rows)
    requires EventRepo.AttendanceOf(rows, id, caller) != Some(Registered)
    requires Register(es, rows, id, caller, now).1 == Success(Done)
    ensures var mid := Register(es, rows, id, caller, now).0;
            var after := Cancel(es, mid, id, caller).0;
            EventRepo.AttendanceOf(after, id, caller) == Some(Cancelled)
            && EventRepo.AttendeeCount(after, id) == EventRepo.AttendeeCount(rows, id)
  {
    var mid := EventRepo.Register(rows, id, caller, now);
    EventRepo.RegisterUpsert(rows, id, caller, now);
    EventRepo.RegisterCount(rows, id, caller, now);
    EventRepo.RegisterThenStatus(rows, id, caller, now);
    EventRepo.CancelCount(mid, id, caller);
    EventRepo.CancelThenStatus(mid, id, caller);
  }
}
