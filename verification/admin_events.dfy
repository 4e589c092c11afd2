/**
 * The admin event pages: the list pipeline (the 1000 latest-starting
 * events, then search, type, visibility and time filters, a sort and pages
 * of 20), the multipart create and update forms with their lenient
 * parsing, the image choice of an update, and delete. Parsing a
 * `YYYY-MM-DDTHH:MM` date and saving an upload are parameters: `parseTime`
 * answers None for text it rejects, and the form carries the outcome of
 * the upload (no file, the stored path, or the error text).
 */
module AdminEvents {
  import opened Wrappers
  import opened Text
  import opened Errors
  import opened Domain
  import opened Collections
  import opened Ordering
  import Access
  import AdminMembers
  import EventRepo
  import Settings

  type Events = EventRepo.Events

  /** The listing reads at most this many events, newest start first. */
  const ListCap: nat := AdminMembers.ListCap

  // ---------------------------------------------------------------------------
  // Filtering
  // ---------------------------------------------------------------------------

  datatype EventQuery = EventQuery(q: Option<string>, event_type: Option<string>, visibility: Option<string>,
                                   time: Option<string>, page: Option<int>, sort: Option<string>,
                                   order: Option<string>)

  /** The time filter of a query: "upcoming" unless another is given. */
  function TimeFilter(query: EventQuery): string {
    query.time.GetOr("upcoming")
  }

  /**
   * The rows the page works on: `list(1000, 0)`, the 1000 events that
   * start latest, latest first.
   */
  function Candidates(es: Events): (r: Events)
    ensures |r| == if |es| < ListCap then |es| else ListCap
    ensures forall e :: e in r ==> e in es
    ensures Ranked(es, r, EventRepo.StartKey, true)
  {
    EventRepo.List(es, ListCap, 0)
  }

  /** The lower-cased search text occurs in the lower-cased title, description or location. */
  predicate SearchMatches(e: Event, needle: string) {
    || Contains(Lower(e.title), needle)
    || Contains(Lower(e.description), needle)
    || (e.location.Some? && Contains(Lower(e.location.value), needle))
  }

  /** "upcoming" keeps events starting after now, "past" the others, anything else keeps all. */
  predicate TimeMatches(filter: string, now: Time, e: Event) {
    if filter == "upcoming" then e.start_time > now
    else if filter == "past" then e.start_time <= now
    else true
  }

  /** The list filter: a non-empty criterion must hold; type and visibility compare variant names. */
  predicate Keep(e: Event, needle: string, typeFilter: string, visibilityFilter: string, timeFilter: string, now: Time) {
    && (|needle| == 0 || SearchMatches(e, needle))
    && (|typeFilter| == 0 || EventRepo.EventTypeToStr(e.event_type) == typeFilter)
    && (|visibilityFilter| == 0 || EventRepo.VisibilityToStr(e.visibility) == visibilityFilter)
    && TimeMatches(timeFilter, now, e)
  }

  function Keeping(needle: string, typeFilter: string, visibilityFilter: string, timeFilter: string, now: Time): Event -> bool {
    (e: Event) => Keep(e, needle, typeFilter, visibilityFilter, timeFilter, now)
  }

  /** The filter a query asks for. */
  function QueryFilter(query: EventQuery, now: Time): Event -> bool {
    Keeping(Lower(query.q.GetOr("")), query.event_type.GetOr(""), query.visibility.GetOr(""), TimeFilter(query), now)
  }

  /** The filter step: the candidates kept, in their order. */
  function FilterEvents(es: Events, query: EventQuery, now: Time): (r: Events)
    ensures forall e :: e in r <==> (e in Candidates(es)
                                    && Keep(e, Lower(query.q.GetOr("")), query.event_type.GetOr(""),
                                            query.visibility.GetOr(""), TimeFilter(query), now))
  {
    Filter(Candidates(es), QueryFilter(query, now))
  }

  /**
   * With the other criteria fixed, the upcoming and the past events
   * together are exactly the events any other time filter shows, and no
   * time filter at all means "upcoming".
   */
  lemma UpcomingAndPastPartition(es: Events, query: EventQuery, now: Time, other: string)
    requires other != "upcoming" && other != "past"
    ensures |FilterEvents(es, query.(time := Some("upcoming")), now)| + |FilterEvents(es, query.(time := Some("past")), now)|
            == |FilterEvents(es, query.(time := Some(other)), now)|
    ensures FilterEvents(es, query.(time := None), now) == FilterEvents(es, query.(time := Some("upcoming")), now)
  {
    var needle, ty, vis := Lower(query.q.GetOr("")), query.event_type.GetOr(""), query.visibility.GetOr("");
    FilterPartition(Candidates(es), Keeping(needle, ty, vis, other, now),
                    Keeping(needle, ty, vis, "upcoming", now), Keeping(needle, ty, vis, "past", now));
  }

  /** When the table holds no more than the cap, every event is a candidate. */
  lemma CandidatesCompleteBelowCap(es: Events, e: Event)
    requires |es| <= ListCap
    ensures e in Candidates(es) <==> e in es
  {
    var sorted := SortBy(es, EventRepo.StartKey, true);
    SortByMembers(es, EventRepo.StartKey, true);
    assert Window(sorted, 0, ListCap) == sorted;
  }

  // ---------------------------------------------------------------------------
  // Sorting
  // ---------------------------------------------------------------------------

  /**
   * The key each sort field compares: "title" the lower-cased title,
   * "type" and "visibility" the variant names, anything else the start.
   */
  function SortKey(field: string): Event -> seq<int> {
    (e: Event) =>
      if field == "title" then Codes(Lower(e.title))
      else if field == "type" then Codes(EventRepo.EventTypeToStr(e.event_type))
      else if field == "visibility" then Codes(EventRepo.VisibilityToStr(e.visibility))
      else [e.start_time]
  }

  function SortEvents(es: Events, query: EventQuery): (r: Events)
    ensures multiset(r) == multiset(es)
    ensures Sorted(r, SortKey(query.sort.GetOr("start_time")), AdminMembers.Descending(query.order))
  {
    SortBy(es, SortKey(query.sort.GetOr("start_time")), AdminMembers.Descending(query.order))
  }

  /** By default, and for any unknown field, rows go by start time: ascending unless "desc". */
  lemma StartTimeOrder(es: Events, query: EventQuery, i: int, j: int)
    requires query.sort.GetOr("start_time") !in {"title", "type", "visibility"}
    requires 0 <= i < j < |SortEvents(es, query)|
    ensures var r := SortEvents(es, query);
            if AdminMembers.Descending(query.order) then r[i].start_time >= r[j].start_time
            else r[i].start_time <= r[j].start_time
  {
    var r := SortEvents(es, query);
    var key := SortKey(query.sort.GetOr("start_time"));
    SortedPairs(r, key, AdminMembers.Descending(query.order), i, j);
    assert key(r[i]) == [r[i].start_time] && key(r[j]) == [r[j].start_time];
    assert key(r[i])[1..] == key(r[j])[1..];
  }

  // ---------------------------------------------------------------------------
  // Pages
  // ---------------------------------------------------------------------------

  /** One listed event with its registered attendees and whether it has started. */
  datatype AdminRow = AdminRow(event: Event, attendee_count: nat, is_past: bool)

  datatype EventPage = EventPage(rows: seq<AdminRow>, page: int, total: nat, total_pages: nat)

  /** A listed row: the event's registered attendees, and past once it has started. */
  function RowOf(attendance: EventRepo.Attendances, now: Time, e: Event): (row: AdminRow)
    ensures row.event == e && (row.is_past <==> !EventRepo.IsUpcoming(now, e))
  {
    AdminRow(e, EventRepo.AttendeeCount(attendance, e.id), e.start_time <= now)
  }

  function RowsOf(attendance: EventRepo.Attendances, now: Time, shown: Events): (r: seq<AdminRow>)
    ensures |r| == |shown|
    ensures forall k :: 0 <= k < |r| ==> r[k] == RowOf(attendance, now, shown[k])
  {
    seq(|shown|, k requires 0 <= k < |shown| => RowOf(attendance, now, shown[k]))
  }

  /**
   * `admin_events_page`: an empty page for a non-admin; otherwise filter,
   * sort, then show page `max(1, page or 1)` of 20 rows from offset
   * `(page - 1) * 20`, with the page count rounded up.
   */
  function ListEvents(es: Events, attendance: EventRepo.Attendances, caller: Member, query: EventQuery, now: Time): (r: EventPage)
    ensures !Access.IsAdmin(caller) ==> r == EventPage([], 1, 0, 0)
    ensures r.page >= 1 && (Access.IsAdmin(caller) && query.page.Some? && query.page.value >= 1 ==> r.page == query.page.value)
    ensures Access.IsAdmin(caller) ==> r.total == |FilterEvents(es, query, now)|
    ensures r.total_pages == TotalPages(r.total, AdminMembers.PerPage)
    ensures |r.rows| <= AdminMembers.PerPage
    ensures Access.IsAdmin(caller) ==> r.rows == RowsOf(attendance, now, PageEvents(es, query, now))
  {
    if !Access.IsAdmin(caller) then EventPage([], 1, 0, 0)
    else
      var filtered := FilterEvents(es, query, now);
      EventPage(RowsOf(attendance, now, PageEvents(es, query, now)), PageNumber(query.page.GetOr(1)), |filtered|,
                TotalPages(|filtered|, AdminMembers.PerPage))
  }

  /** The events on the requested page: the window of the filtered, sorted list at the page's offset. */
  function PageEvents(es: Events, query: EventQuery, now: Time): (shown: Events)
    ensures |shown| <= AdminMembers.PerPage
  {
    var sorted := SortEvents(FilterEvents(es, query, now), query);
    Window(sorted, AdminMembers.PageOffset(PageNumber(query.page.GetOr(1))), AdminMembers.PerPage)
  }

  /** Every row shown is an event of the table that passes the filter, and "upcoming" shows no past event. */
  lemma ListedRowsPassFilter(es: Events, attendance: EventRepo.Attendances, caller: Member, query: EventQuery,
                             now: Time, k: nat)
    requires k < |ListEvents(es, attendance, caller, query, now).rows|
    ensures var row := ListEvents(es, attendance, caller, query, now).rows[k];
            && row.event in es
            && Keep(row.event, Lower(query.q.GetOr("")), query.event_type.GetOr(""), query.visibility.GetOr(""),
                    TimeFilter(query), now)
            && (TimeFilter(query) == "upcoming" ==> !row.is_past)
            && (TimeFilter(query) == "past" ==> row.is_past)
  {
    var e := ListedEventAt(es, attendance, caller, query, now, k);
    KeptEvent(es, query, now, e);
  }

  /** The event behind a listed row, among the filtered ones. */
  lemma ListedEventAt(es: Events, attendance: EventRepo.Attendances, caller: Member, query: EventQuery,
                      now: Time, k: nat) returns (e: Event)
    requires k < |ListEvents(es, attendance, caller, query, now).rows|
    ensures e in FilterEvents(es, query, now) && ListEvents(es, attendance, caller, query, now).rows[k] == RowOf(attendance, now, e)
  {
    assert Access.IsAdmin(caller);
    e := ShownAt(es, query, now, k);
  }

  /** An event on the requested page is among the filtered ones. */
  lemma ShownAt(es: Events, query: EventQuery, now: Time, k: nat) returns (e: Event)
    requires k < |PageEvents(es, query, now)|
    ensures e == PageEvents(es, query, now)[k] && e in FilterEvents(es, query, now)
  {
    var filtered := FilterEvents(es, query, now);
    var offset := AdminMembers.PageOffset(PageNumber(query.page.GetOr(1)));
    WindowOfPermutation(filtered, SortEvents(filtered, query), offset, AdminMembers.PerPage, k);
    e := PageEvents(es, query, now)[k];
  }

  /** A filtered event is in the table and passes the query's filter. */
  lemma KeptEvent(es: Events, query: EventQuery, now: Time, e: Event)
    requires e in FilterEvents(es, query, now)
    ensures e in es && TimeMatches(TimeFilter(query), now, e)
    ensures Keep(e, Lower(query.q.GetOr("")), query.event_type.GetOr(""), query.visibility.GetOr(""), TimeFilter(query), now)
  {
    assert e in Candidates(es);
  }


  // ---------------------------------------------------------------------------
  // Form parsing
  // ---------------------------------------------------------------------------

  /** The form's event type: five names are recognised; anything else, "Hackathon" included, is a Meeting. */
  function FormEventType(s: string): (t: EventType)
    ensures t != Hackathon
  {
    if s == "Workshop" then Workshop
    else if s == "CTF" then CTF
    else if s == "Social" then Social
    else if s == "Training" then Training
    else EventType.Meeting
  }

  /** Every type but Hackathon survives the form by its name; unknown text falls back to Meeting. */
  lemma FormEventTypeRoundTrip(t: EventType, s: string)
    ensures t != Hackathon ==> FormEventType(EventRepo.EventTypeToStr(t)) == t
    ensures (forall u: EventType :: u != Hackathon ==> EventRepo.EventTypeToStr(u) != s) ==> FormEventType(s) == EventType.Meeting
  {
    if FormEventType(s) != EventType.Meeting {
      assert EventRepo.EventTypeToStr(FormEventType(s)) == s;
    }
  }

  /** The form's visibility: the three names, and MembersOnly for anything else. */
  function FormVisibility(s: string): EventVisibility {
    if s == "Public" then Public
    else if s == "AdminOnly" then AdminOnly
    else MembersOnly
  }

  lemma FormVisibilityRoundTrip(v: EventVisibility, s: string)
    ensures FormVisibility(EventRepo.VisibilityToStr(v)) == v
    ensures s != "Public" && s != "AdminOnly" ==> FormVisibility(s) == MembersOnly
    ensures FormVisibility(s) != MembersOnly ==> EventRepo.VisibilityToStr(FormVisibility(s)) == s
  {
  }

  /** `str::parse::<i32>`: an optional sign and digits whose value fits in 32 bits. */
  function ParseI32(s: string): (r: Option<int>)
    ensures r.Some? ==> I32Min <= r.value <= I32Max
    ensures |s| == 0 ==> r.None?
  {
    Settings.ParseInt(s, I32Min, I32Max)
  }

  /** `if text.is_empty() { None } else { Some(text) }`. */
  function NonEmptyText(text: string): (r: Option<string>)
    ensures r.None? <==> |text| == 0
    ensures r.Some? ==> r.value == text
  {
    if |text| == 0 then None else Some(text)
  }

  /**
   * The fields of the create and update forms, as read: a missing text
   * field is empty; `max_attendees` is None when the field is absent;
   * `image` is None when no non-empty file was sent, and otherwise the
   * upload's outcome.
   */
  datatype EventForm = EventForm(
    title: string,
    description: string,
    event_type: string,
    visibility: string,
    start_time: string,
    end_time: string,
    location: string,
    max_attendees: Option<string>,
    rsvp_required: bool,
    image: Option<Result<string, string>>,
    remove_image: bool)

  /** What a form handler answers instead of doing its work: a message, or a repository error under a heading. */
  datatype AdminError = Shown(text: string) | Wrapped(heading: string, cause: AppError)

  const AccessDenied := Shown("Access denied")
  const InvalidStart := Shown("Invalid start time")

  predicate UploadFailed(form: EventForm) {
    form.image.Some? && form.image.value.Failure?
  }

  function UploadError(form: EventForm): AdminError
    requires UploadFailed(form)
  {
    Shown("Error uploading image: " + form.image.value.error)
  }

  /** The path of a stored upload, if one was stored. */
  function UploadedPath(form: EventForm): (p: Option<string>)
    ensures p.Some? <==> form.image.Some? && form.image.value.Success?
  {
    if form.image.Some? && form.image.value.Success? then Some(form.image.value.value) else None
  }

  /**
   * The columns an event takes from a form with a parsable start: the text
   * fields as typed, an empty end as no end, an empty location as none, an
   * absent or unparsable capacity as none, and the checkbox as sent.
   */
  predicate FormFields(e: Event, form: EventForm, parseTime: string -> Option<Time>)
    requires parseTime(form.start_time).Some?
  {
    && e.title == form.title && e.description == form.description
    && e.event_type == FormEventType(form.event_type) && e.visibility == FormVisibility(form.visibility)
    && e.start_time == parseTime(form.start_time).value
    && e.end_time == (if |form.end_time| == 0 then None else parseTime(form.end_time))
    && e.location == NonEmptyText(form.location)
    && e.max_attendees == (if form.max_attendees.Some? then ParseI32(form.max_attendees.value) else None)
    && e.rsvp_required == form.rsvp_required
  }

  /**
   * The event a form describes, around the identity fields the handler
   * supplies. An unparsable start is an error; an unparsable end, an empty
   * location and an unparsable capacity are silently None.
   */
  function FromForm(form: EventForm, parseTime: string -> Option<Time>, id: Id, eventTypeId: Option<Id>,
                    image: Option<string>, createdBy: Id, createdAt: Time, now: Time): (r: Result<Event, AdminError>)
    ensures r.Failure? <==> parseTime(form.start_time).None?
    ensures r.Failure? ==> r.error == InvalidStart
    ensures r.Success? ==> var e := r.value;
              && e.id == id && e.event_type_id == eventTypeId && e.image_url == image
              && e.created_by == createdBy && e.created_at == createdAt && e.updated_at == now
              && e.title == form.title && e.description == form.description
              && e.event_type == FormEventType(form.event_type) && e.visibility == FormVisibility(form.visibility)
              && e.start_time == parseTime(form.start_time).value
              && (e.end_time.Some? ==> |form.end_time| > 0 && parseTime(form.end_time) == e.end_time)
              && (|form.end_time| > 0 ==> e.end_time == parseTime(form.end_time))
              && e.location == NonEmptyText(form.location)
              && (e.max_attendees.Some? ==> form.max_attendees.Some? && ParseI32(form.max_attendees.value) == e.max_attendees)
              && e.rsvp_required == form.rsvp_required
  {
    match parseTime(form.start_time)
    case None => Failure(InvalidStart)
    case Some(start) =>
      var end := if |form.end_time| == 0 then None else parseTime(form.end_time);
      var capacity := if form.max_attendees.Some? then ParseI32(form.max_attendees.value) else None;
      Success(Event(id, form.title, form.description, FormEventType(form.event_type), eventTypeId,
                    FormVisibility(form.visibility), start, end, NonEmptyText(form.location), capacity,
                    form.rsvp_required, image, createdBy, createdAt, now))
  }

  // ---------------------------------------------------------------------------
  // Create, update, delete
  // ---------------------------------------------------------------------------

  /**
   * `admin_create_event`: admins only; an upload error is reported while
   * the form is read, before the start is checked; the new event has no
   * type id and is owned by the caller.
   */
  function Create(es: Events, caller: Member, form: EventForm, parseTime: string -> Option<Time>, id: Id, now: Time)
    : (r: Result<(Events, Event), AdminError>)
    ensures !Access.IsAdmin(caller) ==> r == Failure(AccessDenied)
    ensures Access.IsAdmin(caller) && UploadFailed(form) ==> r == Failure(UploadError(form))
    ensures Access.IsAdmin(caller) && !UploadFailed(form) && parseTime(form.start_time).None? ==> r == Failure(InvalidStart)
    ensures r.Success? ==> Access.IsAdmin(caller) && !UploadFailed(form) && parseTime(form.start_time).Some?
    ensures r.Success? ==> var e := r.value.1;
              && r.value.0 == es + [e]
              && e.id == id && e.created_by == caller.id && e.event_type_id.None?
              && e.image_url == UploadedPath(form) && e.event_type != Hackathon
              && e.created_at == now && e.updated_at == now
  {
    if !Access.IsAdmin(caller) then Failure(AccessDenied)
    else if UploadFailed(form) then Failure(UploadError(form))
    else
      match FromForm(form, parseTime, id, None, UploadedPath(form), caller.id, now, now)
      case Failure(err) => Failure(err)
      case Success(e) =>
        match EventRepo.Create(es, e, now)
        case Failure(err) => Failure(Wrapped("Error creating event", err))
        case Success(created) => Success(created)
  }

  /** A created event is found under its id with the form's start. */
  lemma CreateThenFind(es: Events, caller: Member, form: EventForm, parseTime: string -> Option<Time>, id: Id, now: Time)
    requires Create(es, caller, form, parseTime, id, now).Success?
    ensures var (after, e) := Create(es, caller, form, parseTime, id, now).value;
            EventRepo.FindById(after, id) == Some(e) && e.start_time == parseTime(form.start_time).value
  {
    var e := FromForm(form, parseTime, id, None, UploadedPath(form), caller.id, now, now).value;
    EventRepo.CreateThenFind(es, e, now);
  }

  /** The image after an update: a new upload, else nothing when removal is asked, else the old one. */
  function ChooseImage(upload: Option<string>, remove: bool, existing: Option<string>): (r: Option<string>)
    ensures upload.Some? ==> r == upload
    ensures upload.None? ==> r == (if remove then None else existing)
  {
    if upload.Some? then upload else if remove then None else existing
  }

  /** The chosen image is one of the inputs, and it is absent exactly when nothing supplies one. */
  lemma ChooseImageCases(upload: Option<string>, remove: bool, existing: Option<string>)
    ensures var r := ChooseImage(upload, remove, existing);
            && (r == upload || r == existing || r.None?)
            && (r.None? <==> upload.None? && (remove || existing.None?))
            && (r != existing ==> upload.Some? || remove)
  {
  }

  /**
   * `admin_update_event`: admins only; an unparsable id, a missing event,
   * an upload error and an unparsable start are reported in that order;
   * the event is rebuilt from the form around the stored id, type id,
   * creator and creation time.
   */
  function Update(es: Events, caller: Member, id: Option<Id>, form: EventForm, parseTime: string -> Option<Time>, now: Time)
    : (r: Result<(Events, Event), AdminError>)
    ensures !Access.IsAdmin(caller) ==> r == Failure(AccessDenied)
    ensures Access.IsAdmin(caller) && id.None? ==> r == Failure(Shown("Invalid event ID"))
    ensures Access.IsAdmin(caller) && id.Some? && EventRepo.FindById(es, id.value).None? ==> r == Failure(Shown("Event not found"))
    ensures r.Success? <==> && Access.IsAdmin(caller) && id.Some? && EventRepo.FindById(es, id.value).Some?
                            && !UploadFailed(form) && parseTime(form.start_time).Some?
    ensures r.Success? ==> var old_ := EventRepo.FindById(es, id.value).value;
              var e := r.value.1;
              && FormFields(e, form, parseTime)
              && e.image_url == ChooseImage(UploadedPath(form), form.remove_image, old_.image_url)
              && e.id == old_.id && e.event_type_id == old_.event_type_id
              && e.created_by == old_.created_by && e.created_at == old_.created_at && e.updated_at == now
    ensures r.Success? ==> |r.value.0| == |es| && forall i :: 0 <= i < |es| ==>
              r.value.0[i] == if es[i].id == id.value
                              then r.value.1.(created_by := es[i].created_by, created_at := es[i].created_at)
                              else es[i]
  {
    if !Access.IsAdmin(caller) then Failure(AccessDenied)
    else if id.None? then Failure(Shown("Invalid event ID"))
    else
      match EventRepo.FindById(es, id.value)
      case None => Failure(Shown("Event not found"))
      case Some(existing) =>
        if UploadFailed(form) then Failure(UploadError(form))
        else
          var image := ChooseImage(UploadedPath(form), form.remove_image, existing.image_url);
          match FromForm(form, parseTime, id.value, existing.event_type_id, image, existing.created_by, existing.created_at, now)
          case Failure(err) => Failure(err)
          case Success(e) =>
            match EventRepo.Update(es, id.value, e, now)
            case Failure(err) => Failure(Wrapped("Error updating event", err))
            case Success(updated) => Success(updated)
  }

  /**
   * An update keeps the event's id, type id, creator and creation time,
   * and the stored row is the one returned.
   */
  lemma UpdatePreserves(es: Events, caller: Member, id: Option<Id>, form: EventForm, parseTime: string -> Option<Time>, now: Time)
    requires Update(es, caller, id, form, parseTime, now).Success?
    ensures var existing := EventRepo.FindById(es, id.value).value;
            var (after, e) := Update(es, caller, id, form, parseTime, now).value;
            && EventRepo.FindById(after, id.value) == Some(e)
            && e.id == existing.id && e.event_type_id == existing.event_type_id
            && e.created_by == existing.created_by && e.created_at == existing.created_at
            && e.updated_at == now
  {
    var existing := EventRepo.FindById(es, id.value).value;
    var image := ChooseImage(UploadedPath(form), form.remove_image, existing.image_url);
    var e := FromForm(form, parseTime, id.value, existing.event_type_id, image, existing.created_by, existing.created_at, now).value;
    EventRepo.UpdateThenFind(es, id.value, e, now);
  }

  /** `admin_delete_event`: admins only, and the id must parse; a missing event is not an error. */
  function Delete(es: Events, caller: Member, id: Option<Id>): (r: Result<Events, AdminError>)
    ensures r.Success? <==> Access.IsAdmin(caller) && id.Some?
    ensures !Access.IsAdmin(caller) ==> r == Failure(AccessDenied)
    ensures Access.IsAdmin(caller) && id.None? ==> r == Failure(Shown("Invalid event ID"))
    ensures r.Success? ==> forall e :: e in r.value <==> e in es && e.id != id.value
  {
    if !Access.IsAdmin(caller) then Failure(AccessDenied)
    else if id.None? then Failure(Shown("Invalid event ID"))
    else Success(EventRepo.Delete(es, id.value))
  }
}
