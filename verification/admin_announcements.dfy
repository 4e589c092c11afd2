/**
 * The admin announcement pages: the list pipeline (the 1000 newest
 * announcements, then search, type and status filters, a sort and pages of
 * 20 with a content preview), the detail page, the multipart create and
 * update forms, publish, unpublish and delete. Saving an upload is a
 * parameter: the form carries its outcome.
 */
module AdminAnnouncements {
  import opened Wrappers
  import opened Text
  import opened Errors
  import opened Domain
  import opened Collections
  import opened Ordering
  import Access
  import AdminMembers
  import AdminEvents
  import AnnouncementRepo

  type Announcements = AnnouncementRepo.Announcements
  type AdminError = AdminEvents.AdminError

  // ---------------------------------------------------------------------------
  // Filtering
  // ---------------------------------------------------------------------------

  datatype AnnouncementQuery = AnnouncementQuery(q: Option<string>, announcement_type: Option<string>,
                                                 status: Option<string>, page: Option<int>,
                                                 sort: Option<string>, order: Option<string>)

  /**
   * The rows the page works on: `list(1000, 0)`, the 1000 most recently
   * created announcements, newest first.
   */
  function Candidates(anns: Announcements): (r: Announcements)
    ensures |r| == if |anns| < AdminEvents.ListCap then |anns| else AdminEvents.ListCap
    ensures forall a :: a in r ==> a in anns
    ensures Ranked(anns, r, AnnouncementRepo.CreatedKey, true)
  {
    AnnouncementRepo.List(anns, AdminEvents.ListCap, 0)
  }

  /** When the table holds no more than the cap, every announcement is a candidate. */
  lemma CandidatesCompleteBelowCap(anns: Announcements, a: Announcement)
    requires |anns| <= AdminEvents.ListCap
    ensures a in Candidates(anns) <==> a in anns
  {
    var sorted := SortBy(anns, AnnouncementRepo.CreatedKey, true);
    SortByMembers(anns, AnnouncementRepo.CreatedKey, true);
    assert Window(sorted, 0, AdminEvents.ListCap) == sorted;
  }

  /** "published", "draft", "featured" and "public" each test one thing; any other status keeps everything. */
  predicate StatusMatches(status: string, a: Announcement) {
    if status == "published" then a.published_at.Some?
    else if status == "draft" then a.published_at.None?
    else if status == "featured" then a.featured
    else if status == "public" then a.is_public
    else true
  }

  /** The list filter: the search looks at title and content; the type filter compares variant names. */
  predicate Keep(a: Announcement, needle: string, typeFilter: string, status: string) {
    && (|needle| == 0 || Contains(Lower(a.title), needle) || Contains(Lower(a.content), needle))
    && (|typeFilter| == 0 || AnnouncementRepo.TypeToStr(a.announcement_type) == typeFilter)
    && StatusMatches(status, a)
  }

  function Keeping(needle: string, typeFilter: string, status: string): Announcement -> bool {
    (a: Announcement) => Keep(a, needle, typeFilter, status)
  }

  function FilterAnnouncements(anns: Announcements, query: AnnouncementQuery): (r: Announcements)
    ensures forall a :: a in r <==> (a in Candidates(anns)
                                    && Keep(a, Lower(query.q.GetOr("")), query.announcement_type.GetOr(""),
                                            query.status.GetOr("")))
  {
    Filter(Candidates(anns), Keeping(Lower(query.q.GetOr("")), query.announcement_type.GetOr(""), query.status.GetOr("")))
  }

  /**
   * With the other criteria fixed, the published and the draft
   * announcements together are exactly what an unknown status shows.
   */
  lemma PublishedAndDraftPartition(anns: Announcements, query: AnnouncementQuery, other: string)
    requires other !in {"published", "draft", "featured", "public"}
    ensures |FilterAnnouncements(anns, query.(status := Some("published")))|
            + |FilterAnnouncements(anns, query.(status := Some("draft")))|
            == |FilterAnnouncements(anns, query.(status := Some(other)))|
    ensures FilterAnnouncements(anns, query.(status := Some(other))) == FilterAnnouncements(anns, query.(status := None))
  {
    var needle, ty := Lower(query.q.GetOr("")), query.announcement_type.GetOr("");
    FilterPartition(Candidates(anns), Keeping(needle, ty, other),
                    Keeping(needle, ty, "published"), Keeping(needle, ty, "draft"));
    assert forall a :: Keeping(needle, ty, other)(a) == Keeping(needle, ty, "")(a);
    FilterCongruent(Candidates(anns), Keeping(needle, ty, other), Keeping(needle, ty, ""));
  }

  // ---------------------------------------------------------------------------
  // Sorting
  // ---------------------------------------------------------------------------

  /** Sort direction: ascending only for exactly "asc"; the default is descending. */
  function Ascending(order: Option<string>): bool {
    order.GetOr("desc") == "asc"
  }

  /** `Option` ordering: absent before present, present values by value. */
  function PublishedAtKey(published: Option<Time>): seq<int> {
    match published
    case None => [0]
    case Some(t) => [1, t]
  }

  predicate OptionBefore(a: Option<Time>, b: Option<Time>) {
    match (a, b)
    case (None, _) => true
    case (Some(_), None) => false
    case (Some(x), Some(y)) => x <= y
  }

  /** The key orders exactly as Rust orders `Option<DateTime>`. */
  lemma PublishedAtKeyOrder(a: Option<Time>, b: Option<Time>)
    ensures LexCmp(PublishedAtKey(a), PublishedAtKey(b)) <= 0 <==> OptionBefore(a, b)
  {
    if a.Some? && b.Some? {
      assert PublishedAtKey(a)[1..] == [a.value] && PublishedAtKey(b)[1..] == [b.value];
      assert LexCmp([a.value], [b.value]) == LexCmp([], []) || a.value != b.value;
    } else if a.None? && b.None? {
      assert PublishedAtKey(a)[1..] == PublishedAtKey(b)[1..];
    }
  }

  /**
   * The key each sort field compares: "title" the lower-cased title,
   * "type" the variant name, "published_at" the optional publication time,
   * anything else the creation time.
   */
  function SortKey(field: string): Announcement -> seq<int> {
    (a: Announcement) =>
      if field == "title" then Codes(Lower(a.title))
      else if field == "type" then Codes(AnnouncementRepo.TypeToStr(a.announcement_type))
      else if field == "published_at" then PublishedAtKey(a.published_at)
      else [a.created_at]
  }

  function SortAnnouncements(anns: Announcements, query: AnnouncementQuery): (r: Announcements)
    ensures multiset(r) == multiset(anns)
    ensures Sorted(r, SortKey(query.sort.GetOr("created_at")), !Ascending(query.order))
  {
    SortBy(anns, SortKey(query.sort.GetOr("created_at")), !Ascending(query.order))
  }

  /**
   * Sorting by publication: ascending puts drafts first and then the
   * published ones oldest first; every other order reverses that.
   */
  lemma PublishedSortOrder(anns: Announcements, query: AnnouncementQuery, i: int, j: int)
    requires query.sort == Some("published_at")
    requires 0 <= i < j < |SortAnnouncements(anns, query)|
    ensures var r := SortAnnouncements(anns, query);
            if Ascending(query.order) then OptionBefore(r[i].published_at, r[j].published_at)
            else OptionBefore(r[j].published_at, r[i].published_at)
  {
    var r := SortAnnouncements(anns, query);
    SortedPairs(r, SortKey("published_at"), !Ascending(query.order), i, j);
    PublishedAtKeyOrder(r[i].published_at, r[j].published_at);
    PublishedAtKeyOrder(r[j].published_at, r[i].published_at);
  }

  /** By default rows go newest created first. */
  lemma DefaultNewestFirst(anns: Announcements, query: AnnouncementQuery, i: int, j: int)
    requires query.sort.None? && query.order.None?
    requires 0 <= i < j < |SortAnnouncements(anns, query)|
    ensures var r := SortAnnouncements(anns, query);
            r[i].created_at >= r[j].created_at
  {
    var r := SortAnnouncements(anns, query);
    var key := SortKey("created_at");
    SortedPairs(r, key, true, i, j);
    assert key(r[i]) == [r[i].created_at] && key(r[j]) == [r[j].created_at];
    assert key(r[i])[1..] == key(r[j])[1..];
  }

  // ---------------------------------------------------------------------------
  // Content preview
  // ---------------------------------------------------------------------------

  /** The preview budget, in bytes. */
  const PreviewBytes: nat := 100

  /**
   * The preview as the page computes it: content over 100 bytes is cut to
   * its first 100 bytes and marked "..."; None stands for the panic of
   * slicing a string inside a character.
   */
  function PreviewAsWritten(content: string): (r: Option<string>)
    ensures ByteLen(content) <= PreviewBytes ==> r == Some(content)
    ensures r.None? <==> ByteLen(content) > PreviewBytes && !IsCharBoundary(content, PreviewBytes)
    ensures r.Some? && ByteLen(content) > PreviewBytes ==>
              exists k :: 0 <= k <= |content| && ByteLen(content[..k]) == PreviewBytes && r.value == content[..k] + "..."
  {
    if ByteLen(content) <= PreviewBytes then Some(content)
    else if IsCharBoundary(content, PreviewBytes) then
      BoundaryAtFit(content, PreviewBytes);
      Some(content[..FitChars(content, PreviewBytes)] + "...")
    else None
  }

  /** All-ASCII text takes one byte per character. */
  lemma {:induction false} AsciiByteLen(s: string)
    requires forall i :: 0 <= i < |s| ==> s[i] as int < 0x80
    ensures ByteLen(s) == |s|
  {
    if |s| > 0 {
      AsciiByteLen(s[1..]);
    }
  }

  /** 99 ASCII letters and two accented letters: byte 100 falls inside the first accented letter. */
  function NinetyNineAndTwoAccents(): string {
    seq(99, _ => 'a') + ['\U{E9}', '\U{E9}']
  }

  /** The page panics on that content. */
  lemma PreviewPanics()
    ensures PreviewAsWritten(NinetyNineAndTwoAccents()).None?
  {
    AccentPrefixLengths();
    InsideCharNoBoundary(NinetyNineAndTwoAccents(), 99, PreviewBytes);
  }

  /** The 99 letters take 99 bytes; the first accented letter brings the count to 101. */
  lemma AccentPrefixLengths()
    ensures ByteLen(NinetyNineAndTwoAccents()[..99]) == 99
    ensures ByteLen(NinetyNineAndTwoAccents()[..100]) == 101
  {
    var s := NinetyNineAndTwoAccents();
    var ascii := seq(99, _ => 'a');
    AsciiByteLen(ascii);
    assert s[..99] == ascii;
    assert s[..100] == ascii + ['\U{E9}'];
    ByteLenConcat(ascii, ['\U{E9}']);
  }

  /**
   * The preview as evidently intended: content over 100 bytes is cut at
   * the last character boundary within 100 bytes and marked "...".
   */
  function Preview(content: string): (r: string)
    ensures ByteLen(content) <= PreviewBytes ==> r == content
    ensures ByteLen(content) > PreviewBytes ==>
              var k := FitChars(content, PreviewBytes);
              && r == content[..k] + "..."
              && ByteLen(content[..k]) <= PreviewBytes
              && ByteLen(content[..k + 1]) > PreviewBytes
  {
    if ByteLen(content) <= PreviewBytes then content
    else
      assert content[..|content|] == content;
      content[..FitChars(content, PreviewBytes)] + "..."
  }

  /** Wherever the page does not panic, the corrected preview shows the same text. */
  lemma PreviewAgrees(content: string)
    requires PreviewAsWritten(content).Some?
    ensures Preview(content) == PreviewAsWritten(content).value
  {
    if ByteLen(content) > PreviewBytes {
      BoundaryAtFit(content, PreviewBytes);
    }
  }

  // ---------------------------------------------------------------------------
  // Pages
  // ---------------------------------------------------------------------------

  datatype AdminRow = AdminRow(announcement: Announcement, content_preview: string, is_published: bool)

  datatype AnnouncementPage = AnnouncementPage(rows: seq<AdminRow>, page: int, total: nat, total_pages: nat)

  function RowOf(a: Announcement): (row: AdminRow)
    ensures row.announcement == a && (row.is_published <==> AnnouncementRepo.IsPublished(a))
  {
    AdminRow(a, Preview(a.content), a.published_at.Some?)
  }

  function RowsOf(shown: Announcements): (r: seq<AdminRow>)
    ensures |r| == |shown|
    ensures forall k :: 0 <= k < |r| ==> r[k] == RowOf(shown[k])
  {
    seq(|shown|, k requires 0 <= k < |shown| => RowOf(shown[k]))
  }

  /**
   * `admin_announcements_page`: an empty page for a non-admin; otherwise
   * filter, sort, then show page `max(1, page or 1)` of 20 rows from offset
   * `(page - 1) * 20`, with the page count rounded up.
   */
  function ListAnnouncements(anns: Announcements, caller: Member, query: AnnouncementQuery): (r: AnnouncementPage)
    ensures !Access.IsAdmin(caller) ==> r == AnnouncementPage([], 1, 0, 0)
    ensures r.page >= 1 && (Access.IsAdmin(caller) && query.page.Some? && query.page.value >= 1 ==> r.page == query.page.value)
    ensures Access.IsAdmin(caller) ==> r.total == |FilterAnnouncements(anns, query)|
    ensures r.total_pages == TotalPages(r.total, AdminMembers.PerPage)
    ensures |r.rows| <= AdminMembers.PerPage
    ensures Access.IsAdmin(caller) ==> r.rows == RowsOf(PageAnnouncements(anns, query))
  {
    if !Access.IsAdmin(caller) then AnnouncementPage([], 1, 0, 0)
    else
      var filtered := FilterAnnouncements(anns, query);
      AnnouncementPage(RowsOf(PageAnnouncements(anns, query)), PageNumber(query.page.GetOr(1)), |filtered|,
                       TotalPages(|filtered|, AdminMembers.PerPage))
  }

  /** The announcements on the requested page: the window of the filtered, sorted list at the page's offset. */
  function PageAnnouncements(anns: Announcements, query: AnnouncementQuery): (shown: Announcements)
    ensures |shown| <= AdminMembers.PerPage
  {
    var sorted := SortAnnouncements(FilterAnnouncements(anns, query), query);
    Window(sorted, AdminMembers.PageOffset(PageNumber(query.page.GetOr(1))), AdminMembers.PerPage)
  }

  /** The "draft" status lists drafts only, and "published" published ones only. */
  lemma ListedRowsMatchStatus(anns: Announcements, caller: Member, query: AnnouncementQuery, k: nat)
    requires k < |ListAnnouncements(anns, caller, query).rows|
    ensures var row := ListAnnouncements(anns, caller, query).rows[k];
            && row.announcement in anns
            && StatusMatches(query.status.GetOr(""), row.announcement)
            && (query.status == Some("draft") ==> !row.is_published)
            && (query.status == Some("published") ==> row.is_published)
  {
    var a := ListedAnnouncementAt(anns, caller, query, k);
    KeptAnnouncement(anns, query, a);
  }

  /** The announcement behind a listed row, among the filtered ones. */
  lemma ListedAnnouncementAt(anns: Announcements, caller: Member, query: AnnouncementQuery, k: nat) returns (a: Announcement)
    requires k < |ListAnnouncements(anns, caller, query).rows|
    ensures a in FilterAnnouncements(anns, query) && ListAnnouncements(anns, caller, query).rows[k] == RowOf(a)
  {
    assert Access.IsAdmin(caller);
    a := ShownAt(anns, query, k);
  }

  /** An announcement on the requested page is among the filtered ones. */
  lemma ShownAt(anns: Announcements, query: AnnouncementQuery, k: nat) returns (a: Announcement)
    requires k < |PageAnnouncements(anns, query)|
    ensures a == PageAnnouncements(anns, query)[k] && a in FilterAnnouncements(anns, query)
  {
    var filtered := FilterAnnouncements(anns, query);
    var offset := AdminMembers.PageOffset(PageNumber(query.page.GetOr(1)));
    WindowOfPermutation(filtered, SortAnnouncements(filtered, query), offset, AdminMembers.PerPage, k);
    a := PageAnnouncements(anns, query)[k];
  }


  /** A filtered announcement is in the table and matches the status filter. */
  lemma KeptAnnouncement(anns: Announcements, query: AnnouncementQuery, a: Announcement)
    requires a in FilterAnnouncements(anns, query)
    ensures a in anns && StatusMatches(query.status.GetOr(""), a)
  {
    assert a in Candidates(anns);
  }


  // ---------------------------------------------------------------------------
  // Detail, create, update
  // ---------------------------------------------------------------------------

  /** `admin_announcement_detail_page`: admins only; the id must parse and name an announcement. */
  function Detail(anns: Announcements, caller: Member, id: Option<Id>): (r: Result<Announcement, AdminError>)
    ensures !Access.IsAdmin(caller) ==> r == Failure(AdminEvents.AccessDenied)
    ensures r.Success? <==> Access.IsAdmin(caller) && id.Some? && AnnouncementRepo.FindById(anns, id.value).Some?
    ensures r.Success? ==> r.value in anns && r.value.id == id.value
  {
    Existing(anns, caller, id)
  }

  /** The checks publish, unpublish, update and the detail page share: admin, a parsable id, an existing row. */
  function Existing(anns: Announcements, caller: Member, id: Option<Id>): (r: Result<Announcement, AdminError>)
    ensures !Access.IsAdmin(caller) ==> r == Failure(AdminEvents.AccessDenied)
    ensures Access.IsAdmin(caller) && id.None? ==> r == Failure(AdminEvents.Shown("Invalid announcement ID"))
    ensures Access.IsAdmin(caller) && id.Some? && AnnouncementRepo.FindById(anns, id.value).None? ==>
              r == Failure(AdminEvents.Shown("Announcement not found"))
    ensures r.Success? <==> Access.IsAdmin(caller) && id.Some? && AnnouncementRepo.FindById(anns, id.value).Some?
    ensures r.Success? ==> AnnouncementRepo.FindById(anns, id.value) == Some(r.value)
  {
    if !Access.IsAdmin(caller) then Failure(AdminEvents.AccessDenied)
    else if id.None? then Failure(AdminEvents.Shown("Invalid announcement ID"))
    else
      match AnnouncementRepo.FindById(anns, id.value)
      case None => Failure(AdminEvents.Shown("Announcement not found"))
      case Some(a) => Success(a)
  }

  /** The form's type: the five names, and General for anything else. */
  function FormType(s: string): AnnouncementType {
    if s == "News" then News
    else if s == "Achievement" then Achievement
    else if s == "Meeting" then AnnouncementType.Meeting
    else if s == "CTFResult" then CTFResult
    else General
  }

  lemma FormTypeRoundTrip(t: AnnouncementType, s: string)
    ensures FormType(AnnouncementRepo.TypeToStr(t)) == t
    ensures (forall u: AnnouncementType :: AnnouncementRepo.TypeToStr(u) != s) ==> FormType(s) == General
  {
    if FormType(s) != General {
      assert AnnouncementRepo.TypeToStr(FormType(s)) == s;
    }
  }

  /** The fields of the create and update forms; a missing text field is empty, a missing flag false. */
  datatype AnnouncementForm = AnnouncementForm(
    title: string,
    content: string,
    announcement_type: string,
    is_public: bool,
    featured: bool,
    publish_now: bool,
    image: Option<Result<string, string>>,
    remove_image: bool)

  predicate UploadFailed(form: AnnouncementForm) {
    form.image.Some? && form.image.value.Failure?
  }

  function UploadedPath(form: AnnouncementForm): (p: Option<string>)
    ensures p.Some? <==> form.image.Some? && form.image.value.Success?
  {
    if form.image.Some? && form.image.value.Success? then Some(form.image.value.value) else None
  }

  /**
   * `admin_create_event`'s counterpart for announcements: admins only; an
   * upload error comes first; published now exactly when asked, with no
   * type id, owned by the caller.
   */
  function Create(anns: Announcements, caller: Member, form: AnnouncementForm, id: Id, now: Time)
    : (r: Result<(Announcements, Announcement), AdminError>)
    ensures !Access.IsAdmin(caller) ==> r == Failure(AdminEvents.AccessDenied)
    ensures Access.IsAdmin(caller) && UploadFailed(form) ==>
              r == Failure(AdminEvents.Shown("Error uploading image: " + form.image.value.error))
    ensures r.Success? ==> Access.IsAdmin(caller) && !UploadFailed(form)
    ensures r.Success? ==> var a := r.value.1;
              && r.value.0 == anns + [a]
              && (a.published_at.Some? <==> form.publish_now)
              && (a.published_at.Some? ==> a.published_at.value == now)
              && a.id == id && a.created_by == caller.id && a.announcement_type_id.None?
              && a.announcement_type == FormType(form.announcement_type)
              && a.title == form.title && a.content == form.content
              && a.is_public == form.is_public && a.featured == form.featured
  {
    if !Access.IsAdmin(caller) then Failure(AdminEvents.AccessDenied)
    else if UploadFailed(form) then Failure(AdminEvents.Shown("Error uploading image: " + form.image.value.error))
    else
      var a := Announcement(id, form.title, form.content, FormType(form.announcement_type), None,
                            form.is_public, form.featured, UploadedPath(form),
                            if form.publish_now then Some(now) else None, caller.id, now, now);
      match AnnouncementRepo.Create(anns, a, now)
      case Failure(err) => Failure(AdminEvents.Wrapped("Error creating announcement", err))
      case Success(created) => Success(created)
  }

  /** The record the edit form builds from the stored announcement: form text and flags, the chosen image, the stored rest. */
  function Edited(existing: Announcement, id: Id, form: AnnouncementForm, now: Time): (a: Announcement)
    ensures a.id == id && a.title == form.title && a.content == form.content
    ensures a.announcement_type == FormType(form.announcement_type)
    ensures a.is_public == form.is_public && a.featured == form.featured
    ensures a.image_url == AdminEvents.ChooseImage(UploadedPath(form), form.remove_image, existing.image_url)
    ensures a.published_at == existing.published_at && a.announcement_type_id == existing.announcement_type_id
    ensures a.created_by == existing.created_by && a.created_at == existing.created_at && a.updated_at == now
  {
    Announcement(id, form.title, form.content, FormType(form.announcement_type),
                 existing.announcement_type_id, form.is_public, form.featured,
                 AdminEvents.ChooseImage(UploadedPath(form), form.remove_image, existing.image_url),
                 existing.published_at, existing.created_by, existing.created_at, now)
  }

  /**
   * `admin_update_announcement` as written: the lookup errors, then an
   * upload error; otherwise the edited record goes through the repository's
   * `update`, whose SET list has no `image_url`, so the chosen image is not
   * stored and the row keeps the image it had.
   */
  function UpdateAsWritten(anns: Announcements, caller: Member, id: Option<Id>, form: AnnouncementForm, now: Time)
    : (r: Result<(Announcements, Announcement), AdminError>)
    ensures Existing(anns, caller, id).Failure? ==> r == Failure(Existing(anns, caller, id).error)
    ensures Existing(anns, caller, id).Success? && UploadFailed(form) ==>
              r == Failure(AdminEvents.Shown("Error uploading image: " + form.image.value.error))
    ensures r.Success? <==> Existing(anns, caller, id).Success? && !UploadFailed(form)
    ensures r.Success? ==> r.value.1.image_url == Existing(anns, caller, id).value.image_url
    ensures r.Success? ==> |r.value.0| == |anns| && forall i :: 0 <= i < |anns| ==>
              r.value.0[i] == if anns[i].id == id.value
                              then AnnouncementRepo.Overwrite(anns[i], Edited(Existing(anns, caller, id).value, id.value, form, now), now)
                              else anns[i]
  {
    match Existing(anns, caller, id)
    case Failure(err) => Failure(err)
    case Success(existing) =>
      if UploadFailed(form) then Failure(AdminEvents.Shown("Error uploading image: " + form.image.value.error))
      else
        match AnnouncementRepo.Update(anns, id.value, Edited(existing, id.value, form, now), now)
        case Failure(err) => Failure(AdminEvents.Wrapped("Error updating announcement", err))
        case Success(updated) => Success(updated)
  }

  /**
   * An edit that uploads a new image, as written, returns and stores the
   * old image instead of the upload.
   */
  lemma UploadedImageDropped(anns: Announcements, caller: Member, id: Id, form: AnnouncementForm, now: Time, path: string)
    requires Access.IsAdmin(caller) && AnnouncementRepo.FindById(anns, id).Some?
    requires form.image == Some(Success(path)) && AnnouncementRepo.FindById(anns, id).value.image_url != Some(path)
    ensures UpdateAsWritten(anns, caller, Some(id), form, now).Success?
    ensures var (after, a) := UpdateAsWritten(anns, caller, Some(id), form, now).value;
            a.image_url != Some(path) && AnnouncementRepo.FindById(after, id) == Some(a)
  {
    var existing := AnnouncementRepo.FindById(anns, id).value;
    AnnouncementRepo.UpdateThenFind(anns, id, Edited(existing, id, form, now), now);
  }

  /**
   * `admin_update_announcement` with the image stored: the lookup errors,
   * then an upload error; otherwise the form replaces title, content, type
   * and the two flags, the image follows the upload-remove-keep precedence,
   * the publication time, type id, creator and creation time are the stored
   * ones, and rows of other ids are unchanged.
   */
  function Update(anns: Announcements, caller: Member, id: Option<Id>, form: AnnouncementForm, now: Time)
    : (r: Result<(Announcements, Announcement), AdminError>)
    ensures Existing(anns, caller, id).Failure? ==> r == Failure(Existing(anns, caller, id).error)
    ensures Existing(anns, caller, id).Success? && UploadFailed(form) ==>
              r == Failure(AdminEvents.Shown("Error uploading image: " + form.image.value.error))
    ensures r.Success? <==> Existing(anns, caller, id).Success? && !UploadFailed(form)
    ensures r.Success? ==>
              r.value.1.image_url == AdminEvents.ChooseImage(UploadedPath(form), form.remove_image, Existing(anns, caller, id).value.image_url)
    ensures r.Success? ==> |r.value.0| == |anns| && forall i :: 0 <= i < |anns| ==>
              r.value.0[i] == if anns[i].id == id.value
                              then AnnouncementRepo.Overwrite(anns[i], r.value.1, now).(image_url := r.value.1.image_url)
                              else anns[i]
  {
    match Existing(anns, caller, id)
    case Failure(err) => Failure(err)
    case Success(existing) =>
      if UploadFailed(form) then Failure(AdminEvents.Shown("Error uploading image: " + form.image.value.error))
      else
        match AnnouncementRepo.UpdateWithImage(anns, id.value, Edited(existing, id.value, form, now), now)
        case Failure(err) => Failure(AdminEvents.Wrapped("Error updating announcement", err))
        case Success(updated) => Success(updated)
  }

  /**
   * An update keeps the publication time, type id, creator and creation
   * time, takes the form's text and flags, and the stored row is the one
   * returned.
   */
  lemma UpdatePreserves(anns: Announcements, caller: Member, id: Option<Id>, form: AnnouncementForm, now: Time)
    requires Update(anns, caller, id, form, now).Success?
    ensures var existing := AnnouncementRepo.FindById(anns, id.value).value;
            var (after, a) := Update(anns, caller, id, form, now).value;
            && AnnouncementRepo.FindById(after, id.value) == Some(a)
            && a.published_at == existing.published_at && a.announcement_type_id == existing.announcement_type_id
            && a.created_by == existing.created_by && a.created_at == existing.created_at
            && a.title == form.title && a.content == form.content
            && a.announcement_type == FormType(form.announcement_type)
            && a.is_public == form.is_public && a.featured == form.featured && a.updated_at == now
  {
    var existing := AnnouncementRepo.FindById(anns, id.value).value;
    AnnouncementRepo.UpdateWithImageThenFind(anns, id.value, Edited(existing, id.value, form, now), now);
  }

  // ---------------------------------------------------------------------------
  // Publish, unpublish, delete
  // ---------------------------------------------------------------------------

  /**
   * `admin_publish_announcement` (`publish`) and
   * `admin_unpublish_announcement`: the stored row written back with
   * published_at set to now or cleared.
   */
  function SetPublished(anns: Announcements, caller: Member, id: Option<Id>, publish: bool, now: Time)
    : (r: Result<(Announcements, Announcement), AdminError>)
    ensures Existing(anns, caller, id).Failure? ==> r == Failure(Existing(anns, caller, id).error)
    ensures r.Success? <==> Existing(anns, caller, id).Success?
    ensures r.Success? ==> (r.value.1.published_at.Some? <==> publish)
  {
    match Existing(anns, caller, id)
    case Failure(err) => Failure(err)
    case Success(existing) =>
      var changed := existing.(published_at := if publish then Some(now) else None, updated_at := now);
      match AnnouncementRepo.Update(anns, id.value, changed, now)
      case Failure(err) =>
        Failure(AdminEvents.Wrapped(if publish then "Error publishing announcement" else "Error unpublishing announcement", err))
      case Success(updated) => Success(updated)
  }

  /** Publishing or unpublishing changes nothing but published_at and updated_at. */
  lemma SetPublishedChangesOnlyPublication(anns: Announcements, caller: Member, id: Option<Id>, publish: bool, now: Time)
    requires SetPublished(anns, caller, id, publish, now).Success?
    ensures var existing := AnnouncementRepo.FindById(anns, id.value).value;
            var (after, a) := SetPublished(anns, caller, id, publish, now).value;
            && AnnouncementRepo.FindById(after, id.value) == Some(a)
            && a == existing.(published_at := if publish then Some(now) else None, updated_at := now)
  {
    var existing := AnnouncementRepo.FindById(anns, id.value).value;
    var changed := existing.(published_at := if publish then Some(now) else None, updated_at := now);
    AnnouncementRepo.UpdateThenFind(anns, id.value, changed, now);
  }

  /** Unpublishing after publishing restores the stored row, up to updated_at. */
  lemma PublishThenUnpublish(anns: Announcements, caller: Member, id: Option<Id>, now: Time, later: Time)
    requires SetPublished(anns, caller, id, true, now).Success?
    ensures var after := SetPublished(anns, caller, id, true, now).value.0;
            var existing := AnnouncementRepo.FindById(anns, id.value).value;
            SetPublished(after, caller, id, false, later).Success?
            && SetPublished(after, caller, id, false, later).value.1
               == existing.(published_at := None, updated_at := later)
  {
    SetPublishedChangesOnlyPublication(anns, caller, id, true, now);
  }

  /** `admin_delete_announcement`: admins only, and the id must parse; a missing row is not an error. */
  function Delete(anns: Announcements, caller: Member, id: Option<Id>): (r: Result<Announcements, AdminError>)
    ensures r.Success? <==> Access.IsAdmin(caller) && id.Some?
    ensures !Access.IsAdmin(caller) ==> r == Failure(AdminEvents.AccessDenied)
    ensures Access.IsAdmin(caller) && id.None? ==> r == Failure(AdminEvents.Shown("Invalid announcement ID"))
    ensures r.Success? ==> forall a :: a in r.value <==> a in anns && a.id != id.value
  {
    if !Access.IsAdmin(caller) then Failure(AdminEvents.AccessDenied)
    else if id.None? then Failure(AdminEvents.Shown("Invalid announcement ID"))
    else Success(AnnouncementRepo.Delete(anns, id.value))
  }
}
