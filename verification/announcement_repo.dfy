/**
 * The announcement table: the type codec, the flag columns, the listings
 * of published announcements and the overwrite `update`. The statements
 * write and read the columns id, title, content, announcement_type,
 * is_public, featured, published_at, created_by, created_at and
 * updated_at only; announcement_type_id and image_url are not among them
 * and read back as None.
 */
module AnnouncementRepo {
  import opened Wrappers
  import opened Errors
  import opened Domain
  import opened Collections
  import opened Ordering

  type Announcements = seq<Announcement>

  // ---------------------------------------------------------------------------
  // Codec
  // ---------------------------------------------------------------------------

  function TypeToStr(t: AnnouncementType): string {
    match t
    case News => "News"
    case Achievement => "Achievement"
    case Meeting => "Meeting"
    case CTFResult => "CTFResult"
    case General => "General"
  }

  /** `parse_announcement_type`: exact names only; anything else is a Database error. */
  function ParseType(s: string): (r: Result<AnnouncementType, AppError>)
    ensures r.Failure? ==> r.error == Database("Invalid announcement type: " + s)
  {
    if s == "News" then Success(News)
    else if s == "Achievement" then Success(Achievement)
    else if s == "Meeting" then Success(AnnouncementType.Meeting)
    else if s == "CTFResult" then Success(CTFResult)
    else if s == "General" then Success(General)
    else Failure(Database("Invalid announcement type: " + s))
  }

  lemma TypeRoundTrip(t: AnnouncementType)
    ensures ParseType(TypeToStr(t)) == Success(t)
  {
  }

  lemma ParseTypeOnlyNames(text: string)
    ensures ParseType(text).Success? <==> exists t: AnnouncementType :: TypeToStr(t) == text
  {
    if ParseType(text).Success? {
      TypeRoundTrip(ParseType(text).value);
    }
  }

  /** The stored form of an announcement: the written columns, with the flags as 1/0. */
  datatype AnnouncementRow = AnnouncementRow(
    id: Id, title: string, content: string, announcement_type: string,
    is_public: int, featured: int, published_at: Option<Time>,
    created_by: Id, created_at: Time, updated_at: Time)

  function ToRow(a: Announcement): (r: AnnouncementRow)
    ensures r.is_public in {0, 1} && r.featured in {0, 1}
  {
    AnnouncementRow(a.id, a.title, a.content, TypeToStr(a.announcement_type),
                    if a.is_public then 1 else 0, if a.featured then 1 else 0,
                    a.published_at, a.created_by, a.created_at, a.updated_at)
  }

  /** `row_to_announcement`: a flag is set when its column is not zero. */
  function FromRow(r: AnnouncementRow): (a: Result<Announcement, AppError>)
    ensures a.Failure? <==> ParseType(r.announcement_type).Failure?
    ensures a.Success? ==> a.value.is_public == (r.is_public != 0) && a.value.featured == (r.featured != 0)
  {
    match ParseType(r.announcement_type)
    case Failure(e) => Failure(e)
    case Success(t) =>
      Success(Announcement(r.id, r.title, r.content, t, None, r.is_public != 0, r.featured != 0,
                           None, r.published_at, r.created_by, r.created_at, r.updated_at))
  }

  /** What survives a write and a read: everything but the two columns the table lacks. */
  function Stored(a: Announcement): Announcement {
    a.(announcement_type_id := None, image_url := None)
  }

  lemma RowRoundTrip(a: Announcement)
    ensures FromRow(ToRow(a)) == Success(Stored(a))
  {
    TypeRoundTrip(a.announcement_type);
  }

  // ---------------------------------------------------------------------------
  // Create, find, update, delete
  // ---------------------------------------------------------------------------

  function FindById(anns: Announcements, id: Id): Option<Announcement> {
    FindFirst(anns, (a: Announcement) => a.id == id)
  }

  /** `create`: stored with created_at and updated_at from the clock; a taken id is a Database error. */
  function Create(anns: Announcements, a: Announcement, now: Time): (r: Result<(Announcements, Announcement), AppError>)
    ensures r.Failure? <==> FindById(anns, a.id).Some?
    ensures r.Failure? ==> r.error.Database?
    ensures r.Success? ==> r.value.0 == anns + [r.value.1]
    ensures r.Success? ==> r.value.1 == Stored(a).(created_at := now, updated_at := now)
  {
    if FindById(anns, a.id).Some? then Failure(Database("UNIQUE constraint failed: announcements.id"))
    else
      var row := Stored(a).(created_at := now, updated_at := now);
      Success((anns + [row], row))
  }

  lemma CreateThenFind(anns: Announcements, a: Announcement, now: Time)
    requires Create(anns, a, now).Success?
    ensures FindById(Create(anns, a, now).value.0, a.id) == Some(Create(anns, a, now).value.1)
  {
    FindFirstAppend(anns, Create(anns, a, now).value.1, (x: Announcement) => x.id == a.id);
  }

  /** The row after `update`: title, content, type, flags and published_at from the record. */
  function Overwrite(row: Announcement, a: Announcement, now: Time): (r: Announcement)
    ensures r.id == row.id && r.created_by == row.created_by && r.created_at == row.created_at
    ensures r.title == a.title && r.content == a.content && r.announcement_type == a.announcement_type
    ensures r.is_public == a.is_public && r.featured == a.featured && r.published_at == a.published_at
    ensures r.announcement_type_id == row.announcement_type_id && r.image_url == row.image_url
    ensures r.updated_at == now
  {
    row.(title := a.title, content := a.content, announcement_type := a.announcement_type,
         is_public := a.is_public, featured := a.featured, published_at := a.published_at,
         updated_at := now)
  }

  /** `update`: a missing id surfaces as the Database error of the read-back. */
  function Update(anns: Announcements, id: Id, a: Announcement, now: Time): (r: Result<(Announcements, Announcement), AppError>)
    ensures r.Failure? <==> FindById(anns, id).None?
    ensures r.Failure? ==> r.error == Database("Failed to retrieve updated announcement")
    ensures r.Success? ==> r.value.1 == Overwrite(FindById(anns, id).value, a, now)
    ensures r.Success? ==> |r.value.0| == |anns| && forall i :: 0 <= i < |anns| ==>
              r.value.0[i] == if anns[i].id == id then Overwrite(anns[i], a, now) else anns[i]
  {
    match FindById(anns, id)
    case None => Failure(Database("Failed to retrieve updated announcement"))
    case Some(row) => Success((MapWhere(anns, (x: Announcement) => x.id == id, (x: Announcement) => Overwrite(x, a, now)),
                               Overwrite(row, a, now)))
  }

  /** After an update, the id finds the row the update returned. */
  lemma UpdateThenFind(anns: Announcements, id: Id, a: Announcement, now: Time)
    requires Update(anns, id, a, now).Success?
    ensures FindById(Update(anns, id, a, now).value.0, id) == Some(Update(anns, id, a, now).value.1)
  {
    FindFirstMapWhere(anns, (x: Announcement) => x.id == id, (x: Announcement) => Overwrite(x, a, now));
  }

  /**
   * `update` with `image_url` added to the columns it writes, which the
   * admin edit form relies on: the row takes the record's image as well.
   */
  function UpdateWithImage(anns: Announcements, id: Id, a: Announcement, now: Time)
    : (r: Result<(Announcements, Announcement), AppError>)
    ensures r.Failure? <==> FindById(anns, id).None?
    ensures r.Failure? ==> r.error == Database("Failed to retrieve updated announcement")
    ensures r.Success? ==> r.value.1 == Overwrite(FindById(anns, id).value, a, now).(image_url := a.image_url)
    ensures r.Success? ==> r.value.1.image_url == a.image_url
    ensures r.Success? ==> |r.value.0| == |anns| && forall i :: 0 <= i < |anns| ==>
              r.value.0[i] == if anns[i].id == id then Overwrite(anns[i], a, now).(image_url := a.image_url) else anns[i]
  {
    match FindById(anns, id)
    case None => Failure(Database("Failed to retrieve updated announcement"))
    case Some(row) =>
      Success((MapWhere(anns, (x: Announcement) => x.id == id, (x: Announcement) => Overwrite(x, a, now).(image_url := a.image_url)),
               Overwrite(row, a, now).(image_url := a.image_url)))
  }

  /** After the corrected update, the id finds the row it returned. */
  lemma UpdateWithImageThenFind(anns: Announcements, id: Id, a: Announcement, now: Time)
    requires UpdateWithImage(anns, id, a, now).Success?
    ensures FindById(UpdateWithImage(anns, id, a, now).value.0, id) == Some(UpdateWithImage(anns, id, a, now).value.1)
  {
    FindFirstMapWhere(anns, (x: Announcement) => x.id == id, (x: Announcement) => Overwrite(x, a, now).(image_url := a.image_url));
  }

  /** Writing back what was read changes only updated_at. */
  lemma OverwriteWithItself(row: Announcement, now: Time)
    ensures Overwrite(row, row, now) == row.(updated_at := now)
  {
  }

  function Delete(anns: Announcements, id: Id): (r: Announcements)
    ensures forall a :: a in r <==> a in anns && a.id != id
  {
    Filter(anns, (a: Announcement) => a.id != id)
  }

  // ---------------------------------------------------------------------------
  // Listings
  // ---------------------------------------------------------------------------

  function CreatedKey(a: Announcement): seq<int> {
    [a.created_at]
  }

  function PublishedKey(a: Announcement): seq<int> {
    [a.published_at.GetOr(0)]
  }

  predicate IsPublished(a: Announcement) {
    a.published_at.Some?
  }

  /**
   * `list(limit, offset)`: drafts included, newest created first, skipping
   * `offset` of them and keeping at most `limit`.
   */
  function List(anns: Announcements, limit: nat, offset: nat): (r: Announcements)
    ensures |r| == if offset >= |anns| then 0 else if offset + limit <= |anns| then limit else |anns| - offset
    ensures forall x :: x in r ==> x in anns
    ensures Sorted(r, CreatedKey, true) && multiset(r) <= multiset(anns)
    ensures offset == 0 ==> Ranked(anns, r, CreatedKey, true)
  {
    var sorted := SortBy(anns, CreatedKey, true);
    SortByMembers(anns, CreatedKey, true);
    WindowSorted(sorted, offset, limit, CreatedKey, true);
    WindowSubMultiset(sorted, offset, limit);
    SortedPrefixRanked(anns, limit, CreatedKey, true);
    Window(sorted, offset, limit)
  }

  /** Consecutive pages of `list` join into one longer page: an offset skips the rows before it. */
  lemma ListPages(anns: Announcements, a: nat, b: nat, offset: nat)
    ensures List(anns, a, offset) + List(anns, b, offset + a) == List(anns, a + b, offset)
  {
    WindowsJoin(SortBy(anns, CreatedKey, true), offset, a, b);
  }

  /**
   * `list_recent`: published only, newest publication first; with a
   * non-negative limit, the `limit` most recently published.
   */
  function ListRecent(anns: Announcements, limit: int): (r: Announcements)
    ensures Sorted(r, PublishedKey, true)
    ensures forall i :: 0 <= i < |r| ==> r[i] in anns && IsPublished(r[i])
    ensures |r| == if 0 <= limit < Count(anns, IsPublished) then limit else Count(anns, IsPublished)
    ensures Ranked(Filter(anns, IsPublished), r, PublishedKey, true)
    ensures limit < 0 ==> forall a :: a in r <==> a in anns && IsPublished(a)
  {
    var published := Filter(anns, IsPublished);
    FilterCount(anns, IsPublished);
    SqlLimitRanked(published, limit, PublishedKey, true);
    SortByMembers(published, PublishedKey, true);
    SqlLimit(SortBy(published, PublishedKey, true), limit)
  }

  /** `list_public`: exactly the public, published announcements. */
  function ListPublic(anns: Announcements): (r: Announcements)
    ensures Sorted(r, PublishedKey, true)
    ensures forall a :: a in r <==> a in anns && a.is_public && IsPublished(a)
  {
    var shown := Filter(anns, (a: Announcement) => a.is_public && IsPublished(a));
    SortByMembers(shown, PublishedKey, true);
    SortBy(shown, PublishedKey, true)
  }

  /** `list_featured`: exactly the featured, published announcements. */
  function ListFeatured(anns: Announcements): (r: Announcements)
    ensures Sorted(r, PublishedKey, true)
    ensures forall a :: a in r <==> a in anns && a.featured && IsPublished(a)
  {
    var shown := Filter(anns, (a: Announcement) => a.featured && IsPublished(a));
    SortByMembers(shown, PublishedKey, true);
    SortBy(shown, PublishedKey, true)
  }

  /** The public and featured listings are the unlimited recent listing narrowed by one flag. */
  lemma NarrowedListings(anns: Announcements, a: Announcement)
    ensures a in ListPublic(anns) <==> a in ListRecent(anns, -1) && a.is_public
    ensures a in ListFeatured(anns) <==> a in ListRecent(anns, -1) && a.featured
  {
  }

  /** Unpublishing an announcement takes it off every listing of published announcements. */
  lemma UnpublishHides(anns: Announcements, id: Id, now: Time, limit: int)
    requires FindById(anns, id).Some?
    ensures var row := FindById(anns, id).value;
            var after := Update(anns, id, row.(published_at := None), now).value.0;
            forall a :: a in ListRecent(after, limit) ==> a.id != id
  {
    var row := FindById(anns, id).value;
    var after := Update(anns, id, row.(published_at := None), now).value.0;
    UnpublishedRows(anns, id, row.(published_at := None), now, after);
    var listed := ListRecent(after, limit);
    forall a | a in listed
      ensures a.id != id
    {
      var j :| 0 <= j < |listed| && listed[j] == a;
    }
  }

  /** After writing a record with no publication time, no row with its id is published. */
  lemma UnpublishedRows(anns: Announcements, id: Id, a: Announcement, now: Time, after: Announcements)
    requires a.published_at.None?
    requires |after| == |anns| && forall i :: 0 <= i < |anns| ==>
               after[i] == if anns[i].id == id then Overwrite(anns[i], a, now) else anns[i]
    ensures forall b :: b in after && b.id == id ==> !IsPublished(b)
  {
    forall b | b in after && b.id == id
      ensures !IsPublished(b)
    {
      var i :| 0 <= i < |after| && after[i] == b;
    }
  }
}
