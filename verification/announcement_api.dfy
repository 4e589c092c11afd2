/**
 * The JSON API for announcements: the listing dispatch, the visibility
 * and draft gates of `get`, creation with optional immediate publication,
 * and the creator-only update (where `Some(None)` unpublishes) and delete.
 */
module AnnouncementApi {
  import opened Wrappers
  import opened Errors
  import opened Domain
  import AnnouncementRepo

  type Announcements = AnnouncementRepo.Announcements

  const AnnouncementNotFound := NotFound("Announcement not found")

  /** `limit.unwrap_or(20).min(100)`. */
  function ListLimit(requested: Option<int>): (limit: int)
    ensures limit <= 100
    ensures requested.None? ==> limit == 20
    ensures requested.Some? && requested.value <= 100 ==> limit == requested.value
  {
    var l := requested.GetOr(20);
    if l < 100 then l else 100
  }

  /**
   * `list`: `featured_only` wins; otherwise anonymous callers and
   * `public_only` requests get the public listing, and signed-in callers
   * the recent published announcements up to the limit.
   */
  function List(anns: Announcements, limit: Option<int>, publicOnly: Option<bool>, featuredOnly: Option<bool>,
                caller: Option<Id>): (r: Announcements)
    ensures featuredOnly.GetOr(false) ==> r == AnnouncementRepo.ListFeatured(anns)
    ensures !featuredOnly.GetOr(false) && (publicOnly.GetOr(false) || caller.None?) ==> r == AnnouncementRepo.ListPublic(anns)
    ensures !featuredOnly.GetOr(false) && !publicOnly.GetOr(false) && caller.Some? ==>
              r == AnnouncementRepo.ListRecent(anns, ListLimit(limit))
  {
    if featuredOnly.GetOr(false) then AnnouncementRepo.ListFeatured(anns)
    else if publicOnly.GetOr(false) || caller.None? then AnnouncementRepo.ListPublic(anns)
    else AnnouncementRepo.ListRecent(anns, ListLimit(limit))
  }

  /**
   * Every listing shows published announcements only, and an anonymous
   * caller asking for featured ones also sees featured members-only
   * announcements.
   */
  lemma ListShowsPublishedOnly(anns: Announcements, limit: Option<int>, publicOnly: Option<bool>,
                               featuredOnly: Option<bool>, caller: Option<Id>, a: Announcement)
    ensures a in List(anns, limit, publicOnly, featuredOnly, caller) ==> a in anns && a.published_at.Some?
    ensures featuredOnly == Some(true) && a in anns && a.featured && !a.is_public && a.published_at.Some? ==>
              a in List(anns, limit, publicOnly, featuredOnly, caller)
  {
    var r := List(anns, limit, publicOnly, featuredOnly, caller);
    if a in r && !featuredOnly.GetOr(false) && !publicOnly.GetOr(false) && caller.Some? {
      var i :| 0 <= i < |r| && r[i] == a;
    }
  }

  /**
   * `get`: a non-public announcement is Forbidden to anonymous callers; a
   * draft is NotFound for everyone but its creator.
   */
  function Get(anns: Announcements, id: Id, caller: Option<Id>): (r: Result<Announcement, AppError>)
    ensures AnnouncementRepo.FindById(anns, id).None? ==> r == Failure(AnnouncementNotFound)
    ensures r.Success? <==> (AnnouncementRepo.FindById(anns, id).Some?
                             && var a := AnnouncementRepo.FindById(anns, id).value;
                             (a.is_public || caller.Some?)
                             && (a.published_at.Some? || caller == Some(a.created_by)))
    ensures r.Success? ==> r.value == AnnouncementRepo.FindById(anns, id).value
  {
    match AnnouncementRepo.FindById(anns, id)
    case None => Failure(AnnouncementNotFound)
    case Some(a) =>
      if !a.is_public && caller.None? then Failure(Forbidden)
      else if a.published_at.None? && caller != Some(a.created_by) then Failure(AnnouncementNotFound)
      else Success(a)
  }

  /** An anonymous caller reads exactly the public, published announcements. */
  lemma AnonymousReadsPublicPublished(anns: Announcements, id: Id)
    ensures Get(anns, id, None).Success? <==>
              (AnnouncementRepo.FindById(anns, id).Some?
               && AnnouncementRepo.FindById(anns, id).value.is_public
               && AnnouncementRepo.FindById(anns, id).value.published_at.Some?)
  {
  }

  datatype CreateAnnouncementRequest = CreateAnnouncementRequest(
    title: string,
    content: string,
    announcement_type: AnnouncementType,
    is_public: bool,
    featured: bool,
    publish_now: bool)

  /** The record `create` builds: published now iff asked, no image, created by the caller. */
  function NewAnnouncement(req: CreateAnnouncementRequest, id: Id, caller: Id, now: Time): (a: Announcement)
    ensures a.published_at.Some? <==> req.publish_now
    ensures a.published_at.Some? ==> a.published_at.value == now
    ensures a.image_url.None? && a.announcement_type_id.None? && a.created_by == caller
  {
    Announcement(id, req.title, req.content, req.announcement_type, None, req.is_public, req.featured, None,
                 if req.publish_now then Some(now) else None, caller, now, now)
  }

  function Create(anns: Announcements, req: CreateAnnouncementRequest, id: Id, caller: Id, now: Time): (r: Result<(Announcements, Announcement), AppError>)
    ensures r.Failure? <==> AnnouncementRepo.FindById(anns, id).Some?
    ensures r.Success? ==> var a := r.value.1;
              && r.value.0 == anns + [a]
              && a.id == id && a.created_by == caller && a.created_at == now && a.updated_at == now
              && a.title == req.title && a.content == req.content && a.announcement_type == req.announcement_type
              && a.is_public == req.is_public && a.featured == req.featured
              && (a.published_at.Some? <==> req.publish_now)
              && (req.publish_now ==> a.published_at == Some(now))
              && a.image_url.None? && a.announcement_type_id.None?
  {
    AnnouncementRepo.Create(anns, NewAnnouncement(req, id, caller, now), now)
  }

  /** A draft created through the API is readable by its creator and by nobody else. */
  lemma DraftVisibleToCreatorOnly(anns: Announcements, req: CreateAnnouncementRequest, id: Id, caller: Id,
                                  now: Time, other: Option<Id>)
    requires AnnouncementRepo.FindById(anns, id).None? && !req.publish_now
    requires other != Some(caller)
    ensures var after := Create(anns, req, id, caller, now).value.0;
            Get(after, id, Some(caller)).Success? && Get(after, id, other).Failure?
  {
    AnnouncementRepo.CreateThenFind(anns, NewAnnouncement(req, id, caller, now), now);
  }

  /** An update request; for published_at the inner Option is the new value, so `Some(None)` unpublishes. */
  datatype UpdateAnnouncementRequest = UpdateAnnouncementRequest(
    title: Option<string>,
    content: Option<string>,
    announcement_type: Option<AnnouncementType>,
    is_public: Option<bool>,
    featured: Option<bool>,
    published_at: Option<Option<Time>>)

  function ApplyUpdate(a: Announcement, u: UpdateAnnouncementRequest, now: Time): (r: Announcement)
    ensures r.id == a.id && r.created_by == a.created_by && r.created_at == a.created_at && r.updated_at == now
    ensures r.title == u.title.GetOr(a.title) && r.content == u.content.GetOr(a.content)
    ensures r.is_public == u.is_public.GetOr(a.is_public) && r.featured == u.featured.GetOr(a.featured)
    ensures r.published_at == u.published_at.GetOr(a.published_at)
  {
    a.(title := u.title.GetOr(a.title),
       content := u.content.GetOr(a.content),
       announcement_type := u.announcement_type.GetOr(a.announcement_type),
       is_public := u.is_public.GetOr(a.is_public),
       featured := u.featured.GetOr(a.featured),
       published_at := u.published_at.GetOr(a.published_at),
       updated_at := now)
  }

  /** The creator check shared by update and delete. */
  function Owned(anns: Announcements, id: Id, caller: Id): (r: Result<Announcement, AppError>)
    ensures r.Success? <==> AnnouncementRepo.FindById(anns, id).Some? && AnnouncementRepo.FindById(anns, id).value.created_by == caller
    ensures AnnouncementRepo.FindById(anns, id).None? ==> r == Failure(AnnouncementNotFound)
    ensures r.Failure? && AnnouncementRepo.FindById(anns, id).Some? ==> r.error == Forbidden
    ensures r.Success? ==> r.value == AnnouncementRepo.FindById(anns, id).value
  {
    match AnnouncementRepo.FindById(anns, id)
    case None => Failure(AnnouncementNotFound)
    case Some(a) => if a.created_by != caller then Failure(Forbidden) else Success(a)
  }

  function Update(anns: Announcements, id: Id, caller: Id, u: UpdateAnnouncementRequest, now: Time): (r: Result<(Announcements, Announcement), AppError>)
    ensures Owned(anns, id, caller).Failure? ==> r == Failure(Owned(anns, id, caller).error)
    ensures Owned(anns, id, caller).Success? ==>
              r == AnnouncementRepo.Update(anns, id, ApplyUpdate(Owned(anns, id, caller).value, u, now), now)
  {
    match Owned(anns, id, caller)
    case Failure(err) => Failure(err)
    case Success(a) => AnnouncementRepo.Update(anns, id, ApplyUpdate(a, u, now), now)
  }

  /** `Some(None)` turns a published announcement back into a draft that only its creator can read. */
  lemma UnpublishMakesDraft(anns: Announcements, id: Id, caller: Id, u: UpdateAnnouncementRequest, now: Time, other: Id)
    requires u.published_at == Some(None)
    requires Update(anns, id, caller, u, now).Success? && other != caller
    ensures var (after, a) := Update(anns, id, caller, u, now).value;
            a.published_at.None? && Get(after, id, Some(other)).Failure? && Get(after, id, Some(caller)).Success?
  {
    var a := AnnouncementRepo.FindById(anns, id).value;
    AnnouncementRepo.UpdateThenFind(anns, id, ApplyUpdate(a, u, now), now);
  }

  function Delete(anns: Announcements, id: Id, caller: Id): (r: Result<Announcements, AppError>)
    ensures r.Success? <==> Owned(anns, id, caller).Success?
    ensures r.Failure? ==> r.error == Owned(anns, id, caller).error
    ensures r.Success? ==> r.value == AnnouncementRepo.Delete(anns, id)
  {
    match Owned(anns, id, caller)
    case Failure(err) => Failure(err)
    case Success(_) => Success(AnnouncementRepo.Delete(anns, id))
  }
}
