/**
 * The three tables of configurable types (event, announcement and
 * membership types), which share one shape: a name, a slug, optional
 * description, colour and icon, a sort order and an active flag.
 * Announcement types also carry `is_system`, and membership types a fee
 * and a billing period. One record type serves all three kinds; the
 * fields a kind does not have stay at false, 0 and "".
 */
module TypeRepo {
  import opened Wrappers
  import opened Errors
  import opened Domain
  import opened Collections
  import opened Ordering
  import opened ConfigurableTypes

  datatype TypeKind = EventKind | AnnouncementKind | MembershipKind

  datatype TypeConfig = TypeConfig(
    id: Id,
    name: string,
    slug: string,
    description: Option<string>,
    color: Option<string>,
    icon: Option<string>,
    sort_order: int,
    is_active: bool,
    is_system: bool,
    fee_cents: int,
    billing_period: string,
    created_at: Time,
    updated_at: Time)

  type Types = seq<TypeConfig>

  /** The kind's name as the error messages spell it. */
  function KindName(kind: TypeKind): string {
    match kind
    case EventKind => "Event type"
    case AnnouncementKind => "Announcement type"
    case MembershipKind => "Membership type"
  }

  datatype CreateTypeRequest = CreateTypeRequest(
    name: string,
    slug: Option<string>,
    description: Option<string>,
    color: Option<string>,
    icon: Option<string>,
    fee_cents: int,
    billing_period: string)

  datatype UpdateTypeRequest = UpdateTypeRequest(
    name: Option<string>,
    description: Option<string>,
    color: Option<string>,
    icon: Option<string>,
    sort_order: Option<int>,
    is_active: Option<bool>,
    fee_cents: Option<int>,
    billing_period: Option<string>)

  // ---------------------------------------------------------------------------
  // Lookups
  // ---------------------------------------------------------------------------

  function FindById(ts: Types, id: Id): Option<TypeConfig> {
    FindFirst(ts, (t: TypeConfig) => t.id == id)
  }

  function FindBySlug(ts: Types, slug: string): (r: Option<TypeConfig>)
    ensures r.Some? ==> r.value in ts && r.value.slug == slug
    ensures r.None? <==> forall i :: 0 <= i < |ts| ==> ts[i].slug != slug
  {
    FindFirst(ts, (t: TypeConfig) => t.slug == slug)
  }

  /** The sort key of `ORDER BY sort_order ASC, name ASC`. */
  function ListKey(t: TypeConfig): seq<int> {
    [t.sort_order] + Codes(t.name)
  }

  /** `list`: every type, or only the active ones, ordered by sort order and then name. */
  function List(ts: Types, includeInactive: bool): (r: Types)
    ensures Sorted(r, ListKey, false)
    ensures forall t :: t in r <==> t in ts && (includeInactive || t.is_active)
  {
    var shown := if includeInactive then ts else Filter(ts, (t: TypeConfig) => t.is_active);
    SortByMembers(shown, ListKey, false);
    SortBy(shown, ListKey, false)
  }

  /** A listed type never has a larger sort order than one listed after it. */
  lemma ListOrderedBySortOrder(ts: Types, includeInactive: bool, i: int, j: int)
    requires 0 <= i < j < |List(ts, includeInactive)|
    ensures List(ts, includeInactive)[i].sort_order <= List(ts, includeInactive)[j].sort_order
  {
    var r := List(ts, includeInactive);
    SortedPairs(r, ListKey, false, i, j);
    assert ListKey(r[i])[0] == r[i].sort_order && ListKey(r[j])[0] == r[j].sort_order;
  }

  // ---------------------------------------------------------------------------
  // Sort order
  // ---------------------------------------------------------------------------

  /** `SELECT MAX(sort_order)`: None on an empty table. */
  function MaxSortOrder(ts: Types): (m: Option<int>)
    ensures m.None? <==> |ts| == 0
    ensures m.Some? ==> (forall i :: 0 <= i < |ts| ==> ts[i].sort_order <= m.value)
                        && exists i :: 0 <= i < |ts| && ts[i].sort_order == m.value
  {
    if |ts| == 0 then None
    else
      match MaxSortOrder(ts[1..])
      case None => Some(ts[0].sort_order)
      case Some(m) =>
        assert forall i :: 1 <= i < |ts| ==> ts[i] == ts[1..][i - 1];
        if ts[0].sort_order >= m then Some(ts[0].sort_order) else Some(m)
  }

  /** `get_next_sort_order`: one past the largest sort order, or 1 for an empty table. */
  function NextSortOrder(ts: Types): (n: int)
    ensures |ts| == 0 ==> n == 1
    ensures forall i :: 0 <= i < |ts| ==> ts[i].sort_order < n
    ensures |ts| > 0 ==> exists i :: 0 <= i < |ts| && ts[i].sort_order == n - 1
  {
    MaxSortOrder(ts).GetOr(0) + 1
  }

  // ---------------------------------------------------------------------------
  // Create
  // ---------------------------------------------------------------------------

  /** The slug a create stores: the given one, or the slug of the name. */
  function SlugFor(req: CreateTypeRequest): (slug: string)
    ensures req.slug.None? ==> IsSlug(slug)
  {
    req.slug.GetOr(Slugify(req.name))
  }

  /**
   * `create`: a new active row at the end of the sort order; announcement
   * types are created as non-system types, and only membership types keep
   * the fee and billing period. An id already in the table is a Database
   * error.
   */
  function Create(ts: Types, kind: TypeKind, req: CreateTypeRequest, id: Id, now: Time): (r: Result<(Types, TypeConfig), AppError>)
    ensures r.Failure? <==> FindById(ts, id).Some?
    ensures r.Failure? ==> r.error.Database?
    ensures r.Success? ==> r.value.0 == ts + [r.value.1]
    ensures r.Success? ==> var t := r.value.1;
              t.id == id && t.name == req.name && t.slug == SlugFor(req)
              && t.description == req.description && t.color == req.color && t.icon == req.icon
              && t.is_active && !t.is_system && t.sort_order == NextSortOrder(ts)
              && t.created_at == now && t.updated_at == now
    ensures r.Success? && kind == MembershipKind ==>
              r.value.1.fee_cents == req.fee_cents && r.value.1.billing_period == req.billing_period
  {
    if FindById(ts, id).Some? then Failure(Database("UNIQUE constraint failed: id"))
    else
      var membership := kind == MembershipKind;
      var t := TypeConfig(id, req.name, SlugFor(req), req.description, req.color, req.icon,
                          NextSortOrder(ts), true, false,
                          if membership then req.fee_cents else 0,
                          if membership then req.billing_period else "",
                          now, now);
      Success((ts + [t], t))
  }

  /** A created type sorts after every type that was already there. */
  lemma CreateSortsLast(ts: Types, kind: TypeKind, req: CreateTypeRequest, id: Id, now: Time)
    requires Create(ts, kind, req, id, now).Success?
    ensures forall i :: 0 <= i < |ts| ==> ts[i].sort_order < Create(ts, kind, req, id, now).value.1.sort_order
  {
  }

  // ---------------------------------------------------------------------------
  // Update and delete
  // ---------------------------------------------------------------------------

  /**
   * The row `update` writes: given fields replace and absent ones keep;
   * slug, is_system and created_at never change, and the fee and billing
   * period only for membership types.
   */
  function Merge(kind: TypeKind, t: TypeConfig, u: UpdateTypeRequest, now: Time): (r: TypeConfig)
    ensures r.id == t.id && r.slug == t.slug && r.is_system == t.is_system && r.created_at == t.created_at
    ensures r.name == u.name.GetOr(t.name) && r.sort_order == u.sort_order.GetOr(t.sort_order)
    ensures r.is_active == u.is_active.GetOr(t.is_active) && r.updated_at == now
    ensures r.description == u.description.Or(t.description)
    ensures r.color == u.color.Or(t.color) && r.icon == u.icon.Or(t.icon)
    ensures kind == MembershipKind ==>
              r.fee_cents == u.fee_cents.GetOr(t.fee_cents) && r.billing_period == u.billing_period.GetOr(t.billing_period)
    ensures kind != MembershipKind ==> r.fee_cents == t.fee_cents && r.billing_period == t.billing_period
  {
    var membership := kind == MembershipKind;
    t.(name := u.name.GetOr(t.name),
       description := u.description.Or(t.description),
       color := u.color.Or(t.color),
       icon := u.icon.Or(t.icon),
       sort_order := u.sort_order.GetOr(t.sort_order),
       is_active := u.is_active.GetOr(t.is_active),
       fee_cents := if membership then u.fee_cents.GetOr(t.fee_cents) else t.fee_cents,
       billing_period := if membership then u.billing_period.GetOr(t.billing_period) else t.billing_period,
       updated_at := now)
  }

  /** An update can set description, colour and icon but never clear them. */
  lemma UpdateNeverClears(kind: TypeKind, t: TypeConfig, u: UpdateTypeRequest, now: Time)
    ensures t.description.Some? ==> Merge(kind, t, u, now).description.Some?
    ensures t.color.Some? ==> Merge(kind, t, u, now).color.Some?
    ensures t.icon.Some? ==> Merge(kind, t, u, now).icon.Some?
  {
  }

  /** `update`: NotFound for a missing id; otherwise the merged row. */
  function Update(ts: Types, kind: TypeKind, id: Id, u: UpdateTypeRequest, now: Time): (r: Result<(Types, TypeConfig), AppError>)
    ensures r.Failure? <==> FindById(ts, id).None?
    ensures r.Failure? ==> r.error == NotFound(KindName(kind) + " not found")
    ensures r.Success? ==> r.value.1 == Merge(kind, FindById(ts, id).value, u, now)
    ensures r.Success? ==> |r.value.0| == |ts| && forall i :: 0 <= i < |ts| ==>
              r.value.0[i] == if ts[i].id == id then Merge(kind, ts[i], u, now) else ts[i]
  {
    match FindById(ts, id)
    case None => Failure(NotFound(KindName(kind) + " not found"))
    case Some(t) => Success((MapWhere(ts, (x: TypeConfig) => x.id == id, (x: TypeConfig) => Merge(kind, x, u, now)),
                             Merge(kind, t, u, now)))
  }

  /** `delete`: removes the rows with the id; a missing id is not an error here. */
  function Delete(ts: Types, id: Id): (r: Types)
    ensures forall t :: t in r <==> t in ts && t.id != id
  {
    Filter(ts, (t: TypeConfig) => t.id != id)
  }

  // ---------------------------------------------------------------------------
  // Usage counts
  // ---------------------------------------------------------------------------

  /** `count_usage` for event types: the events whose event_type_id is the id. */
  function EventUsage(events: seq<Event>, id: Id): (n: nat)
    ensures n == 0 <==> forall i :: 0 <= i < |events| ==> events[i].event_type_id != Some(id)
  {
    Count(events, (e: Event) => e.event_type_id == Some(id))
  }

  /** `count_usage` for announcement types. */
  function AnnouncementUsage(anns: seq<Announcement>, id: Id): (n: nat)
    ensures n == 0 <==> forall i :: 0 <= i < |anns| ==> anns[i].announcement_type_id != Some(id)
  {
    Count(anns, (a: Announcement) => a.announcement_type_id == Some(id))
  }

  /** `count_usage` for membership types: the members linked to it. */
  function MembershipUsage(members: seq<Member>, id: Id): (n: nat)
    ensures n == 0 <==> forall i :: 0 <= i < |members| ==> members[i].membership_type_id != Some(id)
  {
    Count(members, (m: Member) => m.membership_type_id == Some(id))
  }

  // ---------------------------------------------------------------------------
  // Reorder
  // ---------------------------------------------------------------------------

  /** The position of the last occurrence of `x` in `ids`. */
  function LastIndex(ids: seq<Id>, x: Id): (k: int)
    requires x in ids
    ensures 0 <= k < |ids| && ids[k] == x
    ensures forall j :: k < j < |ids| ==> ids[j] != x
  {
    if ids[|ids| - 1] == x then |ids| - 1 else LastIndex(ids[..|ids| - 1], x)
  }

  /**
   * `reorder`: one `UPDATE … SET sort_order = index` per listed id, in list
   * order, so a repeated id ends at its last position; unlisted types keep
   * their sort order, and no other column changes.
   */
  function Reorder(ts: Types, ids: seq<Id>): (r: Types)
    ensures |r| == |ts|
    ensures forall i :: 0 <= i < |ts| ==>
              r[i] == if ts[i].id in ids then ts[i].(sort_order := LastIndex(ids, ts[i].id)) else ts[i]
  {
    if |ids| == 0 then ts
    else
      var k := |ids| - 1;
      var before := Reorder(ts, ids[..k]);
      assert forall x :: x in ids <==> x in ids[..k] || x == ids[k];
      MapWhere(before, (t: TypeConfig) => t.id == ids[k], (t: TypeConfig) => t.(sort_order := k))
  }

  /** With a list of distinct ids, the type at position i of the list gets sort order i. */
  lemma ReorderPositions(ts: Types, ids: seq<Id>, i: int, j: int)
    requires forall a, b :: 0 <= a < b < |ids| ==> ids[a] != ids[b]
    requires 0 <= i < |ts| && 0 <= j < |ids| && ts[i].id == ids[j]
    ensures Reorder(ts, ids)[i].sort_order == j
  {
    var k := LastIndex(ids, ts[i].id);
    assert k == j;
  }

  // ---------------------------------------------------------------------------
  // Seeding
  // ---------------------------------------------------------------------------

  function Defaults(kind: TypeKind): seq<DefaultType> {
    match kind
    case EventKind => DefaultEventTypes
    case AnnouncementKind => DefaultAnnouncementTypes
    case MembershipKind => DefaultMembershipTypes
  }

  /**
   * The row seeded for default `d` at list position `index`: no
   * description, active; only event types keep an icon, only announcement
   * types are system types, only membership types have a fee and period.
   */
  function SeedRow(kind: TypeKind, d: DefaultType, index: int, id: Id, now: Time): (t: TypeConfig)
    ensures t.slug == d.slug && t.name == d.name && t.sort_order == index && t.is_active
    ensures t.is_system <==> kind == AnnouncementKind
  {
    TypeConfig(id, d.name, d.slug, None, Some(d.color),
               if kind == EventKind then d.icon else None,
               index, true, kind == AnnouncementKind,
               if kind == MembershipKind then d.fee_cents else 0,
               if kind == MembershipKind then d.billing_period else "",
               now, now)
  }

  /**
   * `seed_defaults` from position `k` on: a default whose slug is already
   * present is skipped; any other is inserted with sort order = its
   * position and returned. `ids` are the fresh ids, one per default. An
   * insert failing on a taken id aborts the run, keeping the rows already
   * written.
   */
  function SeedFrom(ts: Types, kind: TypeKind, ids: seq<Id>, k: nat, now: Time): (r: (Types, Result<Types, AppError>))
    requires |ids| == |Defaults(kind)| && k <= |ids|
    ensures r.1.Success? ==> r.0 == ts + r.1.value
    ensures r.1.Success? ==> forall t :: t in r.1.value ==> t.is_active && t.created_at == now
    decreases |ids| - k
  {
    if k == |ids| then (ts, Success([]))
    else
      var d := Defaults(kind)[k];
      if FindBySlug(ts, d.slug).Some? then SeedFrom(ts, kind, ids, k + 1, now)
      else if FindById(ts, ids[k]).Some? then (ts, Failure(Database("UNIQUE constraint failed: id")))
      else
        var row := SeedRow(kind, d, k, ids[k], now);
        var rest := SeedFrom(ts + [row], kind, ids, k + 1, now);
        if rest.1.Success? then
          assert ts + [row] + rest.1.value == ts + ([row] + rest.1.value);
          (rest.0, Success([row] + rest.1.value))
        else rest
  }

  predicate HasSlug(ts: Types, slug: string) {
    exists i :: 0 <= i < |ts| && ts[i].slug == slug
  }

  lemma HasSlugAppend(ts: Types, xs: Types, slug: string)
    requires HasSlug(ts, slug)
    ensures HasSlug(ts + xs, slug)
  {
    var i :| 0 <= i < |ts| && ts[i].slug == slug;
    assert (ts + xs)[i] == ts[i];
  }

  /** After a successful run from position `k`, the default at position `j >= k` has its slug in the table. */
  lemma {:induction false} SeedCoversAt(ts: Types, kind: TypeKind, ids: seq<Id>, k: nat, j: nat, now: Time)
    requires |ids| == |Defaults(kind)| && k <= j < |ids|
    requires SeedFrom(ts, kind, ids, k, now).1.Success?
    ensures HasSlug(SeedFrom(ts, kind, ids, k, now).0, Defaults(kind)[j].slug)
    decreases |ids| - k
  {
    var r := SeedFrom(ts, kind, ids, k, now);
    var d := Defaults(kind)[k];
    if FindBySlug(ts, d.slug).Some? {
      if j == k {
        assert HasSlug(ts, d.slug);
        HasSlugAppend(ts, r.1.value, d.slug);
      } else {
        SeedCoversAt(ts, kind, ids, k + 1, j, now);
      }
    } else {
      var row := SeedRow(kind, d, k, ids[k], now);
      var rest := SeedFrom(ts + [row], kind, ids, k + 1, now);
      assert r == (rest.0, Success([row] + rest.1.value));
      if j == k {
        assert (ts + [row])[|ts|] == row;
        HasSlugAppend(ts + [row], rest.1.value, d.slug);
      } else {
        SeedCoversAt(ts + [row], kind, ids, k + 1, j, now);
      }
    }
  }

  /** After a successful run from position `k`, every default from `k` on has its slug in the table. */
  lemma SeedCovers(ts: Types, kind: TypeKind, ids: seq<Id>, k: nat, now: Time)
    requires |ids| == |Defaults(kind)| && k <= |ids|
    requires SeedFrom(ts, kind, ids, k, now).1.Success?
    ensures forall j :: k <= j < |ids| ==> HasSlug(SeedFrom(ts, kind, ids, k, now).0, Defaults(kind)[j].slug)
  {
    forall j | k <= j < |ids|
      ensures HasSlug(SeedFrom(ts, kind, ids, k, now).0, Defaults(kind)[j].slug)
    {
      SeedCoversAt(ts, kind, ids, k, j, now);
    }
  }

  /** A run over defaults whose slugs are all present inserts nothing. */
  lemma {:induction false} SeedNoop(ts: Types, kind: TypeKind, ids: seq<Id>, k: nat, now: Time)
    requires |ids| == |Defaults(kind)| && k <= |ids|
    requires forall j :: k <= j < |ids| ==> HasSlug(ts, Defaults(kind)[j].slug)
    ensures SeedFrom(ts, kind, ids, k, now) == (ts, Success([]))
    decreases |ids| - k
  {
    if k < |ids| {
      assert HasSlug(ts, Defaults(kind)[k].slug);
      SeedNoop(ts, kind, ids, k + 1, now);
    }
  }

  function SeedDefaults(ts: Types, kind: TypeKind, ids: seq<Id>, now: Time): (r: (Types, Result<Types, AppError>))
    requires |ids| == |Defaults(kind)|
  {
    SeedFrom(ts, kind, ids, 0, now)
  }

  /** After a successful seeding every default of the kind can be found by its slug. */
  lemma SeedDefaultsCovers(ts: Types, kind: TypeKind, ids: seq<Id>, now: Time, j: int)
    requires |ids| == |Defaults(kind)| && 0 <= j < |ids|
    requires SeedDefaults(ts, kind, ids, now).1.Success?
    ensures FindBySlug(SeedDefaults(ts, kind, ids, now).0, Defaults(kind)[j].slug).Some?
  {
    SeedCovers(ts, kind, ids, 0, now);
  }

  /**
   * Seeding is idempotent: after a successful run every default slug is
   * present, so a second run inserts nothing and returns an empty list.
   */
  lemma SeedTwice(ts: Types, kind: TypeKind, ids1: seq<Id>, ids2: seq<Id>, t1: Time, t2: Time)
    requires |ids1| == |ids2| == |Defaults(kind)|
    requires SeedDefaults(ts, kind, ids1, t1).1.Success?
    ensures var once := SeedDefaults(ts, kind, ids1, t1).0;
            SeedDefaults(once, kind, ids2, t2) == (once, Success([]))
  {
    SeedCovers(ts, kind, ids1, 0, t1);
    SeedNoop(SeedDefaults(ts, kind, ids1, t1).0, kind, ids2, 0, t2);
  }
}
