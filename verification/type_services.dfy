/**
 * The services over the three type tables: input validation before the
 * repository's create and update, the delete guards (system event types
 * and types still in use), and membership pricing.
 */
module TypeServices {
  import opened Wrappers
  import opened Errors
  import opened Domain
  import opened Collections
  import opened Text
  import opened ConfigurableTypes
  import opened TypeRepo

  // ---------------------------------------------------------------------------
  // Validation
  // ---------------------------------------------------------------------------

  function BadColor(c: string): AppError {
    BadRequest("Invalid color format: " + c + ". Expected hex color like #FF0000")
  }

  function BadPeriod(p: string): AppError {
    BadRequest("Invalid billing period: " + p + ". Expected one of: monthly, yearly, lifetime")
  }

  const NegativeFee := BadRequest("Fee cannot be negative")

  /** A colour is checked only when one is given. */
  function CheckColor(color: Option<string>): (r: Option<AppError>)
    ensures r.None? <==> color.None? || ValidateHexColor(color.value)
    ensures r.Some? ==> r.value == BadColor(color.value)
  {
    match color
    case None => None
    case Some(c) => if ValidateHexColor(c) then None else Some(BadColor(c))
  }

  /** The checks of a membership type create, in order: colour, billing period, fee. */
  function CheckMembershipCreate(req: CreateTypeRequest): (r: Option<AppError>)
    ensures r.None? <==> (req.color.None? || ValidateHexColor(req.color.value))
                         && FromStr(req.billing_period).Some? && req.fee_cents >= 0
  {
    if CheckColor(req.color).Some? then CheckColor(req.color)
    else if FromStr(req.billing_period).None? then Some(BadPeriod(req.billing_period))
    else if req.fee_cents < 0 then Some(NegativeFee)
    else None
  }

  /** The checks of an update: only the fields given are validated. */
  function CheckUpdate(kind: TypeKind, u: UpdateTypeRequest): (r: Option<AppError>)
    ensures kind != MembershipKind ==> r == CheckColor(u.color)
    ensures r.None? <==> CheckColor(u.color).None?
                         && (kind == MembershipKind ==>
                               (u.billing_period.None? || FromStr(u.billing_period.value).Some?)
                               && (u.fee_cents.None? || u.fee_cents.value >= 0))
  {
    if CheckColor(u.color).Some? || kind != MembershipKind then CheckColor(u.color)
    else if u.billing_period.Some? && FromStr(u.billing_period.value).None? then Some(BadPeriod(u.billing_period.value))
    else if u.fee_cents.Some? && u.fee_cents.value < 0 then Some(NegativeFee)
    else None
  }

  // ---------------------------------------------------------------------------
  // Create and update
  // ---------------------------------------------------------------------------

  /**
   * `create`: validation first, then a Conflict when an explicitly given
   * slug is taken, then the repository's create. A slug derived from the
   * name is not checked here.
   */
  function CreateType(ts: Types, kind: TypeKind, req: CreateTypeRequest, id: Id, now: Time): (r: Result<(Types, TypeConfig), AppError>)
    ensures kind == MembershipKind && CheckMembershipCreate(req).Some? ==> r == Failure(CheckMembershipCreate(req).value)
    ensures kind != MembershipKind && CheckColor(req.color).Some? ==> r == Failure(CheckColor(req.color).value)
    ensures r.Success? ==> CheckColor(req.color).None?
    ensures r.Success? && kind == MembershipKind ==>
              FromStr(r.value.1.billing_period).Some? && r.value.1.fee_cents >= 0
    ensures r.Success? && req.slug.Some? ==> FindBySlug(ts, req.slug.value).None? && r.value.1.slug == req.slug.value
    ensures r.Success? ==> r == Create(ts, kind, req, id, now)
  {
    var invalid := if kind == MembershipKind then CheckMembershipCreate(req) else CheckColor(req.color);
    if invalid.Some? then Failure(invalid.value)
    else if req.slug.Some? && FindBySlug(ts, req.slug.value).Some? then
      Failure(Conflict(KindName(kind) + " with slug '" + req.slug.value + "' already exists"))
    else Create(ts, kind, req, id, now)
  }

  /** A type created with an explicit slug never shares that slug with an existing type. */
  lemma ExplicitSlugStaysUnique(ts: Types, kind: TypeKind, req: CreateTypeRequest, id: Id, now: Time)
    requires req.slug.Some?
    requires CreateType(ts, kind, req, id, now).Success?
    ensures forall i :: 0 <= i < |ts| ==> ts[i].slug != CreateType(ts, kind, req, id, now).value.1.slug
  {
  }

  /** `update`: validation of the given fields, then the repository's update. */
  function UpdateType(ts: Types, kind: TypeKind, id: Id, u: UpdateTypeRequest, now: Time): (r: Result<(Types, TypeConfig), AppError>)
    ensures CheckUpdate(kind, u).Some? ==> r == Failure(CheckUpdate(kind, u).value)
    ensures CheckUpdate(kind, u).None? ==> r == Update(ts, kind, id, u, now)
  {
    match CheckUpdate(kind, u)
    case Some(e) => Failure(e)
    case None => Update(ts, kind, id, u, now)
  }

  /**
   * A membership type that was valid stays valid through an accepted
   * update: its billing period still parses and its fee is not negative.
   */
  lemma UpdateKeepsMembershipValid(ts: Types, id: Id, u: UpdateTypeRequest, now: Time)
    requires forall i :: 0 <= i < |ts| ==> FromStr(ts[i].billing_period).Some? && ts[i].fee_cents >= 0
    requires UpdateType(ts, MembershipKind, id, u, now).Success?
    ensures var r := UpdateType(ts, MembershipKind, id, u, now).value;
            FromStr(r.1.billing_period).Some? && r.1.fee_cents >= 0
            && forall i :: 0 <= i < |r.0| ==> FromStr(r.0[i].billing_period).Some? && r.0[i].fee_cents >= 0
  {
    var r := UpdateType(ts, MembershipKind, id, u, now).value;
    forall i | 0 <= i < |r.0|
      ensures FromStr(r.0[i].billing_period).Some? && r.0[i].fee_cents >= 0
    {
      MergeKeepsValid(ts[i], u, now);
    }
    MergeKeepsValid(FindById(ts, id).value, u, now);
  }

  /** An accepted membership update merged into a valid row leaves it valid. */
  lemma MergeKeepsValid(t: TypeConfig, u: UpdateTypeRequest, now: Time)
    requires FromStr(t.billing_period).Some? && t.fee_cents >= 0
    requires CheckUpdate(MembershipKind, u).None?
    ensures var m := Merge(MembershipKind, t, u, now);
            FromStr(m.billing_period).Some? && m.fee_cents >= 0
  {
  }

  // ---------------------------------------------------------------------------
  // Delete
  // ---------------------------------------------------------------------------

  /** The rows that may point at a type: events, announcements or members, by kind. */
  function Usage(kind: TypeKind, events: seq<Event>, anns: seq<Announcement>, members: seq<Member>, id: Id): nat {
    match kind
    case EventKind => EventUsage(events, id)
    case AnnouncementKind => AnnouncementUsage(anns, id)
    case MembershipKind => MembershipUsage(members, id)
  }

  /** What the in-use message calls the referring rows. */
  function UsersName(kind: TypeKind): string {
    match kind
    case EventKind => "events"
    case AnnouncementKind => "announcements"
    case MembershipKind => "members"
  }

  function KindNoun(kind: TypeKind): string {
    match kind
    case EventKind => "event type"
    case AnnouncementKind => "announcement type"
    case MembershipKind => "membership type"
  }

  function InUse(kind: TypeKind, n: nat): AppError {
    Conflict("Cannot delete " + KindNoun(kind) + ": " + NatToString(n) + " " + UsersName(kind)
             + " still use this type. Deactivate instead.")
  }

  /**
   * `delete`: NotFound for a missing id; a system event type is refused
   * (only the event service checks `is_system`); a type that any row still
   * uses is a Conflict; otherwise the row is removed.
   */
  function DeleteType(ts: Types, kind: TypeKind, id: Id,
                      events: seq<Event>, anns: seq<Announcement>, members: seq<Member>): (r: Result<Types, AppError>)
    ensures r.Success? <==> FindById(ts, id).Some?
                            && !(kind == EventKind && FindById(ts, id).value.is_system)
                            && Usage(kind, events, anns, members, id) == 0
    ensures FindById(ts, id).None? ==> r == Failure(NotFound(KindName(kind) + " not found"))
    ensures r.Success? ==> forall t :: t in r.value <==> t in ts && t.id != id
  {
    match FindById(ts, id)
    case None => Failure(NotFound(KindName(kind) + " not found"))
    case Some(t) =>
      if kind == EventKind && t.is_system then
        Failure(BadRequest("Cannot delete system event types. Deactivate instead."))
      else
        var n := Usage(kind, events, anns, members, id);
        if n > 0 then Failure(InUse(kind, n)) else Success(Delete(ts, id))
  }

  /** A successful delete leaves no event, announcement or member pointing at a vanished type. */
  lemma DeleteLeavesNoDangling(ts: Types, kind: TypeKind, id: Id,
                               events: seq<Event>, anns: seq<Announcement>, members: seq<Member>)
    requires DeleteType(ts, kind, id, events, anns, members).Success?
    ensures kind == EventKind ==> forall i :: 0 <= i < |events| ==> events[i].event_type_id != Some(id)
    ensures kind == AnnouncementKind ==> forall i :: 0 <= i < |anns| ==> anns[i].announcement_type_id != Some(id)
    ensures kind == MembershipKind ==> forall i :: 0 <= i < |members| ==> members[i].membership_type_id != Some(id)
  {
  }

  /**
   * Seeded announcement types are system types, yet the announcement
   * service does not check the flag: an unused one is deleted.
   */
  lemma SystemAnnouncementTypeDeletable(ts: Types, id: Id, anns: seq<Announcement>)
    requires FindById(ts, id).Some? && FindById(ts, id).value.is_system
    requires forall i :: 0 <= i < |anns| ==> anns[i].announcement_type_id != Some(id)
    ensures DeleteType(ts, AnnouncementKind, id, [], anns, []).Success?
  {
  }

  // ---------------------------------------------------------------------------
  // Pricing
  // ---------------------------------------------------------------------------

  /** `MembershipPricing`; the dollar amount is the cents over 100. */
  datatype Pricing = Pricing(type_id: Id, type_name: string, type_slug: string,
                             fee_cents: int, fee_dollars: real, billing_period: string)

  function PricingOf(t: TypeConfig): (p: Pricing)
    ensures p.fee_dollars * 100.0 == t.fee_cents as real
    ensures p.type_id == t.id && p.type_slug == t.slug && p.fee_cents == t.fee_cents
  {
    Pricing(t.id, t.name, t.slug, t.fee_cents, t.fee_cents as real / 100.0, t.billing_period)
  }

  /** `get_pricing`: NotFound for a missing id. */
  function GetPricing(ts: Types, id: Id): (r: Result<Pricing, AppError>)
    ensures r.Failure? <==> FindById(ts, id).None?
    ensures r.Failure? ==> r.error == NotFound("Membership type not found")
    ensures r.Success? ==> r.value.type_id == id && r.value == PricingOf(FindById(ts, id).value)
  {
    match FindById(ts, id)
    case None => Failure(NotFound("Membership type not found"))
    case Some(t) => Success(PricingOf(t))
  }

  /** `get_all_pricing`: the pricing of every active type, in list order. */
  function AllPricing(ts: Types): (r: seq<Pricing>)
    ensures |r| == |List(ts, false)|
    ensures forall i :: 0 <= i < |r| ==> r[i] == PricingOf(List(ts, false)[i])
  {
    var shown := List(ts, false);
    seq(|shown|, i requires 0 <= i < |shown| => PricingOf(shown[i]))
  }

  /** Only active types are priced, and every active type is. */
  lemma AllPricingIsActiveTypes(ts: Types, t: TypeConfig)
    ensures PricingOf(t) in AllPricing(ts) <== t in ts && t.is_active
    ensures t in ts && t.is_active ==> exists i :: 0 <= i < |AllPricing(ts)| && AllPricing(ts)[i] == PricingOf(t)
    ensures forall i :: 0 <= i < |AllPricing(ts)| ==> exists u :: u in ts && u.is_active && AllPricing(ts)[i] == PricingOf(u)
  {
    var shown := List(ts, false);
    if t in ts && t.is_active {
      var j :| 0 <= j < |shown| && shown[j] == t;
      assert AllPricing(ts)[j] == PricingOf(t);
    }
    forall i | 0 <= i < |AllPricing(ts)|
      ensures exists u :: u in ts && u.is_active && AllPricing(ts)[i] == PricingOf(u)
    {
      assert shown[i] in shown;
    }
  }
}
