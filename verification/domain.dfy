/**
 * The records the membership server keeps: members, payments, events and
 * their attendance rows, and announcements. Identifiers are naturals (UUIDs
 * in the server), instants are integer seconds, nullable columns are Options.
 */
module Domain {
  import opened Wrappers

  type Id = nat
  type Time = int

  const SecondsPerHour: int := 3600
  const SecondsPerDay: int := 86400

  /** The range of Rust's `i32`. */
  const I32Min: int := -0x8000_0000
  const I32Max: int := 0x7fff_ffff

  /** Rust's `x as i32` on a wider integer: the low 32 bits, read as two's complement. */
  function WrapI32(x: int): (r: int)
    ensures I32Min <= r <= I32Max
    ensures (r - x) % 0x1_0000_0000 == 0
    ensures I32Min <= x <= I32Max ==> r == x
  {
    (x - I32Min) % 0x1_0000_0000 + I32Min
  }

  datatype MemberStatus = Pending | Active | Expired | Suspended | Honorary

  datatype MembershipType = Regular | Student | Corporate | Lifetime

  /**
   * A member row. `password_hash` is the stored Argon2 string (absent for
   * rows created without one); `membership_type_id` links the member to a
   * configurable membership type and is what that type's usage count reads.
   */
  datatype Member = Member(
    id: Id,
    email: string,
    username: string,
    full_name: string,
    status: MemberStatus,
    membership_type: MembershipType,
    joined_at: Time,
    expires_at: Option<Time>,
    dues_paid_until: Option<Time>,
    bypass_dues: bool,
    notes: Option<string>,
    created_at: Time,
    updated_at: Time,
    password_hash: Option<string>,
    membership_type_id: Option<Id>)

  datatype PaymentStatus = Pending | Completed | Failed | Refunded

  datatype PaymentMethod = Stripe | Manual | Waived

  datatype Payment = Payment(
    id: Id,
    member_id: Id,
    amount_cents: int,
    currency: string,
    status: PaymentStatus,
    payment_method: PaymentMethod,
    stripe_payment_id: Option<string>,
    description: string,
    paid_at: Option<Time>,
    created_at: Time,
    updated_at: Time)

  datatype EventType = Meeting | Workshop | CTF | Social | Training | Hackathon

  datatype EventVisibility = Public | MembersOnly | AdminOnly

  datatype Event = Event(
    id: Id,
    title: string,
    description: string,
    event_type: EventType,
    event_type_id: Option<Id>,
    visibility: EventVisibility,
    start_time: Time,
    end_time: Option<Time>,
    location: Option<string>,
    max_attendees: Option<int>,
    rsvp_required: bool,
    image_url: Option<string>,
    created_by: Id,
    created_at: Time,
    updated_at: Time)

  datatype AttendanceStatus = Registered | Waitlisted | Cancelled

  /** One row of `event_attendance`; the pair (event_id, member_id) is its key. */
  datatype Attendance = Attendance(
    event_id: Id,
    member_id: Id,
    status: AttendanceStatus,
    registered_at: Time)

  datatype AnnouncementType = News | Achievement | Meeting | CTFResult | General

  /** An announcement; it counts as published exactly when `published_at` is set. */
  datatype Announcement = Announcement(
    id: Id,
    title: string,
    content: string,
    announcement_type: AnnouncementType,
    announcement_type_id: Option<Id>,
    is_public: bool,
    featured: bool,
    image_url: Option<string>,
    published_at: Option<Time>,
    created_by: Id,
    created_at: Time,
    updated_at: Time)

  /** A table whose rows are identified by `id`: no two rows share one. */
  ghost predicate UniqueMemberIds(ms: seq<Member>) {
    forall i, j :: 0 <= i < j < |ms| ==> ms[i].id != ms[j].id
  }
}
