/**
 * The example-data generator: the lenient parsers for the example files'
 * membership types and statuses, the payment record helper, the random
 * member profile, and the payments generated for one member. Every random
 * draw is a parameter whose range is the one the generator asks for.
 */
module Seed {
  import opened Wrappers
  import opened Text
  import opened Domain
  import opened Collections
  import opened Tokens
  import MemberRepo

  // ---------------------------------------------------------------------------
  // Lenient parsers
  // ---------------------------------------------------------------------------

  /** Lower-casing twice is lower-casing once. */
  lemma LowerIdempotent(s: string)
    ensures Lower(Lower(s)) == Lower(s)
  {
    assert forall i :: 0 <= i < |s| ==> Lower(Lower(s))[i] == Lower(s)[i];
  }

  /** The membership type a lower-cased name stands for. */
  function TypeOfName(l: string): MembershipType {
    if l == "regular" then Regular
    else if l == "student" then Student
    else if l == "corporate" then Corporate
    else if l == "lifetime" then Lifetime
    else if l == "family" then Regular
    else if l == "individual" then Regular
    else if l == "senior" then Regular
    else if l == "founding" then Lifetime
    else Regular
  }

  /**
   * `parse_membership_type`: case-insensitive; "family", "individual" and
   * "senior" are Regular, "founding" is Lifetime, anything unknown is Regular.
   */
  function ParseMembershipType(s: string): (t: MembershipType)
    ensures Lower(s) == "student" <==> t == Student
    ensures Lower(s) == "corporate" <==> t == Corporate
    ensures t == Lifetime <==> Lower(s) in {"lifetime", "founding"}
  {
    TypeOfName(Lower(s))
  }

  /** Case does not matter. */
  lemma MembershipTypeCaseInsensitive(s: string)
    ensures ParseMembershipType(Lower(s)) == ParseMembershipType(s)
  {
    LowerIdempotent(s);
  }

  /** The canonical lower-case word for each membership type. */
  function TypeWord(t: MembershipType): string {
    match t
    case Regular => "regular"
    case Student => "student"
    case Corporate => "corporate"
    case Lifetime => "lifetime"
  }

  /** Any spelling of a type's word, in any case, parses back to that type. */
  lemma MembershipTypeRoundTrip(t: MembershipType, s: string)
    requires Lower(s) == TypeWord(t)
    ensures ParseMembershipType(s) == t
  {
  }

  /** The member status a lower-cased name stands for. */
  function StatusOfName(l: string): MemberStatus {
    if l == "active" then Active
    else if l == "expired" then Expired
    else if l == "pending" then MemberStatus.Pending
    else if l == "suspended" then Suspended
    else if l == "honorary" then Honorary
    else MemberStatus.Pending
  }

  /** `parse_member_status`: case-insensitive; anything unknown is Pending. */
  function ParseMemberStatus(s: string): (st: MemberStatus)
    ensures Lower(s) !in {"active", "expired", "suspended", "honorary"} ==> st == MemberStatus.Pending
    ensures st == Active <==> Lower(s) == "active"
    ensures st == Honorary <==> Lower(s) == "honorary"
  {
    StatusOfName(Lower(s))
  }

  lemma MemberStatusCaseInsensitive(s: string)
    ensures ParseMemberStatus(Lower(s)) == ParseMemberStatus(s)
  {
    LowerIdempotent(s);
  }

  /** The canonical lower-case word for each member status. */
  function StatusWord(st: MemberStatus): string {
    match st
    case Pending => "pending"
    case Active => "active"
    case Expired => "expired"
    case Suspended => "suspended"
    case Honorary => "honorary"
  }

  /** Any spelling of a status's word, in any case, parses back to that status. */
  lemma MemberStatusRoundTrip(st: MemberStatus, s: string)
    requires Lower(s) == StatusWord(st)
    ensures ParseMemberStatus(s) == st
  {
  }

  // ---------------------------------------------------------------------------
  // Payments
  // ---------------------------------------------------------------------------

  /** The first eight characters of a UUID's text: its first four bytes in lower-case hex. */
  function UuidPrefix(uuid: seq<Byte>): (p: string)
    requires |uuid| == 16
    ensures |p| == 8 && forall k :: 0 <= k < 8 ==> IsLowerHex(p[k])
  {
    HexEncode(uuid[..4])
  }

  /**
   * `make_payment`: created `daysAgo` days before `now`; paid then exactly
   * when completed; a Stripe payment gets a "pi_seed_" id from a fresh UUID.
   */
  function MakePayment(id: Id, member: Id, amount: int, status: PaymentStatus, pm: PaymentMethod,
                       description: string, daysAgo: int, now: Time, stripeUuid: seq<Byte>): (p: Payment)
    requires |stripeUuid| == 16
    ensures p.id == id && p.member_id == member && p.amount_cents == amount && p.currency == "USD"
    ensures p.status == status && p.payment_method == pm && p.description == description
    ensures p.created_at == now - daysAgo * SecondsPerDay && p.updated_at == p.created_at
    ensures p.paid_at.Some? <==> status == Completed
    ensures p.paid_at.Some? ==> p.paid_at.value == p.created_at
    ensures p.stripe_payment_id.Some? <==> pm == Stripe
    ensures p.stripe_payment_id.Some? ==>
              var sid := p.stripe_payment_id.value;
              |sid| == 16 && sid[..8] == "pi_seed_" && forall k :: 8 <= k < 16 ==> IsLowerHex(sid[k])
  {
    var created := now - daysAgo * SecondsPerDay;
    Payment(id, member, amount, "USD", status, pm,
            if pm == Stripe then Some("pi_seed_" + UuidPrefix(stripeUuid)) else None,
            description, if status == Completed then Some(created) else None, created, created)
  }

  // ---------------------------------------------------------------------------
  // Random member profiles
  // ---------------------------------------------------------------------------

  datatype MemberGenConfig = MemberGenConfig(
    status: MemberStatus,
    membership_type: MembershipType,
    months_active: int,
    bypass_dues: bool,
    notes: Option<string>)

  /** `rng.gen_range(lo..=hi)` as a function of the draw `pick`. */
  function InRange(lo: int, hi: int, pick: nat): (n: int)
    requires lo <= hi
    ensures lo <= n <= hi
  {
    lo + pick % (hi - lo + 1)
  }

  /** Every value of the range can come out of some draw. */
  lemma InRangeOnto(lo: int, hi: int, n: int)
    requires lo <= n <= hi
    ensures InRange(lo, hi, (n - lo) as nat) == n
  {
  }

  /**
   * `generate_member_config`: `roll` and `typeRoll` are the two draws from
   * 0..100, `pick` the draw for the months.
   */
  function GenerateMemberConfig(roll: nat, typeRoll: nat, pick: nat): (c: MemberGenConfig)
    requires roll < 100 && typeRoll < 100
    ensures c.bypass_dues <==> roll >= 93
    ensures c.notes.Some? <==> roll >= 88
    ensures c.status == Honorary ==> c.bypass_dues && c.months_active == 0
    ensures c.status == MemberStatus.Pending ==> c.months_active == 0 && !c.bypass_dues
    ensures roll >= 98 ==> c.status == Active && c.membership_type == Lifetime && c.bypass_dues
                           && 12 <= c.months_active <= 36
    ensures roll < 70 ==> c.status == Active && 1 <= c.months_active <= 24 && !c.bypass_dues
    ensures c.membership_type != Regular ==> c.status == Active
    ensures 0 <= c.months_active <= 36
  {
    if roll < 70 then
      var t := if typeRoll <= 70 then Regular
               else if typeRoll <= 90 then Student
               else if typeRoll <= 98 then Corporate
               else Lifetime;
      MemberGenConfig(Active, t, InRange(1, 24, pick), false, None)
    else if roll < 80 then MemberGenConfig(Expired, Regular, InRange(3, 12, pick), false, None)
    else if roll < 88 then MemberGenConfig(MemberStatus.Pending, Regular, 0, false, None)
    else if roll < 93 then
      MemberGenConfig(Suspended, Regular, InRange(2, 8, pick), false, Some("Suspended - under review"))
    else if roll < 98 then MemberGenConfig(Honorary, Regular, 0, true, Some("Honorary member"))
    else MemberGenConfig(Active, Lifetime, InRange(12, 36, pick), true, Some("Lifetime member"))
  }

  /** The roll splits the profiles 70/10/8/5/5/2 among active, expired, pending, suspended, honorary, lifetime. */
  lemma StatusByRoll(roll: nat, typeRoll: nat, pick: nat)
    requires roll < 100 && typeRoll < 100
    ensures var s := GenerateMemberConfig(roll, typeRoll, pick).status;
            && (s == Expired <==> 70 <= roll < 80)
            && (s == MemberStatus.Pending <==> 80 <= roll < 88)
            && (s == Suspended <==> 88 <= roll < 93)
            && (s == Honorary <==> 93 <= roll < 98)
            && (s == Active <==> roll < 70 || roll >= 98)
  {
  }

  // ---------------------------------------------------------------------------
  // Payments for one member
  // ---------------------------------------------------------------------------

  /**
   * The draws for one monthly payment: the day offset from 1..10, the 85%
   * Stripe coin, fresh ids, and the payment date rendered as "%B %Y".
   */
  datatype MonthDraw = MonthDraw(jitter: nat, stripe: bool, id: Id, stripeUuid: seq<Byte>, monthName: string)

  /** The draws for the failed payment of an expired member whose 60% coin came up. */
  datatype FailDraw = FailDraw(daysAgo: nat, id: Id, stripeUuid: seq<Byte>)

  /** Completed monthly payments: the months active, capped at 24, and none for a negative count. */
  function PaidMonths(monthsActive: int): (n: nat)
    ensures n <= 24
    ensures 0 <= monthsActive <= 24 ==> n == monthsActive
  {
    if monthsActive < 0 then 0 else if monthsActive > 24 then 24 else monthsActive
  }

  predicate ValidDraw(d: MonthDraw) {
    1 <= d.jitter < 10 && |d.stripeUuid| == 16
  }

  /** `first().map(fee_cents).unwrap_or(5000)`. */
  function DefaultDues(feeCents: seq<int>): (d: int)
    ensures |feeCents| == 0 ==> d == 5000
    ensures |feeCents| > 0 ==> d == feeCents[0]
  {
    if |feeCents| == 0 then 5000 else feeCents[0]
  }

  function MonthlyPayment(member: Id, dues: int, month: nat, d: MonthDraw, now: Time): Payment
    requires ValidDraw(d)
  {
    MakePayment(d.id, member, dues, Completed, if d.stripe then Stripe else Manual, "Monthly dues - " + d.monthName,
                month * 30 + d.jitter, now, d.stripeUuid)
  }

  predicate IsCompleted(p: Payment) { p.status == Completed }

  /** One completed payment for each of the first `months` paid months, all in the past. */
  method PaidMonthPayments(member: Id, dues: int, months: nat, draws: seq<MonthDraw>, now: Time)
    returns (ps: seq<Payment>)
    requires |draws| >= months
    requires forall i :: 0 <= i < |draws| ==> ValidDraw(draws[i])
    ensures |ps| == months && Count(ps, IsCompleted) == months
    ensures forall i :: 0 <= i < |ps| ==> ps[i].member_id == member && ps[i].amount_cents == dues
                                          && ps[i].status == Completed && ps[i].paid_at == Some(ps[i].created_at)
                                          && ps[i].created_at < now
  {
    ps := [];
    var month := 0;
    while month < months
      invariant 0 <= month <= months
      invariant |ps| == month && Count(ps, IsCompleted) == month
      invariant forall i :: 0 <= i < |ps| ==> ps[i].member_id == member && ps[i].amount_cents == dues
                                              && ps[i].status == Completed && ps[i].paid_at == Some(ps[i].created_at)
                                              && ps[i].created_at < now
    {
      var p := MonthlyPayment(member, dues, month, draws[month], now);
      CountConcat(ps, [p], IsCompleted);
      ps := ps + [p];
      month := month + 1;
    }
  }

  /**
   * The payments the generator creates for one member: none when dues are
   * bypassed; one pending Stripe payment for a pending member; otherwise
   * one completed payment per paid month, then a failed one for an expired
   * member whose coin came up.
   */
  method SeedMemberPayments(member: Id, config: MemberGenConfig, dues: int, now: Time,
                            draws: seq<MonthDraw>, failure: Option<FailDraw>, pendingId: Id, pendingUuid: seq<Byte>)
    returns (ps: seq<Payment>)
    requires |draws| >= PaidMonths(config.months_active)
    requires forall i :: 0 <= i < |draws| ==> ValidDraw(draws[i])
    requires failure.Some? ==> 1 <= failure.value.daysAgo < 30 && |failure.value.stripeUuid| == 16
    requires |pendingUuid| == 16
    ensures forall i :: 0 <= i < |ps| ==> ps[i].member_id == member && ps[i].amount_cents == dues
    ensures config.bypass_dues ==> ps == []
    ensures !config.bypass_dues && config.status == MemberStatus.Pending ==>
              |ps| == 1 && ps[0].status == PaymentStatus.Pending && ps[0].payment_method == Stripe
              && ps[0].paid_at.None? && ps[0].created_at == now
    ensures !config.bypass_dues && config.status != MemberStatus.Pending ==>
              && Count(ps, IsCompleted) == PaidMonths(config.months_active)
              && |ps| == PaidMonths(config.months_active)
                         + (if config.status == Expired && failure.Some? then 1 else 0)
              && (forall i :: 0 <= i < |ps| ==>
                    && ps[i].status in {Completed, Failed}
                    && ps[i].created_at < now
                    && (ps[i].status == Completed ==> ps[i].paid_at == Some(ps[i].created_at)))
  {
    if config.bypass_dues {
      return [];
    }
    if config.status == MemberStatus.Pending {
      return [MakePayment(pendingId, member, dues, PaymentStatus.Pending, Stripe, "Initial membership dues", 0, now,
                          pendingUuid)];
    }
    ps := PaidMonthPayments(member, dues, PaidMonths(config.months_active), draws, now);
    if config.status == Expired && failure.Some? {
      var f := failure.value;
      var p := MakePayment(f.id, member, dues, Failed, Stripe, "Monthly dues - Payment declined", f.daysAgo, now,
                           f.stripeUuid);
      CountConcat(ps, [p], IsCompleted);
      ps := ps + [p];
    }
  }
}
