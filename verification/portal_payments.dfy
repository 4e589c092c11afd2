/**
 * The member portal's payment panels: the list of the signed-in member's
 * payments, the total they have paid, the dues badge and the next due
 * date. A failed query shows as an empty history (the handlers fall back to
 * an empty list); the flag `queryOk` stands for the query's outcome. The
 * HTML and the dollar formatting are not modelled; the panels' contents are.
 */
module PortalPayments {
  import opened Wrappers
  import opened Domain
  import opened Collections
  import opened PaymentRepo
  import opened StripePayments
  import AdminMembers

  // ---------------------------------------------------------------------------
  // Payment history
  // ---------------------------------------------------------------------------

  /** One entry of the history: what the portal shows of a payment. */
  datatype PaymentLine = PaymentLine(description: string, created_at: Time, amount_cents: int, status: PaymentStatus)

  datatype History = NoHistory | Lines(lines: seq<PaymentLine>)

  /** An empty description is shown as "Membership dues". */
  function LineOf(p: Payment): (l: PaymentLine)
    ensures l.description == if p.description == "" then "Membership dues" else p.description
    ensures l.created_at == p.created_at && l.amount_cents == p.amount_cents && l.status == p.status
  {
    PaymentLine(if p.description == "" then "Membership dues" else p.description, p.created_at, p.amount_cents, p.status)
  }

  /**
   * `payments_list_api`: the member's payments, newest first; the
   * "No payment history" panel when there are none or the query failed.
   */
  function PaymentsList(ps: Payments, me: Id, queryOk: bool): (r: History)
    ensures r.NoHistory? <==> !queryOk || forall i :: 0 <= i < |ps| ==> ps[i].member_id != me
    ensures r.Lines? ==> |r.lines| == |FindByMember(ps, me)| > 0
    ensures r.Lines? ==> forall i :: 0 <= i < |r.lines| ==> r.lines[i] == LineOf(FindByMember(ps, me)[i])
  {
    var mine := if queryOk then FindByMember(ps, me) else [];
    if |mine| == 0 then NoHistory
    else Lines(seq(|mine|, i requires 0 <= i < |mine| => LineOf(mine[i])))
  }

  /** Every line of the history shows one of the member's own payments. */
  lemma ListShowsOnlyOwn(ps: Payments, me: Id, queryOk: bool, i: int)
    requires PaymentsList(ps, me, queryOk).Lines? && 0 <= i < |PaymentsList(ps, me, queryOk).lines|
    ensures exists p :: p in ps && p.member_id == me && LineOf(p) == PaymentsList(ps, me, queryOk).lines[i]
  {
    FindByMemberRows(ps, me);
    var p := FindByMember(ps, me)[i];
    assert p in FindByMember(ps, me);
  }

  /** The history lists every payment of the member (each payment once, as a permutation of the member's rows). */
  lemma ListShowsEveryPayment(ps: Payments, me: Id, p: Payment)
    requires p in ps && p.member_id == me
    ensures PaymentsList(ps, me, true).Lines?
    ensures LineOf(p) in PaymentsList(ps, me, true).lines
  {
    FindByMemberRows(ps, me);
    var mine := FindByMember(ps, me);
    var j :| 0 <= j < |mine| && mine[j] == p;
    assert PaymentsList(ps, me, true).lines[j] == LineOf(p);
  }

  // ---------------------------------------------------------------------------
  // Total paid
  // ---------------------------------------------------------------------------

  predicate IsCompleted(p: Payment) {
    p.status == Completed
  }

  function Amount(p: Payment): int {
    p.amount_cents
  }

  /** The member's completed payments, as a predicate value. */
  function CompletedOf(me: Id): Payment -> bool {
    (p: Payment) => p.member_id == me && IsCompleted(p)
  }

  /**
   * `payments_summary_api`: the sum of the amounts of the Completed payments
   * in the member's list; zero when the query failed.
   */
  function Summary(ps: Payments, me: Id, queryOk: bool): (total: int)
    ensures !queryOk ==> total == 0
  {
    if queryOk then SumBy(Filter(FindByMember(ps, me), IsCompleted), Amount) else 0
  }

  /**
   * The total is the sum over the member's Completed payments in the
   * table, however the list happens to be ordered; Pending, Failed and
   * Refunded payments count for nothing.
   */
  lemma SummaryIsCompletedTotal(ps: Payments, me: Id)
    ensures Summary(ps, me, true) == SumBy(Filter(ps, CompletedOf(me)), Amount)
  {
    var mine := (p: Payment) => p.member_id == me;
    var sorted := FindByMember(ps, me);
    FilterSum(sorted, IsCompleted, Amount);
    Ordering.SortBySum(Filter(ps, mine), CreatedKey, true, Masked(IsCompleted, Amount));
    FilterSum(ps, mine, Masked(IsCompleted, Amount));
    FilterSum(ps, CompletedOf(me), Amount);
    SumByCongruent(ps, Masked(mine, Masked(IsCompleted, Amount)), Masked(CompletedOf(me), Amount));
  }

  /** Adding a payment to the table adds its amount to its member's total exactly when it is Completed. */
  lemma SummaryAfterAppend(ps: Payments, me: Id, p: Payment)
    ensures Summary(ps + [p], me, true)
            == Summary(ps, me, true) + (if p.member_id == me && p.status == Completed then p.amount_cents else 0)
  {
    SummaryIsCompletedTotal(ps, me);
    SummaryIsCompletedTotal(ps + [p], me);
    FilterConcat(ps, [p], CompletedOf(me));
    SumByConcat(Filter(ps, CompletedOf(me)), Filter([p], CompletedOf(me)), Amount);
    assert Filter([p], CompletedOf(me)) == if CompletedOf(me)(p) then [p] else [] by {
      assert [p][1..] == [];
    }
  }

  /**
   * A manual payment raises the member's total by its amount as the 32-bit
   * column stored it; a waiver or an unpaid checkout leaves the total as it was.
   */
  lemma OfflinePaymentsAndTotal(ps: Payments, id: Id, me: Id, amount: int, description: string,
                                membershipType: string, session: CheckoutSession, now: Time)
    requires FindById(ps, id).None?
    ensures Summary(ManualPayment(ps, id, me, amount, description, now).value.0, me, true)
            == Summary(ps, me, true) + WrapI32(amount)
    ensures Summary(WaivePayment(ps, id, me, description, now).value.0, me, true) == Summary(ps, me, true)
    ensures Summary(CreateCheckout(ps, id, me, membershipType, amount, Success(session), now).0, me, true)
            == Summary(ps, me, true)
  {
    SummaryAfterAppend(ps, me, ManualPayment(ps, id, me, amount, description, now).value.1);
    SummaryAfterAppend(ps, me, WaivePayment(ps, id, me, description, now).value.1);
    var pending := CheckoutPayment(id, me, membershipType, amount, session.id, now);
    SummaryAfterAppend(ps, me, Create(ps, pending, now).value.1);
  }

  // ---------------------------------------------------------------------------
  // Dues badge and next due date
  // ---------------------------------------------------------------------------

  /** The dues badge; `Lapsed` is rendered "Expired". */
  datatype DuesStatus = Current | Lapsed | Unpaid

  function Label(s: DuesStatus): string {
    match s
    case Current => "Current"
    case Lapsed => "Expired"
    case Unpaid => "Unpaid"
  }

  /** `dues_status_api`: Current while the paid-until instant lies strictly ahead. */
  function Dues(m: Member, now: Time): (s: DuesStatus)
    ensures s == Current <==> m.dues_paid_until.Some? && m.dues_paid_until.value > now
    ensures s == Lapsed <==> m.dues_paid_until.Some? && m.dues_paid_until.value <= now
    ensures s == Unpaid <==> m.dues_paid_until.None?
  {
    match m.dues_paid_until
    case None => Unpaid
    case Some(d) => if d > now then Current else Lapsed
  }

  /**
   * The portal badge and the admin list's "dues expired" flag agree except
   * in two places: at the very instant the dues run out the portal already
   * says Expired while the admin list does not, and a member who never paid
   * is Unpaid in the portal but counts as expired in the admin list.
   */
  lemma BadgeAgainstAdminList(m: Member, now: Time)
    ensures m.dues_paid_until.Some? && m.dues_paid_until.value != now ==>
              (Dues(m, now) == Lapsed <==> AdminMembers.DuesExpired(m, now))
    ensures m.dues_paid_until == Some(now) ==> Dues(m, now) == Lapsed && !AdminMembers.DuesExpired(m, now)
    ensures m.dues_paid_until.None? ==> Dues(m, now) == Unpaid && AdminMembers.DuesExpired(m, now)
  {
  }

  datatype NextDue = DueOn(date: Time) | NotSet

  /** `next_due_api`: the paid-until date, or a dash when there is none. */
  function NextDueOf(m: Member): (r: NextDue)
    ensures r.DueOn? <==> m.dues_paid_until.Some?
    ensures r.DueOn? ==> r.date == m.dues_paid_until.value
  {
    match m.dues_paid_until
    case None => NotSet
    case Some(d) => DueOn(d)
  }

  /** The next-due panel is blank exactly when the badge says Unpaid, at any time. */
  lemma NextDueMatchesBadge(m: Member, now: Time)
    ensures NextDueOf(m).NotSet? <==> Dues(m, now) == Unpaid
    ensures NextDueOf(m).DueOn? ==> (Dues(m, now) == Current <==> NextDueOf(m).date > now)
  {
  }
}
