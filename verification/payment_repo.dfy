/**
 * The payment table: the status and payment-method text codecs, `create`
 * (which stores the amount through a 32-bit column), lookups by id, member
 * and Stripe id, the whole-row `update` and `update_status`, whose
 * COALESCE keeps paid_at unless the new status is Completed. The table is
 * a sequence of rows; the clock is the `now` parameter.
 */
module PaymentRepo {
  import opened Wrappers
  import opened Errors
  import opened Domain
  import opened Collections
  import opened Ordering

  type Payments = seq<Payment>

  // ---------------------------------------------------------------------------
  // Codecs
  // ---------------------------------------------------------------------------

  function StatusToStr(s: PaymentStatus): string {
    match s
    case Pending => "Pending"
    case Completed => "Completed"
    case Failed => "Failed"
    case Refunded => "Refunded"
  }

  /** `parse_payment_status`: exact names only; anything else is a Database error. */
  function ParseStatus(s: string): (r: Result<PaymentStatus, AppError>)
    ensures r.Failure? ==> r.error == Database("Invalid payment status: " + s)
  {
    if s == "Pending" then Success(PaymentStatus.Pending)
    else if s == "Completed" then Success(Completed)
    else if s == "Failed" then Success(Failed)
    else if s == "Refunded" then Success(Refunded)
    else Failure(Database("Invalid payment status: " + s))
  }

  lemma StatusRoundTrip(s: PaymentStatus)
    ensures ParseStatus(StatusToStr(s)) == Success(s)
  {
  }

  /** Only the four rendered names parse. */
  lemma ParseStatusOnlyNames(text: string)
    ensures ParseStatus(text).Success? <==> exists s: PaymentStatus :: StatusToStr(s) == text
  {
    if ParseStatus(text).Success? {
      StatusRoundTrip(ParseStatus(text).value);
    }
  }

  function MethodToStr(m: PaymentMethod): string {
    match m
    case Stripe => "Stripe"
    case Manual => "Manual"
    case Waived => "Waived"
  }

  /** `parse_payment_method`: exact names only; anything else is a Database error. */
  function ParseMethod(s: string): (r: Result<PaymentMethod, AppError>)
    ensures r.Failure? ==> r.error == Database("Invalid payment method: " + s)
  {
    if s == "Stripe" then Success(Stripe)
    else if s == "Manual" then Success(Manual)
    else if s == "Waived" then Success(Waived)
    else Failure(Database("Invalid payment method: " + s))
  }

  lemma MethodRoundTrip(m: PaymentMethod)
    ensures ParseMethod(MethodToStr(m)) == Success(m)
  {
  }

  /** Only the three rendered names parse. */
  lemma ParseMethodOnlyNames(text: string)
    ensures ParseMethod(text).Success? <==> exists m: PaymentMethod :: MethodToStr(m) == text
  {
    if ParseMethod(text).Success? {
      MethodRoundTrip(ParseMethod(text).value);
    }
  }

  /** The amount column is an `i32`: every stored amount lies in its range. */
  predicate AmountsFit(ps: Payments) {
    forall i :: 0 <= i < |ps| ==> I32Min <= ps[i].amount_cents <= I32Max
  }

  /** The id column is the primary key. */
  predicate UniqueIds(ps: Payments) {
    forall i, j :: 0 <= i < j < |ps| ==> ps[i].id != ps[j].id
  }

  // ---------------------------------------------------------------------------
  // Lookups
  // ---------------------------------------------------------------------------

  function FindById(ps: Payments, id: Id): Option<Payment> {
    FindFirst(ps, (p: Payment) => p.id == id)
  }

  /**
   * `find_by_stripe_id`: `WHERE stripe_payment_id = ?` compares with the
   * given text, so a row without a Stripe id never matches.
   */
  function FindByStripeId(ps: Payments, stripeId: string): (r: Option<Payment>)
    ensures r.Some? ==> r.value in ps && r.value.stripe_payment_id == Some(stripeId)
    ensures r.None? <==> forall i :: 0 <= i < |ps| ==> ps[i].stripe_payment_id != Some(stripeId)
  {
    FindFirst(ps, (p: Payment) => p.stripe_payment_id == Some(stripeId))
  }

  /** The sort key of `ORDER BY created_at`. */
  function CreatedKey(p: Payment): seq<int> {
    [p.created_at]
  }

  /** `find_by_member`: that member's rows, newest first. */
  function FindByMember(ps: Payments, member: Id): (r: Payments)
    ensures Sorted(r, CreatedKey, true)
    ensures |r| == Count(ps, (p: Payment) => p.member_id == member)
    ensures multiset(r) == multiset(Filter(ps, (p: Payment) => p.member_id == member))
  {
    var mine := Filter(ps, (p: Payment) => p.member_id == member);
    FilterCount(ps, (p: Payment) => p.member_id == member);
    SortBy(mine, CreatedKey, true)
  }

  /** The rows `find_by_member` returns are exactly that member's rows. */
  lemma FindByMemberRows(ps: Payments, member: Id)
    ensures forall p :: p in FindByMember(ps, member) <==> p in ps && p.member_id == member
  {
    SortByMembers(Filter(ps, (p: Payment) => p.member_id == member), CreatedKey, true);
  }

  /** In the member's list every payment was created no earlier than the ones after it. */
  lemma FindByMemberNewestFirst(ps: Payments, member: Id, i: int, j: int)
    requires 0 <= i < j < |FindByMember(ps, member)|
    ensures FindByMember(ps, member)[i].created_at >= FindByMember(ps, member)[j].created_at
  {
    var r := FindByMember(ps, member);
    SortedPairs(r, CreatedKey, true, i, j);
    var a, b := CreatedKey(r[i]), CreatedKey(r[j]);
    assert LexCmp(b, a) <= 0;
  }

  // ---------------------------------------------------------------------------
  // Create
  // ---------------------------------------------------------------------------

  /**
   * `create`: the row is inserted with the amount bound through `as i32`
   * and created_at = updated_at = now, whatever timestamps the caller put
   * in the record; the row is then read back. An id already in the table
   * violates the primary key, which surfaces as a Database error.
   */
  function Create(ps: Payments, p: Payment, now: Time): (r: Result<(Payments, Payment), AppError>)
    ensures r.Failure? <==> FindById(ps, p.id).Some?
    ensures r.Failure? ==> r.error.Database?
    ensures r.Success? ==> r.value.0 == ps + [r.value.1]
    ensures r.Success? ==> r.value.1.created_at == now && r.value.1.updated_at == now
    ensures r.Success? ==> r.value.1.amount_cents == WrapI32(p.amount_cents)
    ensures r.Success? ==> r.value.1.(amount_cents := p.amount_cents, created_at := p.created_at, updated_at := p.updated_at) == p
  {
    if FindById(ps, p.id).Some? then Failure(Database("UNIQUE constraint failed: payments.id"))
    else
      var row := p.(amount_cents := WrapI32(p.amount_cents), created_at := now, updated_at := now);
      Success((ps + [row], row))
  }

  /** A created payment is found again by its id. */
  lemma CreateThenFind(ps: Payments, p: Payment, now: Time)
    requires FindById(ps, p.id).None?
    ensures Create(ps, p, now).Success?
    ensures FindById(Create(ps, p, now).value.0, p.id) == Some(Create(ps, p, now).value.1)
  {
    var row := Create(ps, p, now).value.1;
    FindFirstAppend(ps, row, (x: Payment) => x.id == p.id);
  }

  /**
   * The amount read back equals the amount given exactly when it lies in the
   * i32 range: larger amounts come back wrapped.
   */
  lemma AmountRoundTrip(ps: Payments, p: Payment, now: Time)
    requires FindById(ps, p.id).None?
    ensures Create(ps, p, now).Success?
    ensures FindById(Create(ps, p, now).value.0, p.id).Some?
    ensures FindById(Create(ps, p, now).value.0, p.id).value.amount_cents == p.amount_cents
            <==> I32Min <= p.amount_cents <= I32Max
  {
    CreateThenFind(ps, p, now);
  }

  // ---------------------------------------------------------------------------
  // Update
  // ---------------------------------------------------------------------------

  /**
   * The row after `update`'s statement: every column but id and created_at
   * is taken from the request, absent values included.
   */
  function Overwrite(row: Payment, p: Payment, now: Time): (r: Payment)
    ensures r.id == row.id && r.created_at == row.created_at && r.updated_at == now
    ensures r.amount_cents == WrapI32(p.amount_cents)
    ensures r.(amount_cents := p.amount_cents) == p.(id := row.id, created_at := row.created_at, updated_at := now)
  {
    p.(id := row.id, amount_cents := WrapI32(p.amount_cents), created_at := row.created_at, updated_at := now)
  }

  /** The stored row's previous contents do not matter, paid_at and the Stripe id included. */
  lemma OverwriteForgetsPrevious(a: Payment, b: Payment, p: Payment, now: Time)
    requires a.id == b.id && a.created_at == b.created_at
    ensures Overwrite(a, p, now) == Overwrite(b, p, now)
    ensures p.paid_at.None? ==> Overwrite(a, p, now).paid_at.None?
    ensures p.stripe_payment_id.None? ==> Overwrite(a, p, now).stripe_payment_id.None?
  {
  }

  /**
   * `update`: the rows with the id are overwritten; reading the row back
   * fails with "Failed to retrieve updated payment" when there is none.
   */
  function Update(ps: Payments, id: Id, p: Payment, now: Time): (r: Result<(Payments, Payment), AppError>)
    ensures r.Failure? <==> FindById(ps, id).None?
    ensures r.Failure? ==> r.error == Database("Failed to retrieve updated payment")
    ensures r.Success? ==> r.value.1 == Overwrite(FindById(ps, id).value, p, now)
    ensures r.Success? ==> |r.value.0| == |ps| && forall i :: 0 <= i < |ps| ==>
              r.value.0[i] == if ps[i].id == id then Overwrite(ps[i], p, now) else ps[i]
  {
    match FindById(ps, id)
    case None => Failure(Database("Failed to retrieve updated payment"))
    case Some(row) =>
      Success((MapWhere(ps, (x: Payment) => x.id == id, (x: Payment) => Overwrite(x, p, now)), Overwrite(row, p, now)))
  }

  /**
   * The row after `update_status`'s statement: the status and updated_at
   * are set, and paid_at becomes now only for Completed.
   */
  function SetStatus(row: Payment, status: PaymentStatus, now: Time): (r: Payment)
    ensures r.status == status && r.updated_at == now
    ensures status == Completed ==> r.paid_at == Some(now)
    ensures status != Completed ==> r.paid_at == row.paid_at
    ensures r.(status := row.status, paid_at := row.paid_at, updated_at := row.updated_at) == row
  {
    row.(status := status, paid_at := if status == Completed then Some(now) else row.paid_at, updated_at := now)
  }

  /** Setting the same status again only moves the timestamps to the later call. */
  lemma SetStatusTwice(row: Payment, status: PaymentStatus, t1: Time, t2: Time)
    ensures SetStatus(SetStatus(row, status, t1), status, t2) == SetStatus(row, status, t2)
  {
  }

  /** `update_status`: like `update`, NotFound surfaces as a Database error. */
  function UpdateStatus(ps: Payments, id: Id, status: PaymentStatus, now: Time): (r: Result<(Payments, Payment), AppError>)
    ensures r.Failure? <==> FindById(ps, id).None?
    ensures r.Failure? ==> r.error == Database("Failed to retrieve updated payment")
    ensures r.Success? ==> r.value.1 == SetStatus(FindById(ps, id).value, status, now)
    ensures r.Success? ==> |r.value.0| == |ps| && forall i :: 0 <= i < |ps| ==>
              r.value.0[i] == if ps[i].id == id then SetStatus(ps[i], status, now) else ps[i]
  {
    match FindById(ps, id)
    case None => Failure(Database("Failed to retrieve updated payment"))
    case Some(row) =>
      Success((MapWhere(ps, (x: Payment) => x.id == id, (x: Payment) => SetStatus(x, status, now)), SetStatus(row, status, now)))
  }

  /**
   * Leaving Completed keeps the payment date: a refunded or failed payment
   * still reports when it was paid.
   */
  lemma StatusChangeKeepsPaidAt(ps: Payments, id: Id, status: PaymentStatus, now: Time)
    requires FindById(ps, id).Some? && status != Completed
    ensures UpdateStatus(ps, id, status, now).Success?
    ensures UpdateStatus(ps, id, status, now).value.1.paid_at == FindById(ps, id).value.paid_at
  {
  }

  /** A create keeps ids unique, since a duplicate id is refused, and amounts within 32 bits. */
  lemma CreateKeepsInvariants(ps: Payments, p: Payment, now: Time)
    requires AmountsFit(ps) && UniqueIds(ps) && FindById(ps, p.id).None?
    ensures AmountsFit(Create(ps, p, now).value.0) && UniqueIds(Create(ps, p, now).value.0)
  {
    var r := Create(ps, p, now).value.0;
    assert forall i :: 0 <= i < |ps| ==> r[i] == ps[i];
  }

  /** An update never changes an id and writes amounts through the 32-bit column. */
  lemma UpdateKeepsInvariants(ps: Payments, id: Id, p: Payment, now: Time)
    requires AmountsFit(ps) && UniqueIds(ps) && FindById(ps, id).Some?
    ensures AmountsFit(Update(ps, id, p, now).value.0) && UniqueIds(Update(ps, id, p, now).value.0)
  {
    var r := Update(ps, id, p, now).value.0;
    assert forall i :: 0 <= i < |ps| ==> r[i].id == ps[i].id;
  }

  /** A status change touches neither ids nor amounts. */
  lemma UpdateStatusKeepsInvariants(ps: Payments, id: Id, status: PaymentStatus, now: Time)
    requires AmountsFit(ps) && UniqueIds(ps) && FindById(ps, id).Some?
    ensures AmountsFit(UpdateStatus(ps, id, status, now).value.0) && UniqueIds(UpdateStatus(ps, id, status, now).value.0)
  {
    var r := UpdateStatus(ps, id, status, now).value.0;
    assert forall i :: 0 <= i < |ps| ==> r[i].id == ps[i].id && r[i].amount_cents == ps[i].amount_cents;
  }
}
