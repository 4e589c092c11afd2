/**
 * The payment side of the Stripe integration: recording a checkout as a
 * Pending payment, the webhook's transitions on the payment table, and the
 * manual and waived payments an administrator records. The Stripe API
 * calls and the webhook signature check are parameters: the checkout
 * session Stripe returned (or its error) and the event the signature check
 * produced (or why it failed). The member table is not an input of any of
 * these operations: a completed payment does not touch a member's status or
 * dues.
 */
module StripePayments {
  import opened Wrappers
  import opened Errors
  import opened Domain
  import opened PaymentRepo

  // ---------------------------------------------------------------------------
  // Checkout
  // ---------------------------------------------------------------------------

  /** The parts of Stripe's checkout session the server reads. */
  datatype CheckoutSession = CheckoutSession(id: string, url: Option<string>)

  /** The payment recorded for a checkout, before the table stores it. */
  function CheckoutPayment(id: Id, member: Id, membershipType: string, amount: int, sessionId: string, now: Time): (p: Payment)
    ensures p.status == PaymentStatus.Pending && p.payment_method == Stripe
    ensures p.stripe_payment_id == Some(sessionId) && p.paid_at.None?
    ensures p.currency == "USD" && p.description == membershipType + " Membership Payment"
    ensures p.member_id == member && p.amount_cents == amount
  {
    Domain.Payment(id, member, amount, "USD", PaymentStatus.Pending, Stripe, Some(sessionId),
            membershipType + " Membership Payment", None, now, now)
  }

  /**
   * `create_membership_checkout_session`: a Stripe failure records nothing;
   * otherwise the Pending payment is stored first, and only then does a
   * session without a URL turn into an External error, so that payment
   * stays recorded.
   */
  function CreateCheckout(ps: Payments, id: Id, member: Id, membershipType: string, amount: int,
                          stripe: Result<CheckoutSession, string>, now: Time): (r: (Payments, Result<string, AppError>))
    ensures stripe.Failure? ==> r == (ps, Failure(External("Stripe error: " + stripe.error)))
    ensures stripe.Success? && FindById(ps, id).Some? ==> r.0 == ps && r.1.Failure? && r.1.error.Database?
    ensures stripe.Success? && FindById(ps, id).None? ==>
              r.0 == Create(ps, CheckoutPayment(id, member, membershipType, amount, stripe.value.id, now), now).value.0
    ensures stripe.Success? && FindById(ps, id).None? ==>
              r.1 == if stripe.value.url.Some? then Success(stripe.value.url.value)
                     else Failure(External("No checkout URL returned"))
  {
    match stripe
    case Failure(e) => (ps, Failure(External("Stripe error: " + e)))
    case Success(session) =>
      match Create(ps, CheckoutPayment(id, member, membershipType, amount, session.id, now), now)
      case Failure(e) => (ps, Failure(e))
      case Success((ps', _)) =>
        match session.url
        case None => (ps', Failure(External("No checkout URL returned")))
        case Some(url) => (ps', Success(url))
  }

  /** After a checkout the session id finds a Pending, unpaid Stripe payment of that member. */
  lemma CheckoutThenFindByStripeId(ps: Payments, id: Id, member: Id, membershipType: string, amount: int,
                                   session: CheckoutSession, now: Time)
    requires FindById(ps, id).None?
    requires forall i :: 0 <= i < |ps| ==> ps[i].stripe_payment_id != Some(session.id)
    ensures var found := FindByStripeId(CreateCheckout(ps, id, member, membershipType, amount, Success(session), now).0, session.id);
            found.Some? && found.value.id == id && found.value.member_id == member
            && found.value.status == PaymentStatus.Pending && found.value.paid_at.None?
  {
    var p := CheckoutPayment(id, member, membershipType, amount, session.id, now);
    var row := Create(ps, p, now).value.1;
    Collections.FindFirstAppend(ps, row, (x: Payment) => x.stripe_payment_id == Some(session.id));
  }

  // ---------------------------------------------------------------------------
  // Webhook
  // ---------------------------------------------------------------------------

  /** The events the webhook acts on; every other event type is `Unhandled`. */
  datatype WebhookEvent =
    | CheckoutCompleted(sessionId: string)
    | CheckoutExpired(sessionId: string)
    | PaymentFailed(paymentIntentId: string)
    | Unhandled

  /** Why the signature check rejected a payload. */
  datatype WebhookError = BadSignature | Malformed(message: string)

  /** The payment after `handle_successful_payment`: Completed, paid now. */
  function MarkCompleted(p: Payment, now: Time): (q: Payment)
    ensures q.status == Completed && q.paid_at == Some(now)
  {
    p.(status := Completed, paid_at := Some(now), updated_at := now)
  }

  /** The payment after `handle_expired_session` or `handle_failed_payment`: Failed, paid_at kept. */
  function MarkFailed(p: Payment, now: Time): (q: Payment)
    ensures q.status == Failed && q.paid_at == p.paid_at
  {
    p.(status := Failed, updated_at := now)
  }

  /**
   * The shared shape of the three handlers: look the payment up by Stripe
   * id; if there is none, nothing happens; otherwise write the changed
   * record back through `update`.
   */
  function Transition(ps: Payments, stripeId: string, completed: bool, now: Time): (r: Payments)
    ensures |r| == |ps|
    ensures FindByStripeId(ps, stripeId).None? ==> r == ps
  {
    match FindByStripeId(ps, stripeId)
    case None => ps
    case Some(p) =>
      var q := if completed then MarkCompleted(p, now) else MarkFailed(p, now);
      assert exists i :: 0 <= i < |ps| && ps[i] == p;
      Update(ps, p.id, q, now).value.0
  }

  /**
   * `handle_webhook`: a bad signature is BadRequest, any other verification
   * failure External; a verified event changes at most the payment it names,
   * and an unhandled event changes nothing.
   */
  function HandleWebhook(ps: Payments, verified: Result<WebhookEvent, WebhookError>, now: Time): (r: Result<Payments, AppError>)
    ensures verified == Failure(BadSignature) ==> r == Failure(BadRequest("Invalid signature"))
    ensures verified.Failure? && verified.error.Malformed? ==>
              r == Failure(External("Webhook error: " + verified.error.message))
    ensures verified.Success? ==> r.Success? && |r.value| == |ps|
    ensures verified == Success(Unhandled) ==> r == Success(ps)
  {
    match verified
    case Failure(BadSignature) => Failure(BadRequest("Invalid signature"))
    case Failure(Malformed(msg)) => Failure(External("Webhook error: " + msg))
    case Success(CheckoutCompleted(sid)) => Success(Transition(ps, sid, true, now))
    case Success(CheckoutExpired(sid)) => Success(Transition(ps, sid, false, now))
    case Success(PaymentFailed(pid)) => Success(Transition(ps, pid, false, now))
    case Success(Unhandled) => Success(ps)
  }

  /** The Stripe id a verified event names, if any. */
  function EventStripeId(e: WebhookEvent): Option<string> {
    match e
    case CheckoutCompleted(sid) => Some(sid)
    case CheckoutExpired(sid) => Some(sid)
    case PaymentFailed(pid) => Some(pid)
    case Unhandled => None
  }

  /** An event about a Stripe id no payment carries is acknowledged and changes nothing. */
  lemma UnknownIdNoChange(ps: Payments, e: WebhookEvent, now: Time)
    requires EventStripeId(e).Some? && FindByStripeId(ps, EventStripeId(e).value).None?
    ensures HandleWebhook(ps, Success(e), now) == Success(ps)
  {
  }

  /**
   * Completing a known checkout marks the payment Completed and paid now,
   * whatever its status was before (a Refunded or Failed payment included);
   * rows with another id are untouched, and nothing but status, paid_at and
   * updated_at changes in the payment's own rows.
   */
  lemma CompletionMarksPaid(ps: Payments, sid: string, now: Time)
    requires AmountsFit(ps) && FindByStripeId(ps, sid).Some?
    ensures var p := FindByStripeId(ps, sid).value;
            var r := HandleWebhook(ps, Success(CheckoutCompleted(sid)), now).value;
            forall i :: 0 <= i < |ps| ==>
              r[i] == if ps[i].id == p.id then MarkCompleted(p, now).(created_at := ps[i].created_at) else ps[i]
  {
    var p := FindByStripeId(ps, sid).value;
    assert exists i :: 0 <= i < |ps| && ps[i] == p;
    assert I32Min <= p.amount_cents <= I32Max;
  }

  /**
   * An expired checkout or a failed payment intent marks the payment Failed
   * and keeps its paid_at: a payment already completed keeps its payment
   * date while reported as Failed.
   */
  lemma FailureKeepsPaidAt(ps: Payments, e: WebhookEvent, now: Time)
    requires AmountsFit(ps) && (e.CheckoutExpired? || e.PaymentFailed?)
    requires FindByStripeId(ps, EventStripeId(e).value).Some?
    ensures var p := FindByStripeId(ps, EventStripeId(e).value).value;
            var r := HandleWebhook(ps, Success(e), now).value;
            forall i :: 0 <= i < |ps| ==>
              r[i] == if ps[i].id == p.id then MarkFailed(p, now).(created_at := ps[i].created_at) else ps[i]
  {
    var p := FindByStripeId(ps, EventStripeId(e).value).value;
    assert exists i :: 0 <= i < |ps| && ps[i] == p;
    assert I32Min <= p.amount_cents <= I32Max;
  }

  /**
   * One completion in a table with unique ids: the payment found is row `k`,
   * and afterwards the lookup still finds row `k`, now Completed; the table
   * keeps unique ids and 32-bit amounts.
   */
  lemma CompletionStep(ps: Payments, sid: string, k: nat, now: Time)
    requires AmountsFit(ps) && UniqueIds(ps)
    requires k < |ps| && FindByStripeId(ps, sid) == Some(ps[k])
    ensures HandleWebhook(ps, Success(CheckoutCompleted(sid)), now).Success?
    ensures var r := HandleWebhook(ps, Success(CheckoutCompleted(sid)), now).value;
            |r| == |ps| && r[k] == MarkCompleted(ps[k], now)
            && FindByStripeId(r, sid) == Some(r[k]) && AmountsFit(r) && UniqueIds(r)
  {
    var r := CompletedTable(ps, sid, k, now);
    FirstWithStripeId(ps, sid, k);
    FindFromIndex(r, sid, k);
  }

  /** The table after the completion of row `k`: that row rewritten, every other row kept. */
  lemma CompletedTable(ps: Payments, sid: string, k: nat, now: Time) returns (r: Payments)
    requires AmountsFit(ps) && UniqueIds(ps)
    requires k < |ps| && FindByStripeId(ps, sid) == Some(ps[k])
    ensures HandleWebhook(ps, Success(CheckoutCompleted(sid)), now) == Success(r)
    ensures |r| == |ps| && r[k] == MarkCompleted(ps[k], now) && AmountsFit(r) && UniqueIds(r)
    ensures forall i :: 0 <= i < |ps| && i != k ==> r[i] == ps[i]
  {
    var p := ps[k];
    assert exists i :: 0 <= i < |ps| && ps[i] == p;
    UpdateKeepsInvariants(ps, p.id, MarkCompleted(p, now), now);
    r := Update(ps, p.id, MarkCompleted(p, now), now).value.0;
    assert forall i :: 0 <= i < |ps| && i != k ==> ps[i].id != p.id;
    assert r[k] == Overwrite(p, MarkCompleted(p, now), now);
  }


  /**
   * Replaying a completion is not idempotent: the second delivery moves
   * paid_at to the time of the replay.
   */
  lemma CompletionReplayMovesPaidAt(ps: Payments, sid: string, t1: Time, t2: Time)
    requires AmountsFit(ps) && UniqueIds(ps) && FindByStripeId(ps, sid).Some?
    ensures HandleWebhook(ps, Success(CheckoutCompleted(sid)), t1).Success?
    ensures var once := HandleWebhook(ps, Success(CheckoutCompleted(sid)), t1).value;
            FindByStripeId(once, sid).Some? && FindByStripeId(once, sid).value.paid_at == Some(t1)
            && HandleWebhook(once, Success(CheckoutCompleted(sid)), t2).Success?
            && FindByStripeId(HandleWebhook(once, Success(CheckoutCompleted(sid)), t2).value, sid).Some?
            && FindByStripeId(HandleWebhook(once, Success(CheckoutCompleted(sid)), t2).value, sid).value.paid_at == Some(t2)
  {
    var k :| 0 <= k < |ps| && ps[k] == FindByStripeId(ps, sid).value;
    CompletionStep(ps, sid, k, t1);
    var once := HandleWebhook(ps, Success(CheckoutCompleted(sid)), t1).value;
    CompletionStep(once, sid, k, t2);
  }

  /** The row `FindByStripeId` returns in a table with unique ids is the first row carrying the Stripe id. */
  lemma {:induction false} FirstWithStripeId(ps: Payments, sid: string, k: nat)
    requires k < |ps| && FindByStripeId(ps, sid) == Some(ps[k])
    requires UniqueIds(ps)
    ensures forall i :: 0 <= i < k ==> ps[i].stripe_payment_id != Some(sid)
  {
    if k > 0 {
      assert ps[0].id != ps[k].id;
      assert FindByStripeId(ps, sid) == FindByStripeId(ps[1..], sid);
      FirstWithStripeId(ps[1..], sid, k - 1);
    }
  }

  lemma {:induction false} FindFromIndex(ps: Payments, sid: string, k: nat)
    requires k < |ps| && ps[k].stripe_payment_id == Some(sid)
    requires forall i :: 0 <= i < k ==> ps[i].stripe_payment_id != Some(sid)
    ensures FindByStripeId(ps, sid) == Some(ps[k])
  {
    if k > 0 {
      FindFromIndex(ps[1..], sid, k - 1);
    }
  }

  // ---------------------------------------------------------------------------
  // Manual and waived payments
  // ---------------------------------------------------------------------------

  /** `create_manual_payment`: a Completed manual payment, paid now, with no Stripe id. */
  function ManualPayment(ps: Payments, id: Id, member: Id, amount: int, description: string, now: Time)
    : (r: Result<(Payments, Payment), AppError>)
    ensures r.Failure? <==> FindById(ps, id).Some?
    ensures r.Success? ==> r.value.0 == ps + [r.value.1]
    ensures r.Success? ==> var p := r.value.1;
              p.status == Completed && p.payment_method == Manual && p.paid_at == Some(now)
              && p.stripe_payment_id.None? && p.member_id == member && p.currency == "USD"
              && p.amount_cents == WrapI32(amount) && p.description == description
  {
    Create(ps, Domain.Payment(id, member, amount, "USD", Completed, Manual, None, description, Some(now), now, now), now)
  }

  /** `waive_payment`: a Completed payment of zero, method Waived, paid now, with no Stripe id. */
  function WaivePayment(ps: Payments, id: Id, member: Id, description: string, now: Time)
    : (r: Result<(Payments, Payment), AppError>)
    ensures r.Failure? <==> FindById(ps, id).Some?
    ensures r.Success? ==> r.value.0 == ps + [r.value.1]
    ensures r.Success? ==> var p := r.value.1;
              p.status == Completed && p.payment_method == Waived && p.paid_at == Some(now)
              && p.stripe_payment_id.None? && p.member_id == member && p.amount_cents == 0
  {
    Create(ps, Domain.Payment(id, member, 0, "USD", Completed, Waived, None, description, Some(now), now, now), now)
  }

  /** Manual and waived payments carry no Stripe id, so no webhook event can ever reach them. */
  lemma OfflinePaymentsUnreachableByWebhook(ps: Payments, id: Id, member: Id, amount: int, description: string,
                                            sid: string, now: Time)
    requires FindById(ps, id).None?
    ensures FindByStripeId(ManualPayment(ps, id, member, amount, description, now).value.0, sid)
            == FindByStripeId(ps, sid)
    ensures FindByStripeId(WaivePayment(ps, id, member, description, now).value.0, sid)
            == FindByStripeId(ps, sid)
  {
    var m := ManualPayment(ps, id, member, amount, description, now).value.1;
    var w := WaivePayment(ps, id, member, description, now).value.1;
    FindAppendNoMatch(ps, m, sid);
    FindAppendNoMatch(ps, w, sid);
  }

  lemma {:induction false} FindAppendNoMatch(ps: Payments, x: Payment, sid: string)
    requires x.stripe_payment_id.None?
    ensures FindByStripeId(ps + [x], sid) == FindByStripeId(ps, sid)
  {
    if |ps| == 0 {
      assert FindByStripeId([x], sid) == FindByStripeId([x][1..], sid);
    } else {
      FindAppendNoMatch(ps[1..], x, sid);
      assert (ps + [x])[1..] == ps[1..] + [x];
    }
  }
}
