/**
 * The manager's side of the workflow (`ManagerController`): the queue of claims
 * the coordinator approved, final approval behind the manager's stricter gate
 * (which marks the claim paid and issues a payment reference), and rejection,
 * which also withdraws any payment. Neither action looks at the current status.
 */
module Manager {
  import opened Wrappers
  import opened Text
  import opened Time
  import opened Claims
  import opened Validation
  import opened Listing

  /** The note stored when the manager gives no reason. */
  const DefaultNote: string := "Changes Requested"

  /** What `Random.Shared.Next(1000, 9999)` can return: the upper bound is exclusive. */
  type Suffix = n: int | 1000 <= n < 9999 witness 1000

  /** `PAY-{yyyyMMddHHmmss}-{suffix}`: 23 characters, the stamp of the approval
      second in positions 4 to 17 and the four suffix digits after the second dash. */
  function PaymentReference(stamp: Instant, suffix: Suffix): (ref: string)
    ensures |ref| == 23
    ensures ref[..4] == "PAY-" && ref[18] == '-'
    ensures ref[4..18] == Stamp(stamp)
    ensures AllDigits(ref[19..]) && NumberValue(ref[19..]) == suffix
  {
    var tail := Digits(suffix, 4);
    DigitsRoundTrip(suffix, 4);
    ReferenceLayout(Stamp(stamp), tail);
    "PAY-" + Stamp(stamp) + "-" + tail
  }

  /** Where the parts of a reference sit in it. */
  lemma ReferenceLayout(stamp: string, tail: string)
    requires |stamp| == 14 && |tail| == 4
    ensures var ref := "PAY-" + stamp + "-" + tail;
      && |ref| == 23 && ref[..4] == "PAY-" && ref[4..18] == stamp && ref[18] == '-' && ref[19..] == tail
  {
  }

  /** Reads a payment reference back into its approval second and its suffix. */
  function ParsePaymentReference(ref: string): Option<(DateTime, int)> {
    if |ref| == 23 && ref[..4] == "PAY-" && ref[18] == '-' && AllDigits(ref[19..]) then
      match ParseStamp(ref[4..18])
      case Some(t) => Some((t, NumberValue(ref[19..])))
      case None => None
    else None
  }

  /** A reference records exactly the approval second and the suffix drawn. */
  lemma PaymentReferenceRoundTrip(stamp: Instant, suffix: Suffix)
    ensures ParsePaymentReference(PaymentReference(stamp, suffix)) == Some((WholeSecond(stamp), suffix))
  {
    StampRoundTrip(stamp);
  }

  /** Two approvals get the same reference exactly when they fall in the same
      second and draw the same suffix: uniqueness is not guaranteed. */
  lemma PaymentReferenceCollision(a: Instant, m: Suffix, b: Instant, n: Suffix)
    ensures PaymentReference(a, m) == PaymentReference(b, n) <==> WholeSecond(a) == WholeSecond(b) && m == n
  {
    PaymentReferenceRoundTrip(a, m);
    PaymentReferenceRoundTrip(b, n);
    if WholeSecond(a) == WholeSecond(b) {
      StampIdentifiesSecond(a, b);
      assert Stamp(a) == Stamp(b);
    }
  }

  /** `Index`: the Coordinator Approved claims, optionally narrowed to lecturer
      names containing the trimmed search term, oldest first. */
  method Queue(store: Store, nameTerm: Option<string>) returns (r: seq<Entry>)
    ensures IsListing(store, AwaitingManager(nameTerm), OldestFirst, r)
  {
    r := Select(store, AwaitingManager(nameTerm), OldestFirst);
  }

  /** `Approve`: an unknown id is NotFound; a claim the manager's gate refuses is
      left as it is and the first failing check is reported; otherwise the claim
      becomes Manager Approved and Paid, with a reference stamped `stampTime`,
      paid at `paidTime`, its review note cleared and nothing else touched. The
      controller reads the clock once for the reference and once more for the
      payment time, hence two instants. */
  function Approve(store: Store, id: int, stampTime: Instant, paidTime: Instant, suffix: Suffix): (r: Step)
    ensures id !in store ==> r == Step(store, Fail(NotFound))
    ensures id in store ==> (r.reply.Pass? <==> Admissible(store[id], ManagerLimits))
    ensures r.reply.Fail? ==> r.store == store
    ensures id in store && !Admissible(store[id], ManagerLimits) ==>
              r.reply == Fail(PolicyViolation(Validate(store[id], ManagerLimits).error))
    ensures r.reply.Pass? ==>
              && OnlyRecordChanged(store, r.store, id)
              && r.store[id] == store[id].(status := ManagerApproved, paymentStatus := Paid,
                                           paymentReference := Some(PaymentReference(stampTime, suffix)),
                                           paidUtc := Some(paidTime), reviewNote := None)
  {
    if id !in store then Step(store, Fail(NotFound))
    else
      match Validate(store[id], ManagerLimits)
      case Fail(v) => Step(store, Fail(PolicyViolation(v)))
      case Pass =>
        var paid := store[id].(status := ManagerApproved, paymentStatus := Paid,
                               paymentReference := Some(PaymentReference(stampTime, suffix)),
                               paidUtc := Some(paidTime), reviewNote := None);
        Step(store[id := paid], Pass)
  }

  /** `Reject`: an unknown id is NotFound; any other claim goes to Needs Fix with
      the trimmed reason (or the default note), the manager named as reviewer and
      `now` as review time, and its payment withdrawn: Unpaid, no reference, no
      payment time. */
  function Reject(store: Store, id: int, reason: Option<string>, now: Instant): (r: Step)
    ensures id !in store ==> r == Step(store, Fail(NotFound))
    ensures id in store ==>
              && r.reply.Pass?
              && OnlyRecordChanged(store, r.store, id)
              && r.store[id] == store[id].(status := NeedsFix, reviewNote := Some(RejectionNote(reason, DefaultNote)),
                                           reviewedBy := Some(ByManager), reviewedAt := Some(now),
                                           paymentStatus := Unpaid, paymentReference := None, paidUtc := None)
  {
    if id !in store then Step(store, Fail(NotFound))
    else
      var note := RejectionNote(reason, DefaultNote);
      Step(store[id := store[id].(status := NeedsFix, reviewNote := Some(note),
                                  reviewedBy := Some(ByManager), reviewedAt := Some(now),
                                  paymentStatus := Unpaid, paymentReference := None, paidUtc := None)], Pass)
  }
}
