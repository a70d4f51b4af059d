/**
 * The coordinator's side of the workflow (`CoordinatorController`): the queue of
 * pending claims, approval behind the coordinator's gate, and rejection back to
 * the lecturer. Neither action looks at the claim's current status; the queue
 * only decides what the coordinator is shown.
 */
module Coordinator {
  import opened Wrappers
  import opened Text
  import opened Time
  import opened Claims
  import opened Validation
  import opened Listing

  /** The note stored when the coordinator gives no reason. */
  const DefaultNote: string := "Please fix and resubmit"

  /** `Index`: the Pending claims, optionally narrowed to lecturer names containing
      the trimmed search term, oldest first. */
  method Queue(store: Store, nameTerm: Option<string>) returns (r: seq<Entry>)
    ensures IsListing(store, AwaitingCoordinator(nameTerm), OldestFirst, r)
  {
    r := Select(store, AwaitingCoordinator(nameTerm), OldestFirst);
  }

  /** `Approve`: an unknown id is NotFound; a claim the coordinator's gate refuses
      is left as it is and the first failing check is reported; otherwise the
      claim becomes Coordinator Approved with its review note cleared and nothing
      else touched. */
  function Approve(store: Store, id: int): (r: Step)
    ensures id !in store ==> r == Step(store, Fail(NotFound))
    ensures id in store ==> (r.reply.Pass? <==> Admissible(store[id], CoordinatorLimits))
    ensures r.reply.Fail? ==> r.store == store
    ensures id in store && !Admissible(store[id], CoordinatorLimits) ==>
              r.reply == Fail(PolicyViolation(Validate(store[id], CoordinatorLimits).error))
    ensures r.reply.Pass? ==>
              && OnlyRecordChanged(store, r.store, id)
              && r.store[id] == store[id].(status := CoordinatorApproved, reviewNote := None)
  {
    if id !in store then Step(store, Fail(NotFound))
    else
      match Validate(store[id], CoordinatorLimits)
      case Fail(v) => Step(store, Fail(PolicyViolation(v)))
      case Pass => Step(store[id := store[id].(status := CoordinatorApproved, reviewNote := None)], Pass)
  }

  /** `Reject`: an unknown id is NotFound; any other claim, whatever its status,
      goes to Needs Fix with the trimmed reason (or the default note), the
      coordinator named as reviewer and `now` as review time. The payment columns
      are left as they were. */
  function Reject(store: Store, id: int, reason: Option<string>, now: Instant): (r: Step)
    ensures id !in store ==> r == Step(store, Fail(NotFound))
    ensures id in store ==>
              && r.reply.Pass?
              && OnlyRecordChanged(store, r.store, id)
              && r.store[id] == store[id].(status := NeedsFix, reviewNote := Some(RejectionNote(reason, DefaultNote)),
                                           reviewedBy := Some(ByCoordinator), reviewedAt := Some(now))
  {
    if id !in store then Step(store, Fail(NotFound))
    else
      var note := RejectionNote(reason, DefaultNote);
      Step(store[id := store[id].(status := NeedsFix, reviewNote := Some(note),
                                  reviewedBy := Some(ByCoordinator), reviewedAt := Some(now))], Pass)
  }
}
