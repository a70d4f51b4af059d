/**
 * The three controllers taken together: every action that writes to the table,
 * the invariants all of them keep, and the places where the code's lifecycle is
 * looser than a strict approval chain would be (no status guards on reviewer
 * actions, no ownership check on edits).
 */
module Lifecycle {
  import opened Wrappers
  import opened Time
  import opened Claims
  import opened Validation
  import Lecturer
  import Coordinator
  import Manager

  /** Every request that can change the table, with the inputs it receives. */
  datatype Action =
    | Create(id: int, user: Lecturer.Profile, hoursWorked: real, evidence: Option<Lecturer.Upload>,
             guid: Lecturer.GuidN, now: Instant)
    | Edit(id: int, user: Lecturer.Profile, hoursWorked: real, evidence: Option<Lecturer.Upload>,
           guid: Lecturer.GuidN)
    | CoordinatorApprove(id: int)
    | CoordinatorReject(id: int, reason: Option<string>, now: Instant)
    | ManagerApprove(id: int, stampTime: Instant, paidTime: Instant, suffix: Manager.Suffix)
    | ManagerReject(id: int, reason: Option<string>, now: Instant)

  /** A `Create` receives an id the table does not hold yet. */
  predicate Enabled(store: Store, a: Action) {
    a.Create? ==> a.id !in store
  }

  /** The reviewers' actions. */
  predicate ByReviewer(a: Action) {
    a.CoordinatorApprove? || a.CoordinatorReject? || a.ManagerApprove? || a.ManagerReject?
  }

  function Apply(store: Store, a: Action): Step
    requires Enabled(store, a)
  {
    match a
    case Create(id, user, hours, evidence, guid, now) => Lecturer.Submit(store, id, user, hours, evidence, guid, now)
    case Edit(id, user, hours, evidence, guid) => Lecturer.Resubmit(store, id, user, hours, evidence, guid)
    case CoordinatorApprove(id) => Coordinator.Approve(store, id)
    case CoordinatorReject(id, reason, now) => Coordinator.Reject(store, id, reason, now)
    case ManagerApprove(id, stampTime, paidTime, suffix) => Manager.Approve(store, id, stampTime, paidTime, suffix)
    case ManagerReject(id, reason, now) => Manager.Reject(store, id, reason, now)
  }

  /** Replacing one record by a well-formed one keeps the table consistent. */
  lemma ReplacementKeepsConsistency(before: Store, after: Store, id: int)
    requires Consistent(before) && OnlyRecordChanged(before, after, id)
    requires WellFormed(after[id])
    ensures Consistent(after)
  {
    forall k | k in after ensures WellFormed(after[k]) {
      if k != id {
        assert k in before;
      }
    }
  }

  /** A record whose figures are those of a consistent record, and whose payment
      columns agree, is well formed. */
  lemma SameFiguresWellFormed(before: Claim, after: Claim)
    requires AmountConsistent(before) && PaymentConsistent(after)
    requires after.hoursWorked == before.hoursWorked && after.rate == before.rate && after.amount == before.amount
    ensures WellFormed(after)
  {
  }

  /** A submission files a well-formed record. */
  lemma SubmitKeepsConsistency(store: Store, id: int, user: Lecturer.Profile, hoursWorked: real,
                               evidence: Option<Lecturer.Upload>, guid: Lecturer.GuidN, now: Instant)
    requires id !in store && Consistent(store)
    ensures Consistent(Lecturer.Submit(store, id, user, hoursWorked, evidence, guid, now).store)
  {
    var r := Lecturer.Submit(store, id, user, hoursWorked, evidence, guid, now);
    if r.reply.Pass? {
      ReplacementKeepsConsistency(store, r.store, id);
    }
  }

  /** A resubmission leaves a well-formed record: total recomputed, payment withdrawn. */
  lemma ResubmitKeepsConsistency(store: Store, id: int, user: Lecturer.Profile, hoursWorked: real,
                                 evidence: Option<Lecturer.Upload>, guid: Lecturer.GuidN)
    requires Consistent(store)
    ensures Consistent(Lecturer.Resubmit(store, id, user, hoursWorked, evidence, guid).store)
  {
    var r := Lecturer.Resubmit(store, id, user, hoursWorked, evidence, guid);
    if r.reply.Pass? {
      ReplacementKeepsConsistency(store, r.store, id);
    }
  }

  /** A coordinator approval only changes status and note. */
  lemma CoordinatorApproveKeepsConsistency(store: Store, id: int)
    requires Consistent(store)
    ensures Consistent(Coordinator.Approve(store, id).store)
  {
    var r := Coordinator.Approve(store, id);
    if r.reply.Pass? {
      assert WellFormed(store[id]);
      SameFiguresWellFormed(store[id], r.store[id]);
      ReplacementKeepsConsistency(store, r.store, id);
    }
  }

  /** A coordinator rejection leaves the figures and the payment columns alone. */
  lemma CoordinatorRejectKeepsConsistency(store: Store, id: int, reason: Option<string>, now: Instant)
    requires Consistent(store)
    ensures Consistent(Coordinator.Reject(store, id, reason, now).store)
  {
    var r := Coordinator.Reject(store, id, reason, now);
    if r.reply.Pass? {
      assert WellFormed(store[id]);
      SameFiguresWellFormed(store[id], r.store[id]);
      ReplacementKeepsConsistency(store, r.store, id);
    }
  }

  /** A manager approval sets all three payment columns together. */
  lemma ManagerApproveKeepsConsistency(store: Store, id: int, stampTime: Instant, paidTime: Instant,
                                       suffix: Manager.Suffix)
    requires Consistent(store)
    ensures Consistent(Manager.Approve(store, id, stampTime, paidTime, suffix).store)
  {
    var r := Manager.Approve(store, id, stampTime, paidTime, suffix);
    if r.reply.Pass? {
      assert WellFormed(store[id]);
      SameFiguresWellFormed(store[id], r.store[id]);
      ReplacementKeepsConsistency(store, r.store, id);
    }
  }

  /** A manager rejection clears all three payment columns together. */
  lemma ManagerRejectKeepsConsistency(store: Store, id: int, reason: Option<string>, now: Instant)
    requires Consistent(store)
    ensures Consistent(Manager.Reject(store, id, reason, now).store)
  {
    var r := Manager.Reject(store, id, reason, now);
    if r.reply.Pass? {
      assert WellFormed(store[id]);
      SameFiguresWellFormed(store[id], r.store[id]);
      ReplacementKeepsConsistency(store, r.store, id);
    }
  }

  /** Every action keeps both record invariants: the three payment columns agree,
      and the total is hours times rate. */
  lemma ActionKeepsConsistency(store: Store, a: Action)
    requires Enabled(store, a) && Consistent(store)
    ensures Consistent(Apply(store, a).store)
  {
    match a
    case Create(id, user, hours, evidence, guid, now) => SubmitKeepsConsistency(store, id, user, hours, evidence, guid, now);
    case Edit(id, user, hours, evidence, guid) => ResubmitKeepsConsistency(store, id, user, hours, evidence, guid);
    case CoordinatorApprove(id) => CoordinatorApproveKeepsConsistency(store, id);
    case CoordinatorReject(id, reason, now) => CoordinatorRejectKeepsConsistency(store, id, reason, now);
    case ManagerApprove(id, stampTime, paidTime, suffix) =>
      ManagerApproveKeepsConsistency(store, id, stampTime, paidTime, suffix);
    case ManagerReject(id, reason, now) => ManagerRejectKeepsConsistency(store, id, reason, now);
  }

  /** A sequence of requests each of which is enabled when it arrives. */
  predicate Runs(store: Store, trace: seq<Action>)
    decreases |trace|
  {
    |trace| == 0 || (Enabled(store, trace[0]) && Runs(Apply(store, trace[0]).store, trace[1..]))
  }

  /** The table after a sequence of requests. */
  function Run(store: Store, trace: seq<Action>): Store
    requires Runs(store, trace)
    decreases |trace|
  {
    if |trace| == 0 then store else Run(Apply(store, trace[0]).store, trace[1..])
  }

  /** Both invariants survive any sequence of requests. */
  lemma {:induction false} TraceKeepsConsistency(store: Store, trace: seq<Action>)
    requires Consistent(store) && Runs(store, trace)
    ensures Consistent(Run(store, trace))
    decreases |trace|
  {
    if |trace| > 0 {
      ActionKeepsConsistency(store, trace[0]);
      TraceKeepsConsistency(Apply(store, trace[0]).store, trace[1..]);
    }
  }

  /** Starting from an empty table, every record ever stored is well formed. */
  lemma ReachableTablesAreConsistent(trace: seq<Action>)
    requires Runs(map[], trace)
    ensures Consistent(Run(map[], trace))
  {
    TraceKeepsConsistency(map[], trace);
  }

  /** Reviewers never add or drop records, and never change a lecturer's name,
      hours, rate, total, evidence or creation time. */
  lemma ReviewersKeepSubmissions(store: Store, a: Action)
    requires ByReviewer(a)
    ensures Apply(store, a).store.Keys == store.Keys
    ensures forall id :: id in store ==> SameSubmission(store[id], Apply(store, a).store[id])
  {
    var after := Apply(store, a).store;
    forall id | id in store ensures SameSubmission(store[id], after[id]) {
    }
  }

  /** Only the lecturer's actions put a claim into Pending: a reviewer action that
      leaves a claim Pending found it Pending. */
  lemma ReviewersNeverReopen(store: Store, a: Action, id: int)
    requires ByReviewer(a) && id in store
    ensures Apply(store, a).store[id].status == Pending ==> store[id].status == Pending
  {
    ReviewersKeepSubmissions(store, a);
  }

  /** A claim only becomes Paid through a manager approval of that very claim. */
  lemma OnlyManagerApprovalPays(store: Store, a: Action, id: int)
    requires Enabled(store, a)
    ensures var after := Apply(store, a).store;
            (id in after && after[id].paymentStatus == Paid && (id !in store || store[id].paymentStatus != Paid))
              ==> a.ManagerApprove? && a.id == id
  {
  }

  /** Rejection at either stage always leaves the claim open for the lecturer's
      edit form. */
  lemma RejectionOpensEdit(store: Store, id: int, reason: Option<string>, now: Instant, byManager: bool)
    requires id in store
    ensures var after := if byManager then Manager.Reject(store, id, reason, now).store
                         else Coordinator.Reject(store, id, reason, now).store;
            Lecturer.EditForm(after, id).Success?
  {
  }

  /** Approving twice as coordinator is the same as approving once. */
  lemma CoordinatorApprovalIdempotent(store: Store, id: int)
    ensures var once := Coordinator.Approve(store, id);
            Coordinator.Approve(once.store, id) == Step(once.store, once.reply)
  {
    var once := Coordinator.Approve(store, id);
    if once.reply.Pass? {
      assert once.store[id] == once.store[id].(status := CoordinatorApproved, reviewNote := None);
      assert once.store[id := once.store[id]] == once.store;
    }
  }

  /** The manager can approve a claim the coordinator never saw: the manager's
      approval does not look at the status, so Pending goes straight to Manager
      Approved and Paid. */
  lemma ManagerApprovalSkipsCoordinator(store: Store, id: int, stampTime: Instant, paidTime: Instant, suffix: Manager.Suffix)
    requires id in store && store[id].status == Pending && Admissible(store[id], ManagerLimits)
    ensures var after := Manager.Approve(store, id, stampTime, paidTime, suffix);
            after.reply.Pass? && after.store[id].status == ManagerApproved && after.store[id].paymentStatus == Paid
  {
  }

  /** The gate only reads hours, rate and total. */
  lemma GateReadsOnlyFigures(a: Claim, b: Claim, limits: Limits)
    requires a.hoursWorked == b.hoursWorked && a.rate == b.rate && a.amount == b.amount
    ensures Admissible(a, limits) <==> Admissible(b, limits)
  {
    assert forall k :: Holds(a, limits, k) <==> Holds(b, limits, k);
  }

  /** Approving an already approved and paid claim again is accepted and issues a
      new reference, which differs from the old one whenever the two approvals fall
      in different seconds. */
  lemma ManagerReapprovalReissuesReference(store: Store, id: int, t1: Instant, p1: Instant, n1: Manager.Suffix,
                                           t2: Instant, p2: Instant, n2: Manager.Suffix)
    requires id in store && Admissible(store[id], ManagerLimits)
    ensures Manager.Approve(store, id, t1, p1, n1).reply.Pass?
    ensures var first := Manager.Approve(store, id, t1, p1, n1).store;
            var second := Manager.Approve(first, id, t2, p2, n2);
            && second.reply.Pass?
            && second.store[id].paymentReference == Some(Manager.PaymentReference(t2, n2))
            && (WholeSecond(t1) != WholeSecond(t2) ==>
                  second.store[id].paymentReference != first[id].paymentReference)
  {
    var first := Manager.Approve(store, id, t1, p1, n1).store;
    assert first[id].paymentReference == Some(Manager.PaymentReference(t1, n1));
    GateReadsOnlyFigures(first[id], store[id], ManagerLimits);
    var second := Manager.Approve(first, id, t2, p2, n2);
    assert second.store[id].paymentReference == Some(Manager.PaymentReference(t2, n2));
    Manager.PaymentReferenceCollision(t1, n1, t2, n2);
  }

  /** "Paid implies Manager Approved" is not an invariant of the code: a coordinator
      rejection of a paid claim sends it back to Needs Fix and leaves it Paid. */
  lemma CoordinatorRejectionKeepsPayment(store: Store, id: int, reason: Option<string>, now: Instant)
    requires id in store && store[id].paymentStatus == Paid
    ensures var after := Coordinator.Reject(store, id, reason, now).store[id];
            after.status == NeedsFix && after.paymentStatus == Paid
            && after.paymentReference == store[id].paymentReference
  {
  }

  /** Editing has no ownership check: any signed-in Lecturer or HR user may resubmit any claim
      marked Needs Fix, and the claim then carries that user's rate while still
      filed under the original lecturer's name. */
  lemma EditIgnoresOwnership(store: Store, id: int, user: Lecturer.Profile, hoursWorked: real, guid: Lecturer.GuidN)
    requires id in store && store[id].status == NeedsFix
    requires store[id].lecturerName != Lecturer.FullName(user)
    requires Lecturer.HoursAccepted(hoursWorked)
    ensures var after := Lecturer.Resubmit(store, id, user, hoursWorked, None, guid);
            && after.reply.Pass?
            && after.store[id].rate == user.hourlyRate
            && after.store[id].lecturerName == store[id].lecturerName
            && after.store[id].lecturerName != Lecturer.FullName(user)
  {
  }
}
