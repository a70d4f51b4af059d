/**
 * Concrete walks through the workflow: the boundary values of the submission
 * checks, one claim carried from submission to payment, a tampered total held
 * back by the gate, and the notes a coordinator rejection stores.
 */
module Scenarios {
  import opened Wrappers
  import opened Text
  import opened Time
  import opened Claims
  import opened Validation
  import Lecturer
  import Coordinator
  import Manager

  const Ada: Lecturer.Profile := Lecturer.Profile("Ada", "Lovelace", 100.0)
  const Guid: Lecturer.GuidN := "0123456789abcdef0123456789abcdef"
  const Noon: Instant := DateTime(2025, 3, 14, 12, 0, 0, 0)

  /** The hour check admits 180 and 0.5 and refuses 0 and 180.01, with no evidence. */
  lemma HourBoundaries(store: Store, id: int)
    requires id !in store
    ensures Lecturer.Submit(store, id, Ada, 180.0, None, Guid, Noon).reply.Pass?
    ensures Lecturer.Submit(store, id, Ada, 0.5, None, Guid, Noon).reply.Pass?
    ensures Lecturer.Submit(store, id, Ada, 0.0, None, Guid, Noon).reply == Fail(HoursOutOfRange(0.0))
    ensures Lecturer.Submit(store, id, Ada, 180.01, None, Guid, Noon).reply == Fail(HoursOutOfRange(180.01))
    ensures Lecturer.Submit(store, id, Ada, 200.0, None, Guid, Noon) == Step(store, Fail(HoursOutOfRange(200.0)))
  {
  }

  /** Upper-case extensions are lower-cased before the comparison. */
  lemma UpperCasePdfIsAllowed()
    ensures ToLower(".PDF") == ".pdf"
  {
    assert ToLower(".PDF")[1] == 'p';
    assert ToLower(".PDF")[2] == 'd';
    assert ToLower(".PDF")[3] == 'f';
  }

  /** A file of exactly 5 MiB is saved under the GUID with its lower-cased
      extension; one byte more is refused; a wrong extension is refused before
      the size is looked at; an empty upload is not inspected at all. */
  lemma EvidenceBoundaries()
    ensures Lecturer.SaveEvidence(Some(Lecturer.Upload(".PDF", 5 * 1024 * 1024)), Guid) == Success(Some(Guid + ".pdf"))
    ensures Lecturer.SaveEvidence(Some(Lecturer.Upload(".pdf", 5 * 1024 * 1024 + 1)), Guid)
              == Failure(FileTooLarge(5 * 1024 * 1024 + 1))
    ensures Lecturer.SaveEvidence(Some(Lecturer.Upload(".txt", 10)), Guid) == Failure(ExtensionNotAllowed(".txt"))
    ensures Lecturer.SaveEvidence(Some(Lecturer.Upload(".exe", 0)), Guid) == Success(None)
  {
    UpperCasePdfIsAllowed();
    assert ToLower(".txt") == ".txt";
    assert ToLower(".pdf") == ".pdf";
  }

  /** Ten hours at 100 give a total of 1000; the coordinator approves; the manager
      approves and the claim is paid with a reference. */
  lemma SubmissionToPayment(store: Store, id: int, stampTime: Instant, paidTime: Instant, suffix: Manager.Suffix)
    requires id !in store
    ensures var s1 := Lecturer.Submit(store, id, Ada, 10.0, None, Guid, Noon);
            var s2 := Coordinator.Approve(s1.store, id);
            var s3 := Manager.Approve(s2.store, id, stampTime, paidTime, suffix);
            && s1.reply.Pass? && s1.store[id].amount == 1000.0 && s1.store[id].status == Pending
            && s2.reply.Pass? && s2.store[id].status == CoordinatorApproved
            && s3.reply.Pass? && s3.store[id].status == ManagerApproved
            && s3.store[id].paymentStatus == Paid && s3.store[id].paymentReference.Some?
  {
    var s1 := Lecturer.Submit(store, id, Ada, 10.0, None, Guid, Noon);
    assert Holds(s1.store[id], CoordinatorLimits, ConsistencyCheck);
    var s2 := Coordinator.Approve(s1.store, id);
    assert s2.store[id].amount == 1000.0;
  }

  /** A total tampered to 5000 on 10 hours at 100 is refused by the manager's gate
      as a mismatch, and the record is left as it was. */
  lemma TamperedTotalIsHeldBack(store: Store, id: int, stampTime: Instant, paidTime: Instant, suffix: Manager.Suffix)
    requires id in store
    requires store[id].hoursWorked == 10.0 && store[id].rate == 100.0 && store[id].amount == 5000.0
    ensures Manager.Approve(store, id, stampTime, paidTime, suffix) == Step(store, Fail(PolicyViolation(TotalMismatch(5000.0))))
  {
  }

  /** A coordinator rejection whose reason has no white space at either end
      stores the reason exactly as given. */
  lemma RejectionWithReason(store: Store, id: int, reason: string, now: Instant)
    requires id in store
    requires reason != [] && !IsWhiteSpace(reason[0]) && !IsWhiteSpace(reason[|reason| - 1])
    ensures var after := Coordinator.Reject(store, id, Some(reason), now).store[id];
            && after.status == NeedsFix
            && after.reviewNote == Some(reason)
            && after.reviewedBy == Some(ByCoordinator)
  {
    assert !AllWhiteSpace(reason);
    TrimKeepsTrimmed(reason);
  }

  /** A null or blank reason falls back to each controller's default note. */
  lemma BlankReasonUsesDefault(store: Store, id: int, reason: Option<string>, now: Instant)
    requires id in store && IsNullOrWhiteSpace(reason)
    ensures Coordinator.Reject(store, id, reason, now).store[id].reviewNote == Some("Please fix and resubmit")
    ensures Manager.Reject(store, id, reason, now).store[id].reviewNote == Some("Changes Requested")
  {
  }
}
