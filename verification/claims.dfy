/**
 * The `LecturerClaims` table: one record per claim, keyed by its database id,
 * together with the replies the three controllers give and the two record
 * invariants every controller action keeps.
 */
module Claims {
  import opened Wrappers
  import opened Text
  import opened Time

  /** The `Status` column; the controllers only ever write these four strings. */
  datatype Status = Pending | NeedsFix | CoordinatorApproved | ManagerApproved

  /** The `PaymentStatus` column. */
  datatype PaymentStatus = Unpaid | Paid

  /** The `ReviewedBy` column: the role name of the last reviewer to reject. */
  datatype Reviewer = ByCoordinator | ByManager

  /** A lecturer's claim. Money columns are C# `decimal`, modelled exactly as `real`;
      nullable columns are `Option`s. */
  datatype Claim = Claim(
    lecturerName: string,
    hoursWorked: real,
    rate: real,
    amount: real,
    status: Status,
    paymentStatus: PaymentStatus,
    reviewNote: Option<string>,
    reviewedBy: Option<Reviewer>,
    reviewedAt: Option<Instant>,
    paymentReference: Option<string>,
    paidUtc: Option<Instant>,
    evidenceFile: Option<string>,
    createAt: Instant)

  /** The table, keyed by claim id. */
  type Store = map<int, Claim>

  /** A row as a listing returns it: the id with the record. */
  datatype Entry = Entry(id: int, claim: Claim)

  /** Why an approval gate refused a claim, with the offending value and the limit. */
  datatype Violation =
    | HoursOverLimit(hours: real, maxHours: real)
    | RateOverLimit(rate: real, maxRate: real)
    | TotalMismatch(amount: real)
    | TotalOverLimit(amount: real, maxTotal: real)

  /** Every way a controller action can refuse a request. */
  datatype Error =
    | NotFound
    | NotEditable(status: Status)
    | HoursOutOfRange(hours: real)
    | ExtensionNotAllowed(extension: string)
    | FileTooLarge(length: int)
    | PolicyViolation(violation: Violation)

  /** What an action leaves behind: the table after the request, and its reply. */
  datatype Step = Step(store: Store, reply: Outcome<Error>)

  /** The three payment columns move together: paid, referenced and dated, or none. */
  predicate PaymentConsistent(c: Claim) {
    && (c.paymentStatus == Paid <==> c.paymentReference.Some?)
    && (c.paymentReference.Some? <==> c.paidUtc.Some?)
  }

  /** The stored total is the product of the stored hours and rate. */
  predicate AmountConsistent(c: Claim) {
    c.amount == c.hoursWorked * c.rate
  }

  predicate WellFormed(c: Claim) {
    PaymentConsistent(c) && AmountConsistent(c)
  }

  /** Every record of the table is well formed. */
  predicate Consistent(store: Store) {
    forall id :: id in store ==> WellFormed(store[id])
  }

  /** The columns a lecturer sets and reviewers leave alone. */
  predicate SameSubmission(a: Claim, b: Claim) {
    && a.lecturerName == b.lecturerName
    && a.hoursWorked == b.hoursWorked
    && a.rate == b.rate
    && a.amount == b.amount
    && a.evidenceFile == b.evidenceFile
    && a.createAt == b.createAt
  }

  /** `after` is `before` with only record `id` replaced (or added). */
  predicate OnlyRecordChanged(before: Store, after: Store, id: int) {
    && after.Keys == before.Keys + {id}
    && forall k :: k in before && k != id ==> after[k] == before[k]
  }

  /** The note a reviewer's rejection stores: the reason with surrounding white
      space trimmed, or `fallback` when the reason is null or blank. A reason that
      is not blank never trims down to nothing. */
  function RejectionNote(reason: Option<string>, fallback: string): (note: string)
    ensures IsNullOrWhiteSpace(reason) ==> note == fallback
    ensures !IsNullOrWhiteSpace(reason) ==> note == Trim(reason.value) && note != []
  {
    if IsNullOrWhiteSpace(reason) then fallback
    else
      BlankIffTrimmedEmpty(reason.value);
      Trim(reason.value)
  }
}
