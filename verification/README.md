# Lecturer claims workflow — a Dafny model

This project models the claim lifecycle of the ST10395938 POE claims system.
A lecturer files a monthly claim: hours worked at their hourly rate, plus an optional
evidence file. A programme coordinator approves it or sends it back. An academic
manager then gives final approval, which marks the claim paid and issues a payment
reference, or sends it back too. A claim that was sent back ("Needs Fix") can be
edited and resubmitted by the lecturer.

The `LecturerClaims` table is a `map<int, Claim>`. Each controller action is a pure
function from the table, and the request's inputs, to a `Step`: the table after the
request, plus a reply that is `Pass` or `Fail(error)`. A refused request saves
nothing, so every refusal is proved to leave the table as it was. The listing
queries are methods that return a sequence of rows. They are specified by
`Listing.IsListing`, which says:

- every row passes the filter;
- every matching record is listed;
- no id appears twice;
- the rows are in `CreateAt` order.

Modules, in dependency order:

- `Wrappers`: `Option`, `Result` and `Outcome`.
- `Text`: .NET white space, `Trim`, `IsNullOrWhiteSpace`, substring search,
  invariant lower-casing, and fixed-width digit strings.
- `Time`: `DateTime` values with 100 ns ticks. It has a chronological order key and
  the `yyyyMMddHHmmss` stamp with its parser.
- `Claims`: the record, status enums, errors, `Step`, and the two record
  invariants. Payment: Paid ⇔ reference present ⇔ payment time present. Total:
  `Amount == HoursWorked * Rate`.
- `Validation`: the four-check approval gate, written once and parameterised by
  `Limits`. The coordinator's controller uses (180, 1000, 100000) and the
  manager's uses (180, 400, 100000).
- `Listing`: the three `Where`/`OrderBy` query shapes, and `Select`, which computes
  a listing by insertion.
- `Lecturer`, `Coordinator`, `Manager`: the actions of `ClaimsController`,
  `CoordinatorController` and `ManagerController`.
- `Lifecycle`: all writing actions as one `Action` type, the invariants they keep
  along any trace, and the places where the code is looser than a strict approval
  chain.
- `Scenarios`: concrete walks, covering the boundary values of the checks and one
  claim carried from submission to payment.

Things that are inputs to the model:

- the signed-in user's profile;
- the clock reads of the reviewers' actions. The manager's approval reads
  `DateTime.UtcNow` twice, once for the reference and once for `PaidUTc`, so it
  takes two instants;
- the creation time of a new claim. No controller assigns `CreateAt`; it comes
  from the entity or database default, which is not part of this model, so
  `Lecturer.Submit` takes it as `now`;
- the random reference suffix, as `Manager.Suffix`, which is 1000 to 9998;
- the `Guid` file name, as `Lecturer.GuidN`;
- the id the database assigns to a new row;
- the evidence file's extension and length.

The code is looser than a strict coordinator-then-manager approval chain in four
places; each has a lemma in `Lifecycle` that exhibits it:

- Approval and rejection never look at the current status, and a manager can
  approve a Pending claim (`ManagerApprovalSkipsCoordinator`).
- Nothing refuses a second manager approval: approving an already-paid claim
  again is accepted and issues a new reference (`ManagerReapprovalReissuesReference`).
- Nothing checks that the editor filed the claim, and the edit takes the rate
  from whoever is signed in (`EditIgnoresOwnership`).
- A coordinator rejection leaves payment columns as they were
  (`CoordinatorRejectionKeepsPayment`). So "Paid implies Manager Approved" is not
  an invariant, and it is not claimed.

Separately, the hour check accepts any positive amount up to 180, 0.5 included,
although its message says "between 1 and 180" (`Scenarios.HourBoundaries`).

## Model

| member | source | states |
|---|---|---|
| `Text.Trim` | ST10395938_POEPart2/Controllers/CoordinatorController.cs:32 | the trimmed term is an infix of the input, everything cut from either end is white space, and the result neither starts nor ends with white space |
| `Text.BlankIffTrimmedEmpty` | ST10395938_POEPart2/Controllers/CoordinatorController.cs:69 | a string is null-or-white-space exactly when trimming it leaves nothing, so the fallback note and the trimmed reason never overlap |
| `Text.Digits` | ST10395938_POEPart2/Controllers/ManagerController.cs:60 | the suffix is printed as exactly four decimal digits |
| `Text.DigitsRoundTrip` | ST10395938_POEPart2/Controllers/ManagerController.cs:60 | reading the four printed digits back gives the suffix drawn |
| `Time.OrderKeyIsChronological` | ST10395938_POEPart2/Controllers/CoordinatorController.cs:36 | the key the listings sort on orders `CreateAt` values chronologically, and equal keys mean equal instants |
| `Time.Stamp` | ST10395938_POEPart2/Controllers/ManagerController.cs:60 | `yyyyMMddHHmmss` is 14 digits |
| `Time.StampLayout` | ST10395938_POEPart2/Controllers/ManagerController.cs:60 | year, month, day, hour, minute and second sit at positions 0-3, 4-5, 6-7, 8-9, 10-11 and 12-13 of the stamp |
| `Time.StampRoundTrip` | ST10395938_POEPart2/Controllers/ManagerController.cs:60 | the stamp can be parsed back to the approval time truncated to the second |
| `Time.StampIdentifiesSecond` | ST10395938_POEPart2/Controllers/ManagerController.cs:60 | two instants get the same stamp exactly when they fall in the same second |
| `Claims.RejectionNote` | ST10395938_POEPart2/Controllers/CoordinatorController.cs:69 | a null or blank reason gives the default note; any other reason gives its trimmed form, which is never empty |
| `Validation.Validate` | ST10395938_POEPart2/Controllers/CoordinatorController.cs:79-108 | the gate passes exactly when 0 < hours ≤ max, 0 < rate ≤ max, total == hours × rate and total ≤ max; otherwise it reports the first failing check, in the order hours, rate, mismatch, ceiling, with the offending value and the limit |
| `Validation.TighterLimitsPassLess` | ST10395938_POEPart2/Controllers/ManagerController.cs:15-17 | a gate whose limits are nowhere looser passes only claims the looser gate passes |
| `Validation.ManagerGateImpliesCoordinatorGate` | ST10395938_POEPart2/Controllers/ManagerController.cs:90-121 | every claim the manager's gate admits, the coordinator's gate admits too |
| `Validation.CoordinatorGateDoesNotImplyManagerGate` | ST10395938_POEPart2/Controllers/ManagerController.cs:100-104 | a claim at rate 500 passes the coordinator's gate and is refused by the manager's gate on the rate |
| `Validation.ConsistentTotalNeverMismatches` | ST10395938_POEPart2/Controllers/CoordinatorController.cs:95-99 | on a record whose total is hours × rate, the mismatch check is never the one reported |
| `Listing.Select` | ST10395938_POEPart2/Controllers/CoordinatorController.cs:26-36 | the query returns every record passing the filter, each once, nothing else, in `CreateAt` order (ascending or descending) |
| `Listing.OwnListingIsOwn` | ST10395938_POEPart2/Controllers/ClaimsController.cs:46-58 | a listing of one lecturer's claims holds nothing filed under another name |
| `Listing.CoordinatorQueueIsPending` | ST10395938_POEPart2/Controllers/CoordinatorController.cs:26-36 | the coordinator's queue holds only Pending claims, and with a blank term every Pending claim |
| `Listing.ManagerQueueIsCoordinatorApproved` | ST10395938_POEPart2/Controllers/ManagerController.cs:27-37 | the manager's queue holds only Coordinator Approved claims, and with a blank term every such claim |
| `Lecturer.SaveEvidence` | ST10395938_POEPart2/Controllers/ClaimsController.cs:107-134 | an absent or empty upload is not inspected. Otherwise it is refused exactly when the lower-cased extension is not `.pdf`/`.docx` (checked first) or the length exceeds 5 MiB. A saved name is exactly the 32-character GUID followed by the lower-cased extension, nothing between |
| `Lecturer.Submit` | ST10395938_POEPart2/Controllers/ClaimsController.cs:78-141 | accepted exactly when 0 < hours ≤ 180 and the evidence is acceptable. A refusal files nothing; the hour check is reported first, then the evidence step's own error (extension before size). Success adds only the new row: full name, the user's rate, total = hours × rate, Pending, Unpaid, no review or payment data, and the saved file name |
| `Lecturer.EditForm` | ST10395938_POEPart2/Controllers/ClaimsController.cs:145-157 | the form is shown exactly for an existing Needs Fix claim; otherwise NotFound or not editable |
| `Lecturer.Resubmit` | ST10395938_POEPart2/Controllers/ClaimsController.cs:161-226 | accepted exactly for an existing Needs Fix claim with valid hours and evidence, and any refusal saves nothing. Refusals are reported in order: NotFound, not editable, hours, then the evidence step's own error (extension before size). Success changes only that row: new hours at the editor's rate and total = hours × rate; Pending and Unpaid; review and payment columns cleared; name and creation time kept; the evidence replaced only when a new file is saved |
| `Lecturer.MyClaims` | ST10395938_POEPart2/Controllers/ClaimsController.cs:46-58 | all of the user's claims, each once, newest first |
| `Lecturer.Dashboard` | ST10395938_POEPart2/Controllers/ClaimsController.cs:26-43 | at most five of the user's claims, newest first. Fewer than five means all of them, and no claim left out is newer than one shown |
| `Coordinator.Queue` | ST10395938_POEPart2/Controllers/CoordinatorController.cs:24-39 | exactly the Pending claims whose name contains the trimmed term (all of them when the term is blank), each once, oldest first |
| `Coordinator.Approve` | ST10395938_POEPart2/Controllers/CoordinatorController.cs:42-60 | unknown id: NotFound, table unchanged. Success exactly when the coordinator's gate admits the claim; a refusal reports the gate's reason and changes nothing. Success sets Coordinator Approved, clears the note, and touches no other field or row |
| `Coordinator.Reject` | ST10395938_POEPart2/Controllers/CoordinatorController.cs:63-76 | unknown id: NotFound, table unchanged. Otherwise, whatever the status: Needs Fix, trimmed reason or "Please fix and resubmit", reviewer Coordinator, review time now, payment columns untouched, no other row changed |
| `Manager.PaymentReference` | ST10395938_POEPart2/Controllers/ManagerController.cs:60 | 23 characters: `PAY-`, the 14-digit approval stamp, `-`, then four digits whose value is the suffix |
| `Manager.PaymentReferenceRoundTrip` | ST10395938_POEPart2/Controllers/ManagerController.cs:60 | parsing a reference gives back the approval second and the suffix |
| `Manager.PaymentReferenceCollision` | ST10395938_POEPart2/Controllers/ManagerController.cs:60 | two references collide exactly when the approvals share a second and a suffix, so uniqueness is not guaranteed |
| `Manager.Queue` | ST10395938_POEPart2/Controllers/ManagerController.cs:25-41 | exactly the Coordinator Approved claims whose name contains the trimmed term, each once, oldest first |
| `Manager.Approve` | ST10395938_POEPart2/Controllers/ManagerController.cs:45-67 | unknown id: NotFound. Success exactly when the manager's gate admits the claim; a refusal reports the gate's reason and changes nothing. Success sets Manager Approved, Paid, the reference from the first clock read and the payment time from the second, and clears the note. Reviewer fields and other rows are untouched |
| `Manager.Reject` | ST10395938_POEPart2/Controllers/ManagerController.cs:71-87 | unknown id: NotFound. Otherwise Needs Fix, trimmed reason or "Changes Requested", reviewer Manager, review time now, and payment withdrawn: Unpaid, no reference, no payment time |
| `Lifecycle.SubmitKeepsConsistency` | ST10395938_POEPart2/Controllers/ClaimsController.cs:96-104 | after a submission, every row of the table keeps both record invariants (payment columns agree; total = hours × rate) |
| `Lifecycle.ResubmitKeepsConsistency` | ST10395938_POEPart2/Controllers/ClaimsController.cs:180-190 | after a resubmission, every row of the table keeps both record invariants (payment columns agree; total = hours × rate) |
| `Lifecycle.CoordinatorApproveKeepsConsistency` | ST10395938_POEPart2/Controllers/CoordinatorController.cs:54-55 | a coordinator approval keeps both record invariants |
| `Lifecycle.CoordinatorRejectKeepsConsistency` | ST10395938_POEPart2/Controllers/CoordinatorController.cs:68-71 | a coordinator rejection keeps both record invariants |
| `Lifecycle.ManagerApproveKeepsConsistency` | ST10395938_POEPart2/Controllers/ManagerController.cs:58-62 | after a manager approval, every row of the table keeps both record invariants (payment columns agree; total = hours × rate) |
| `Lifecycle.ManagerRejectKeepsConsistency` | ST10395938_POEPart2/Controllers/ManagerController.cs:76-82 | after a manager rejection, every row of the table keeps both record invariants (payment columns agree; total = hours × rate) |
| `Lifecycle.ActionKeepsConsistency` | ST10395938_POEPart2/Controllers/ManagerController.cs:58-82 | every writing action of the three controllers keeps both record invariants: the payment columns agree, and total = hours × rate |
| `Lifecycle.TraceKeepsConsistency` | ST10395938_POEPart2/Controllers/ManagerController.cs:58-82 | both invariants survive any sequence of requests |
| `Lifecycle.ReachableTablesAreConsistent` | ST10395938_POEPart2/Controllers/ClaimsController.cs:96-104 | every table reachable from an empty one satisfies both invariants |
| `Lifecycle.ReviewersKeepSubmissions` | ST10395938_POEPart2/Controllers/CoordinatorController.cs:54-71 | reviewer actions add or drop no rows. They never change name, hours, rate, total, evidence or creation time |
| `Lifecycle.ReviewersNeverReopen` | ST10395938_POEPart2/Controllers/CoordinatorController.cs:54-68 | no reviewer action moves a claim into Pending |
| `Lifecycle.OnlyManagerApprovalPays` | ST10395938_POEPart2/Controllers/ManagerController.cs:58-59 | a claim only becomes Paid through a manager approval of that claim |
| `Lifecycle.RejectionOpensEdit` | ST10395938_POEPart2/Controllers/ClaimsController.cs:145-157 | after a rejection at either stage, the lecturer's edit form opens |
| `Lifecycle.CoordinatorApprovalIdempotent` | ST10395938_POEPart2/Controllers/CoordinatorController.cs:42-60 | a second coordinator approval gives the same reply and the same table as the first |
| `Lifecycle.ManagerApprovalSkipsCoordinator` | ST10395938_POEPart2/Controllers/ManagerController.cs:45-62 | an admissible Pending claim can be manager-approved and paid without a coordinator approval |
| `Lifecycle.GateReadsOnlyFigures` | ST10395938_POEPart2/Controllers/ManagerController.cs:90-121 | the gate's verdict depends only on hours, rate and total |
| `Lifecycle.ManagerReapprovalReissuesReference` | ST10395938_POEPart2/Controllers/ManagerController.cs:58-60 | approving a paid claim again is accepted and issues a fresh reference, which differs from the old one when the approvals are in different seconds |
| `Lifecycle.CoordinatorRejectionKeepsPayment` | ST10395938_POEPart2/Controllers/CoordinatorController.cs:68-71 | a coordinator rejection of a paid claim leaves it Needs Fix yet still Paid, with the same reference |
| `Lifecycle.EditIgnoresOwnership` | ST10395938_POEPart2/Controllers/ClaimsController.cs:180-183 | any signed-in Lecturer or HR user (the roles `ClaimsController` admits) can resubmit a Needs Fix claim filed by someone else. The claim takes the editor's rate and keeps the original name |
| `Scenarios.HourBoundaries` | ST10395938_POEPart2/Controllers/ClaimsController.cs:84-94 | 180 and 0.5 are accepted; 0, 180.01 and 200 are refused, and a refusal leaves the table unchanged |
| `Scenarios.UpperCasePdfIsAllowed` | ST10395938_POEPart2/Controllers/ClaimsController.cs:109 | `.PDF` lower-cases to `.pdf` |
| `Scenarios.EvidenceBoundaries` | ST10395938_POEPart2/Controllers/ClaimsController.cs:107-133 | exactly 5 MiB is saved under the GUID with `.pdf`, and one byte more is refused. A `.txt` upload is refused for its extension, and an empty upload is not inspected |
| `Scenarios.SubmissionToPayment` | ST10395938_POEPart2/Controllers/ManagerController.cs:58-62 | 10 hours at 100 are filed with a total of 1000, coordinator-approved, then manager-approved and paid with a reference |
| `Scenarios.TamperedTotalIsHeldBack` | ST10395938_POEPart2/Controllers/ManagerController.cs:106-110 | a total that is not hours × rate is refused as a mismatch, and the table is unchanged |
| `Scenarios.RejectionWithReason` | ST10395938_POEPart2/Controllers/CoordinatorController.cs:68-70 | a non-empty reason with no white space at either end is stored exactly as given, with the claim sent to Needs Fix and the coordinator as reviewer |
| `Scenarios.BlankReasonUsesDefault` | ST10395938_POEPart2/Controllers/CoordinatorController.cs:69 | any null or blank reason stores "Please fix and resubmit" at the coordinator and "Changes Requested" at the manager |

## Left out

- Entity Framework and SQL Server: the table is a map. `SaveChangesAsync` is a
  request's `Pass` outcome, and change tracking is not modelled. Column scale
  is not modelled either: `Amount == HoursWorked * Rate` is proved of the values
  the controllers write, not of what a `decimal` column of fixed scale would
  store and give back on the next read.
- SQL `LIKE`: the reviewers' name search is plain substring containment. The
  database collation's case rules (case-insensitive under SQL Server's default
  `CI_AS` collation) and the `%`, `_` and `[...]` wildcards inside a search term
  are not modelled; `EF.Functions.Like` passes the term through unescaped.
- `Lecturer.MyClaims`, `Lecturer.Dashboard`: the owner filter
  `LecturerName == fullName` is exact string equality. On SQL Server the
  comparison follows the database collation, which by default also ignores case
  and trailing spaces; that is not modelled.
- ASP.NET plumbing: TempData messages, ViewBag, ModelState, redirects and views.
  Replies are tagged errors that carry the offending value. The culture-formatted
  `{:C}` reason strings are left out.
- Identity: the signed-in user is always present and is passed in as a `Profile`.
  The `Unauthorized` replies for a missing user, and the null dereference `Edit`
  would hit without one, are not modelled. Roles and authorisation attributes are
  not modelled.
- Evidence storage: directory creation, the file write and `Guid.NewGuid` are left
  out. The generated name is an input.
- `Path.GetExtension`: the extension is an input.
- `Text.ToLower`: lower-cases ASCII letters only, because `ToLowerInvariant`'s full
  Unicode case mapping matters only for the two allowed extensions, which no
  non-ASCII letter lower-cases into.
- C# `decimal`: modelled as exact `real`. Rounding past 28 significant digits and
  overflow are not modelled.
- The real clock and random number generator: their values are inputs.
- `Time.Stamp`: years are kept in 1..9999, as `DateTime` does. Culture-specific
  calendars in the formatter are not modelled.
- The GET `Create` form and HRController (user management, reports) are outside
  the claim lifecycle. So are UserController, Program.cs, SeedData.cs,
  ApplicationDbContext.cs and ClaimReportViewModel.cs. The `LecturerClaim` class
  file is not part of this model. Its columns are taken from the controllers'
  reads and writes.
- `Lecturer.Submit`: the new row's id is an input the table does not hold yet,
  because the database's identity column assigns it.
