/**
 * The lecturer's side of the workflow (`ClaimsController`): submitting a claim,
 * editing and resubmitting one a reviewer sent back, and the two listings of
 * the lecturer's own claims.
 *
 * The signed-in user, the clock, the generated evidence file name and the id the
 * database assigns are all parameters; nothing here reads ambient state.
 */
module Lecturer {
  import opened Wrappers
  import opened Text
  import opened Time
  import opened Claims
  import opened Listing

  /** `MaxMonthlyHours`. */
  const MaxMonthlyHours: real := 180.0

  /** `maxSize`: 5 MiB. */
  const MaxEvidenceBytes: int := 5 * 1024 * 1024

  /** The extensions an evidence file may carry, compared after lower-casing. */
  const AllowedExtensions: seq<string> := [".pdf", ".docx"]

  /** How many claims the dashboard shows (`Take(5)`). */
  const DashboardSize: nat := 5

  /** The signed-in lecturer's profile (`Users`). */
  datatype Profile = Profile(firstName: string, lastName: string, hourlyRate: real)

  /** The name claims are filed under: first and last name joined by one space. */
  function FullName(p: Profile): string {
    p.firstName + " " + p.lastName
  }

  /** An uploaded evidence file: the extension of its name as `Path.GetExtension`
      returns it, and its length in bytes. */
  datatype Upload = Upload(extension: string, length: int)

  predicate IsLowerHex(c: char) {
    '0' <= c <= '9' || 'a' <= c <= 'f'
  }

  /** `Guid.NewGuid()` printed with the `N` format: 32 lower-case hex digits. */
  type GuidN = s: string | |s| == 32 && forall i :: 0 <= i < |s| ==> IsLowerHex(s[i])
    witness "00000000000000000000000000000000"

  /** The hour check of both `Create` and `Edit`: it refuses `hoursWorked <= 0 ||
      hoursWorked > MaxMonthlyHours`, so it admits any positive amount up to 180,
      fractions included. */
  predicate HoursAccepted(hoursWorked: real) {
    0.0 < hoursWorked <= MaxMonthlyHours
  }

  /** An upload is only inspected when present and non-empty; then its lower-cased
      extension must be allowed and it must not exceed 5 MiB. */
  predicate EvidenceAcceptable(evidence: Option<Upload>) {
    || evidence.None?
    || evidence.value.length <= 0
    || (ToLower(evidence.value.extension) in AllowedExtensions && evidence.value.length <= MaxEvidenceBytes)
  }

  /** The evidence step of `Create` and `Edit`. `Success(None)` means no new file
      was saved; `Success(Some(name))` names the saved file: the GUID followed by
      the lower-cased original extension. */
  function SaveEvidence(evidence: Option<Upload>, guid: GuidN): (r: Result<Option<string>, Error>)
    ensures r.Success? <==> EvidenceAcceptable(evidence)
    ensures r.Success? && r.value.None? <==> evidence.None? || evidence.value.length <= 0
    ensures r.Failure? && ToLower(evidence.value.extension) !in AllowedExtensions ==>
              r.error == ExtensionNotAllowed(ToLower(evidence.value.extension))
    ensures r.Failure? && ToLower(evidence.value.extension) in AllowedExtensions ==>
              r.error == FileTooLarge(evidence.value.length) && evidence.value.length > MaxEvidenceBytes
    ensures r.Success? && r.value.Some? ==>
              && 0 < evidence.value.length <= MaxEvidenceBytes
              && |r.value.value| == 32 + |ToLower(evidence.value.extension)| && r.value.value[..32] == guid
              && EndsWith(r.value.value, ToLower(evidence.value.extension))
              && (EndsWith(r.value.value, ".pdf") || EndsWith(r.value.value, ".docx"))
  {
    if evidence.Some? && evidence.value.length > 0 then
      var ext := ToLower(evidence.value.extension);
      if ext !in AllowedExtensions then Failure(ExtensionNotAllowed(ext))
      else if evidence.value.length > MaxEvidenceBytes then Failure(FileTooLarge(evidence.value.length))
      else
        var name := guid + ext;
        assert name[..32] == guid;
        assert name[|name| - |ext|..] == ext;
        Success(Some(name))
    else
      Success(None)
  }

  /** The record a successful submission files. */
  predicate IsFreshSubmission(c: Claim, user: Profile, hoursWorked: real, evidenceFile: Option<string>, now: Instant) {
    && c.lecturerName == FullName(user)
    && c.hoursWorked == hoursWorked
    && c.rate == user.hourlyRate
    && c.amount == hoursWorked * user.hourlyRate
    && c.status == Pending
    && c.paymentStatus == Unpaid
    && c.reviewNote.None? && c.reviewedBy.None? && c.reviewedAt.None?
    && c.paymentReference.None? && c.paidUtc.None?
    && c.evidenceFile == evidenceFile
    && c.createAt == now
  }

  /** `Create` (POST). `id` is the key the database assigns to the new row. The
      controller never sets `CreateAt`; `now` stands for the value the entity or
      database default gives it. The hour check runs first, then the evidence
      checks; a refusal files nothing. */
  function Submit(store: Store, id: int, user: Profile, hoursWorked: real,
                  evidence: Option<Upload>, guid: GuidN, now: Instant): (r: Step)
    requires id !in store
    ensures r.reply.Pass? <==> HoursAccepted(hoursWorked) && EvidenceAcceptable(evidence)
    ensures r.reply.Fail? ==> r.store == store
    ensures !HoursAccepted(hoursWorked) ==> r.reply == Fail(HoursOutOfRange(hoursWorked))
    ensures HoursAccepted(hoursWorked) && SaveEvidence(evidence, guid).Failure? ==>
              r.reply == Fail(SaveEvidence(evidence, guid).error)
    ensures r.reply.Pass? ==>
              && OnlyRecordChanged(store, r.store, id)
              && id in r.store
              && IsFreshSubmission(r.store[id], user, hoursWorked, SaveEvidence(evidence, guid).value, now)
  {
    if hoursWorked <= 0.0 || hoursWorked > MaxMonthlyHours then
      Step(store, Fail(HoursOutOfRange(hoursWorked)))
    else
      var claim := Claim(FullName(user), hoursWorked, user.hourlyRate, hoursWorked * user.hourlyRate,
                         Pending, Unpaid, None, None, None, None, None, None, now);
      match SaveEvidence(evidence, guid)
      case Failure(e) => Step(store, Fail(e))
      case Success(file) => Step(store[id := claim.(evidenceFile := file)], Pass)
  }

  /** `Edit` (GET): the form is only shown for an existing claim marked Needs Fix. */
  function EditForm(store: Store, id: int): (r: Result<Claim, Error>)
    ensures r.Success? <==> id in store && store[id].status == NeedsFix
    ensures r.Success? ==> r.value == store[id]
    ensures id !in store ==> r == Failure(NotFound)
    ensures id in store && store[id].status != NeedsFix ==> r == Failure(NotEditable(store[id].status))
  {
    if id !in store then Failure(NotFound)
    else if store[id].status != NeedsFix then Failure(NotEditable(store[id].status))
    else Success(store[id])
  }

  /** The record a successful resubmission leaves: new hours at the editor's rate,
      back to Pending and Unpaid with every review and payment column cleared,
      the lecturer's name and creation time kept, and the evidence replaced only
      when a new file was saved. */
  predicate IsResubmission(before: Claim, after: Claim, user: Profile, hoursWorked: real, newFile: Option<string>) {
    && after.lecturerName == before.lecturerName
    && after.createAt == before.createAt
    && after.hoursWorked == hoursWorked
    && after.rate == user.hourlyRate
    && after.amount == hoursWorked * user.hourlyRate
    && after.status == Pending
    && after.paymentStatus == Unpaid
    && after.reviewNote.None? && after.reviewedBy.None? && after.reviewedAt.None?
    && after.paymentReference.None? && after.paidUtc.None?
    && after.evidenceFile == (if newFile.Some? then newFile else before.evidenceFile)
  }

  /** `Edit` (POST). There is no check that `user` filed the claim: the rate is
      taken from whoever is signed in. Every refusal, including an evidence
      refusal after the record was already updated in memory, saves nothing. */
  function Resubmit(store: Store, id: int, user: Profile, hoursWorked: real,
                    evidence: Option<Upload>, guid: GuidN): (r: Step)
    ensures r.reply.Pass? <==>
              id in store && store[id].status == NeedsFix && HoursAccepted(hoursWorked) && EvidenceAcceptable(evidence)
    ensures r.reply.Fail? ==> r.store == store
    ensures id !in store ==> r.reply == Fail(NotFound)
    ensures id in store && store[id].status != NeedsFix ==> r.reply == Fail(NotEditable(store[id].status))
    ensures id in store && store[id].status == NeedsFix && !HoursAccepted(hoursWorked) ==>
              r.reply == Fail(HoursOutOfRange(hoursWorked))
    ensures id in store && store[id].status == NeedsFix && HoursAccepted(hoursWorked)
              && SaveEvidence(evidence, guid).Failure? ==>
              r.reply == Fail(SaveEvidence(evidence, guid).error)
    ensures r.reply.Pass? ==>
              && OnlyRecordChanged(store, r.store, id)
              && IsResubmission(store[id], r.store[id], user, hoursWorked, SaveEvidence(evidence, guid).value)
  {
    if id !in store then Step(store, Fail(NotFound))
    else
      var claim := store[id];
      if claim.status != NeedsFix then Step(store, Fail(NotEditable(claim.status)))
      else if hoursWorked <= 0.0 || hoursWorked > MaxMonthlyHours then Step(store, Fail(HoursOutOfRange(hoursWorked)))
      else
        var updated := claim.(hoursWorked := hoursWorked, rate := user.hourlyRate,
                              amount := hoursWorked * user.hourlyRate, status := Pending,
                              reviewNote := None, reviewedBy := None, reviewedAt := None,
                              paymentStatus := Unpaid, paymentReference := None, paidUtc := None);
        match SaveEvidence(evidence, guid)
        case Failure(e) => Step(store, Fail(e))
        case Success(file) =>
          var saved := if file.Some? then updated.(evidenceFile := file) else updated;
          Step(store[id := saved], Pass)
  }

  /** `MyClaims`: every claim filed under the user's full name, newest first. */
  method MyClaims(store: Store, user: Profile) returns (r: seq<Entry>)
    ensures IsListing(store, OwnedBy(FullName(user)), NewestFirst, r)
  {
    r := Select(store, OwnedBy(FullName(user)), NewestFirst);
  }

  /** `Index`: the user's five most recent claims, newest first. Fewer than five
      means all of them; any claim left out is no newer than every one shown. */
  method Dashboard(store: Store, user: Profile) returns (r: seq<Entry>)
    ensures |r| <= DashboardSize
    ensures RowsFromTable(store, OwnedBy(FullName(user)), r)
    ensures NoRepeatedIds(r) && Sorted(r, NewestFirst)
    ensures |r| < DashboardSize ==>
              forall id :: id in store && store[id].lecturerName == FullName(user) ==> Lists(r, id)
    ensures forall id, i ::
              (id in store && store[id].lecturerName == FullName(user) && !Lists(r, id) && 0 <= i < |r|) ==>
                OrderKey(store[id].createAt) <= OrderKey(r[i].claim.createAt)
  {
    var all := Select(store, OwnedBy(FullName(user)), NewestFirst);
    var n := if |all| < DashboardSize then |all| else DashboardSize;
    r := all[..n];
    forall id, i | id in store && store[id].lecturerName == FullName(user) && !Lists(r, id) && 0 <= i < |r|
      ensures OrderKey(store[id].createAt) <= OrderKey(r[i].claim.createAt)
    {
      assert Keeps(OwnedBy(FullName(user)), store[id]);
      var j :| 0 <= j < |all| && all[j].id == id;
      assert n <= j;
      assert Rank(all[i].claim, NewestFirst) <= Rank(all[j].claim, NewestFirst);
    }
    if |r| < DashboardSize {
      assert r == all;
    }
  }
}
