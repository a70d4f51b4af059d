/**
 * The approval gate both reviewer controllers run before approving: four checks
 * in a fixed order, the first failure reported. The coordinator and the manager
 * each carry their own copy of it with their own constants; here it is written
 * once and given the limits as a value.
 */
module Validation {
  import opened Wrappers
  import opened Claims

  /** The policy constants one controller validates against. */
  datatype Limits = Limits(maxHours: real, maxRate: real, maxTotal: real)

  /** `MaxMonthlyHours`, `MaxHourlyRate` and `MaxTotalAmount` of the coordinator's controller. */
  const CoordinatorLimits: Limits := Limits(180.0, 1000.0, 100000.0)

  /** The same three constants of the manager's controller. */
  const ManagerLimits: Limits := Limits(180.0, 400.0, 100000.0)

  /** The four checks of the gate. */
  datatype Check = HoursCheck | RateCheck | ConsistencyCheck | CeilingCheck

  /** Position of a check in the order the gate runs them. */
  function Position(k: Check): nat {
    match k
    case HoursCheck => 0
    case RateCheck => 1
    case ConsistencyCheck => 2
    case CeilingCheck => 3
  }

  /** What each check demands of a claim. */
  predicate Holds(c: Claim, limits: Limits, k: Check) {
    match k
    case HoursCheck => 0.0 < c.hoursWorked <= limits.maxHours
    case RateCheck => 0.0 < c.rate <= limits.maxRate
    case ConsistencyCheck => c.amount == c.hoursWorked * c.rate
    case CeilingCheck => c.amount <= limits.maxTotal
  }

  /** A claim the gate should let through: every check holds. */
  predicate Admissible(c: Claim, limits: Limits) {
    forall k :: Holds(c, limits, k)
  }

  /** The check a reported violation stands for. */
  function Failed(v: Violation): Check {
    match v
    case HoursOverLimit(_, _) => HoursCheck
    case RateOverLimit(_, _) => RateCheck
    case TotalMismatch(_) => ConsistencyCheck
    case TotalOverLimit(_, _) => CeilingCheck
  }

  /** The reason the gate gives when check `k` fails: the offending value and the limit. */
  function Report(c: Claim, limits: Limits, k: Check): Violation {
    match k
    case HoursCheck => HoursOverLimit(c.hoursWorked, limits.maxHours)
    case RateCheck => RateOverLimit(c.rate, limits.maxRate)
    case ConsistencyCheck => TotalMismatch(c.amount)
    case CeilingCheck => TotalOverLimit(c.amount, limits.maxTotal)
  }

  /** `ValidateClaim` / `ValidateClaimForApproval`: passes exactly the admissible
      claims, and otherwise reports the first check, in gate order, that fails. */
  function Validate(c: Claim, limits: Limits): (r: Outcome<Violation>)
    ensures r.Pass? <==> Admissible(c, limits)
    ensures r.Fail? ==> !Holds(c, limits, Failed(r.error))
    ensures r.Fail? ==> forall k :: Position(k) < Position(Failed(r.error)) ==> Holds(c, limits, k)
    ensures r.Fail? ==> r.error == Report(c, limits, Failed(r.error))
  {
    if c.hoursWorked <= 0.0 || c.hoursWorked > limits.maxHours then
      assert !Holds(c, limits, HoursCheck);
      Fail(HoursOverLimit(c.hoursWorked, limits.maxHours))
    else if c.rate <= 0.0 || c.rate > limits.maxRate then
      assert !Holds(c, limits, RateCheck);
      Fail(RateOverLimit(c.rate, limits.maxRate))
    else if c.amount != c.hoursWorked * c.rate then
      assert !Holds(c, limits, ConsistencyCheck);
      Fail(TotalMismatch(c.amount))
    else if c.amount > limits.maxTotal then
      assert !Holds(c, limits, CeilingCheck);
      Fail(TotalOverLimit(c.amount, limits.maxTotal))
    else
      assert forall k :: Holds(c, limits, k);
      Pass
  }

  /** Limits that are no looser in any respect. */
  predicate NoLooser(tight: Limits, loose: Limits) {
    && tight.maxHours <= loose.maxHours
    && tight.maxRate <= loose.maxRate
    && tight.maxTotal <= loose.maxTotal
  }

  /** Tightening the limits can only turn passes into failures. */
  lemma TighterLimitsPassLess(c: Claim, tight: Limits, loose: Limits)
    requires NoLooser(tight, loose)
    ensures Validate(c, tight).Pass? ==> Validate(c, loose).Pass?
  {
    if Validate(c, tight).Pass? {
      forall k ensures Holds(c, loose, k) {
        assert Holds(c, tight, k);
      }
    }
  }

  /** Any claim the manager's gate lets through, the coordinator's gate lets through too. */
  lemma ManagerGateImpliesCoordinatorGate(c: Claim)
    ensures Validate(c, ManagerLimits).Pass? ==> Validate(c, CoordinatorLimits).Pass?
  {
    TighterLimitsPassLess(c, ManagerLimits, CoordinatorLimits);
  }

  /** The converse fails: a rate above 400 and at most 1000 passes the coordinator
      but not the manager. */
  lemma CoordinatorGateDoesNotImplyManagerGate(c: Claim)
    requires c.hoursWorked == 10.0 && c.rate == 500.0 && c.amount == 5000.0
    ensures Validate(c, CoordinatorLimits).Pass?
    ensures Validate(c, ManagerLimits) == Fail(RateOverLimit(500.0, 400.0))
  {
  }

  /** On a record whose total is hours times rate the third check can never be the
      one reported. */
  lemma ConsistentTotalNeverMismatches(c: Claim, limits: Limits)
    requires AmountConsistent(c)
    ensures Validate(c, limits).Fail? ==> Failed(Validate(c, limits).error) != ConsistencyCheck
  {
  }
}
