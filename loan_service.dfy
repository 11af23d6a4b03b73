/**
 * The loan catalog listing and the eligibility evaluator. The catalog, which
 * the service loads once from a JSON file, is passed in explicitly.
 */
module LoanService {
  import opened Wrappers
  import opened Text

  /** One product of the loan catalog. */
  datatype LoanInfo = LoanInfo(
    loanType: string,
    description: string,
    maxAmount: real,
    interestRate: real,
    tenureYears: int,
    minAge: int,
    maxAge: int,
    minIncome: real,
    minCibil: int)

  /** An applicant's request; `income` is a monthly income. */
  datatype EligibilityRequest = EligibilityRequest(
    age: int,
    income: real,
    cibilScore: int,
    employmentStatus: string,
    loanType: string)

  /** The verdict; `maxAmount` is Python's `None` unless the applicant is eligible. */
  datatype EligibilityResponse = EligibilityResponse(isEligible: bool, message: string, maxAmount: Option<real>)

  const AgeMessage := "Age criteria not met."
  const IncomeMessage := "Income criteria not met."
  const CibilMessage := "CIBIL score is too low."
  const EligibleMessage := "Congratulations! You are eligible for this loan."

  function NotFoundMessage(name: string): string
  {
    "Loan type '" + name + "' not found."
  }

  /** The catalog listing: one record per catalog entry, in catalog order. */
  function GetAllLoans(catalog: seq<LoanInfo>): (loans: seq<LoanInfo>)
    ensures |loans| == |catalog|
    ensures forall i :: 0 <= i < |catalog| ==> loans[i] == catalog[i]
  {
    if catalog == [] then [] else [catalog[0]] + GetAllLoans(catalog[1..])
  }

  /** The position of the first element of `s` that satisfies `p`, if any. */
  function FirstIndex<T>(s: seq<T>, p: T -> bool): (r: Option<nat>)
    ensures r.None? <==> forall i :: 0 <= i < |s| ==> !p(s[i])
    ensures r.Some? ==> r.value < |s| && p(s[r.value]) && forall i :: 0 <= i < r.value ==> !p(s[i])
  {
    if s == [] then None
    else if p(s[0]) then Some(0)
    else match FirstIndex(s[1..], p)
      case None => None
      case Some(k) => Some(k + 1)
  }

  /** The first catalog entry whose type equals `name` when both are lower-cased. */
  function FindPolicy(catalog: seq<LoanInfo>, name: string): (r: Option<LoanInfo>)
    ensures r.None? <==> forall i :: 0 <= i < |catalog| ==> !EqualIgnoringCase(catalog[i].loanType, name)
    ensures r.Some? ==> r.value in catalog && EqualIgnoringCase(r.value.loanType, name)
  {
    var key := Lower(name);
    match FirstIndex(catalog, (p: LoanInfo) => Lower(p.loanType) == key)
    case None => None
    case Some(i) => Some(catalog[i])
  }

  /** The three thresholds, in the order the evaluator tries them. */
  datatype Check = AgeCheck | IncomeCheck | CibilCheck

  const CheckOrder: seq<Check> := [AgeCheck, IncomeCheck, CibilCheck]

  /** The applicant meets the threshold `c` of `policy`; all three bounds are inclusive. */
  predicate Passes(c: Check, policy: LoanInfo, req: EligibilityRequest)
  {
    match c
    case AgeCheck => policy.minAge <= req.age <= policy.maxAge
    case IncomeCheck => req.income >= policy.minIncome
    case CibilCheck => req.cibilScore >= policy.minCibil
  }

  function FailureMessage(c: Check): string
  {
    match c
    case AgeCheck => AgeMessage
    case IncomeCheck => IncomeMessage
    case CibilCheck => CibilMessage
  }

  /** The first check, in `CheckOrder`, that the applicant fails. */
  function FirstFailure(policy: LoanInfo, req: EligibilityRequest): Option<Check>
  {
    match FirstIndex(CheckOrder, (c: Check) => !Passes(c, policy, req))
    case None => None
    case Some(i) => Some(CheckOrder[i])
  }

  function Min(a: real, b: real): real
  {
    if b < a then b else a
  }

  /**
   * The eligibility evaluator: look the loan type up, try the age, income and
   * CIBIL thresholds in that order, and offer half of the annual income capped
   * by the product's maximum.
   */
  function EvaluateEligibility(catalog: seq<LoanInfo>, req: EligibilityRequest): (r: EligibilityResponse)
    ensures r.maxAmount.Some? <==> r.isEligible
    ensures FindPolicy(catalog, req.loanType).None? ==>
      r == EligibilityResponse(false, NotFoundMessage(req.loanType), None)
    ensures r.isEligible <==>
      && FindPolicy(catalog, req.loanType).Some?
      && forall c :: Passes(c, FindPolicy(catalog, req.loanType).value, req)
    ensures r.isEligible ==>
      var cap := FindPolicy(catalog, req.loanType).value.maxAmount;
      && r.maxAmount.value <= cap
      && r.maxAmount.value <= 6.0 * req.income
      && (r.maxAmount.value == cap || r.maxAmount.value == 6.0 * req.income)
  {
    match FindPolicy(catalog, req.loanType)
    case None => EligibilityResponse(false, NotFoundMessage(req.loanType), None)
    case Some(policy) =>
      if req.age < policy.minAge || req.age > policy.maxAge then
        assert !Passes(AgeCheck, policy, req);
        EligibilityResponse(false, AgeMessage, None)
      else if req.income < policy.minIncome then
        assert !Passes(IncomeCheck, policy, req);
        EligibilityResponse(false, IncomeMessage, None)
      else if req.cibilScore < policy.minCibil then
        assert !Passes(CibilCheck, policy, req);
        EligibilityResponse(false, CibilMessage, None)
      else
        var calculatedMax := req.income * 12.0 * 0.5;
        EligibilityResponse(true, EligibleMessage, Some(Min(calculatedMax, policy.maxAmount)))
  }

  /** The lookup picks the first catalog entry whose type matches, ignoring case. */
  lemma FindPolicyPicksFirst(catalog: seq<LoanInfo>, name: string, i: nat)
    requires i < |catalog| && EqualIgnoringCase(catalog[i].loanType, name)
    requires forall j :: 0 <= j < i ==> !EqualIgnoringCase(catalog[j].loanType, name)
    ensures FindPolicy(catalog, name) == Some(catalog[i])
  {
    var key := Lower(name);
    var p := (q: LoanInfo) => Lower(q.loanType) == key;
    var k := FirstIndex(catalog, p);
    assert p(catalog[i]);
  }

  /** Names that differ only in letter case select the same product and the same verdict. */
  lemma LookupIgnoresCase(catalog: seq<LoanInfo>, req: EligibilityRequest, name: string)
    requires EqualIgnoringCase(req.loanType, name)
    ensures FindPolicy(catalog, req.loanType) == FindPolicy(catalog, name)
    ensures var r, r' := EvaluateEligibility(catalog, req), EvaluateEligibility(catalog, req.(loanType := name));
      r.isEligible == r'.isEligible && r.maxAmount == r'.maxAmount
      && (FindPolicy(catalog, name).Some? ==> r == r')
  {
  }

  /**
   * The verdict message names the first failing check in the order age,
   * income, CIBIL, whatever the later fields hold.
   */
  lemma EvaluateReportsFirstFailure(catalog: seq<LoanInfo>, req: EligibilityRequest)
    requires FindPolicy(catalog, req.loanType).Some?
    ensures var policy := FindPolicy(catalog, req.loanType).value;
      var r := EvaluateEligibility(catalog, req);
      match FirstFailure(policy, req)
      case Some(c) => r == EligibilityResponse(false, FailureMessage(c), None)
      case None => r.isEligible && r.message == EligibleMessage
  {
    var policy := FindPolicy(catalog, req.loanType).value;
    var fails := (c: Check) => !Passes(c, policy, req);
    var k := FirstIndex(CheckOrder, fails);
    if !Passes(AgeCheck, policy, req) {
      assert fails(CheckOrder[0]);
      assert k == Some(0);
    } else if !Passes(IncomeCheck, policy, req) {
      assert fails(CheckOrder[1]) && !fails(CheckOrder[0]);
      assert k == Some(1);
    } else if !Passes(CibilCheck, policy, req) {
      assert fails(CheckOrder[2]) && !fails(CheckOrder[0]) && !fails(CheckOrder[1]);
      assert k == Some(2);
    } else {
      assert forall i :: 0 <= i < |CheckOrder| ==> !fails(CheckOrder[i]);
    }
  }

  /** `employment_status` is never read: it cannot change the verdict. */
  lemma EmploymentStatusIgnored(catalog: seq<LoanInfo>, req: EligibilityRequest, status: string)
    ensures EvaluateEligibility(catalog, req) == EvaluateEligibility(catalog, req.(employmentStatus := status))
  {
  }

  /** Meeting every threshold exactly is enough: the bounds are inclusive. */
  lemma ThresholdsAreInclusive(catalog: seq<LoanInfo>, req: EligibilityRequest)
    requires FindPolicy(catalog, req.loanType).Some?
    requires var policy := FindPolicy(catalog, req.loanType).value;
      && (req.age == policy.minAge || req.age == policy.maxAge)
      && policy.minAge <= policy.maxAge
      && req.income == policy.minIncome
      && req.cibilScore == policy.minCibil
    ensures EvaluateEligibility(catalog, req).isEligible
  {
  }
}
