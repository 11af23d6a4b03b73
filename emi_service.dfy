/**
 * The EMI (equated monthly installment) calculator, over exact reals. The
 * service works on binary floating point; here every intermediate value is
 * exact and only the final `round(x, 2)` is modelled.
 */
module EmiService {

  /** `x` raised to the natural power `n`. */
  function Pow(x: real, n: nat): real
  {
    if n == 0 then 1.0 else x * Pow(x, n - 1)
  }

  /** The monthly rate, as a fraction, of an annual rate given in percent. */
  function MonthlyRate(annualRate: real): real
  {
    annualRate / (12.0 * 100.0)
  }

  /** The number of monthly installments in a tenure of whole years. */
  function Months(tenureYears: int): int
  {
    tenureYears * 12
  }

  // Small facts of real arithmetic, stated over plain variables so that the
  // solver does not meet them inside larger terms.

  lemma MultiplyOutDivision(a: real, d: real)
    requires d != 0.0
    ensures (a / d) * d == a
  {
  }

  lemma ZeroFactor(x: real, y: real)
    requires y != 0.0 && x * y == 0.0
    ensures x == 0.0
  {
  }

  lemma LevelPaymentUnique(owed: real, p: real, r: real, g: real, e: real, level: real)
    requires r > 0.0 && g > 1.0
    requires owed * r == p * r * g - e * (g - 1.0)
    requires level * (g - 1.0) == p * r * g
    ensures owed == 0.0 <==> e == level
  {
    assert owed * r == (level - e) * (g - 1.0);
    if owed == 0.0 { ZeroFactor(level - e, g - 1.0); }
    if e == level { ZeroFactor(owed, r); }
  }

  lemma CancelPositiveFactor(x: real, y: real, c: real)
    requires c > 0.0 && x * c > y * c
    ensures x > y
  {
  }

  lemma MultiplyPositive(p: real, a: real, b: real)
    requires p > 0.0 && a < b
    ensures p * a < p * b
  {
    assert p * b - p * a == p * (b - a);
  }

  lemma RepaysMoreThanBorrowed(e: real, p: real, r: real, g: real, m: real)
    requires p > 0.0 && r > 0.0 && g > 1.0 && m >= 1.0
    requires e * (g - 1.0) == p * r * g
    requires g - 1.0 < m * r * g
    ensures e * m > p
  {
    assert (e * m) * (g - 1.0) == p * (m * r * g);
    MultiplyPositive(p, g - 1.0, m * r * g);
    CancelPositiveFactor(e * m, p, g - 1.0);
  }

  lemma DriftBound(roundedEmi: real, emi: real, roundedTotal: real, total: real, n: real)
    requires -0.005 <= roundedEmi - emi <= 0.005 && -0.005 <= roundedTotal - total <= 0.005
    requires total == emi * n && n >= 0.0
    ensures -0.005 * (n + 1.0) <= roundedTotal - roundedEmi * n <= 0.005 * (n + 1.0)
  {
    var d := roundedEmi - emi;
    assert roundedEmi * n == total + d * n;
    assert -0.005 * n <= d * n <= 0.005 * n;
  }

  lemma ClosedFormStep(b: real, q: real, next: real, g: real, r: real, p: real, e: real)
    requires b * r == p * r * q - e * (q - 1.0)
    requires g == (1.0 + r) * q && next == b * (1.0 + r) - e
    ensures next * r == p * r * g - e * (g - 1.0)
  {
  }

  lemma GrowthStep(q: real, r: real, m: real)
    requires r > 0.0 && q > 0.0 && m >= 2.0
    requires q - 1.0 < (m - 1.0) * r * q
    ensures (1.0 + r) * q - 1.0 < m * r * ((1.0 + r) * q)
  {
    assert (m - 1.0) * r * q + r * q == m * r * q;
    assert m * r * ((1.0 + r) * q) == m * r * q + m * r * (r * q);
    assert m * r * (r * q) > 0.0;
  }

  lemma {:induction false} PowPositive(x: real, n: nat)
    requires x > 0.0
    ensures Pow(x, n) > 0.0
  {
    if n > 0 {
      PowPositive(x, n - 1);
    }
  }

  /** Compounding at a positive rate grows: `(1 + r)^n > 1` once `n >= 1`. */
  lemma {:induction false} PowAboveOne(x: real, n: nat)
    requires x > 1.0 && n >= 1
    ensures Pow(x, n) > 1.0
  {
    if n > 1 {
      PowAboveOne(x, n - 1);
      var q := Pow(x, n - 1);
      assert Pow(x, n) == x * q;
      assert x * q > q by {
        assert (x - 1.0) * q > 0.0;
      }
    }
  }

  /**
   * The growth over `n` months is less than `n` times one month's interest
   * on the final amount: `(1 + r)^n - 1 < n * r * (1 + r)^n`.
   */
  lemma {:induction false} GrowthBelowSimpleInterest(r: real, n: nat)
    requires r > 0.0 && n >= 1
    ensures Pow(1.0 + r, n) - 1.0 < n as real * r * Pow(1.0 + r, n)
  {
    var q := Pow(1.0 + r, n - 1);
    assert Pow(1.0 + r, n) == (1.0 + r) * q;
    if n == 1 {
      assert q == 1.0;
    } else {
      PowPositive(1.0 + r, n - 1);
      GrowthBelowSimpleInterest(r, n - 1);
      GrowthStep(q, r, n as real);
    }
  }

  /**
   * The level installment that repays `principal` in `n` months at monthly
   * rate `r`: `P * r * (1 + r)^n / ((1 + r)^n - 1)`.
   */
  function Installment(principal: real, r: real, n: nat): (emi: real)
    requires r > 0.0 && n >= 1
    ensures Pow(1.0 + r, n) > 1.0
    ensures emi * (Pow(1.0 + r, n) - 1.0) == principal * r * Pow(1.0 + r, n)
  {
    PowAboveOne(1.0 + r, n);
    var growth := Pow(1.0 + r, n);
    MultiplyOutDivision(principal * r * growth, growth - 1.0);
    principal * r * growth / (growth - 1.0)
  }

  /** The balance still owed after `k` months of interest at `r` and payments of `emi`. */
  function Balance(principal: real, r: real, emi: real, k: nat): real
  {
    if k == 0 then principal else Balance(principal, r, emi, k - 1) * (1.0 + r) - emi
  }

  lemma {:induction false} BalanceClosedForm(principal: real, r: real, emi: real, k: nat)
    ensures Balance(principal, r, emi, k) * r
      == principal * r * Pow(1.0 + r, k) - emi * (Pow(1.0 + r, k) - 1.0)
  {
    if k > 0 {
      BalanceClosedForm(principal, r, emi, k - 1);
      var b, q := Balance(principal, r, emi, k - 1), Pow(1.0 + r, k - 1);
      ClosedFormStep(b, q, Balance(principal, r, emi, k), Pow(1.0 + r, k), r, principal, emi);
    }
  }

  /**
   * The reducing-balance property of the formula: paying the installment every
   * month leaves nothing owed after exactly `n` months, and it is the only
   * monthly payment that does.
   */
  lemma InstallmentRepaysLoan(principal: real, r: real, n: nat, emi: real)
    requires r > 0.0 && n >= 1
    ensures Balance(principal, r, emi, n) == 0.0 <==> emi == Installment(principal, r, n)
  {
    var owed, growth, level := Balance(principal, r, emi, n), Pow(1.0 + r, n), Installment(principal, r, n);
    assert owed * r == principal * r * growth - emi * (growth - 1.0) by {
      BalanceClosedForm(principal, r, emi, n);
    }
    LevelPaymentUnique(owed, principal, r, growth, emi, level);
  }

  /** The installment is the principal times a factor of rate and tenure alone. */
  lemma InstallmentLinearInPrincipal(principal: real, scale: real, r: real, n: nat)
    requires r > 0.0 && n >= 1
    ensures Installment(scale * principal, r, n) == scale * Installment(principal, r, n)
  {
    PowAboveOne(1.0 + r, n);
    var growth := Pow(1.0 + r, n);
    var factor := r * growth / (growth - 1.0);
    assert Installment(principal, r, n) == principal * factor;
    assert Installment(scale * principal, r, n) == (scale * principal) * factor;
  }

  /** A larger principal means a larger installment. */
  lemma InstallmentIncreasesWithPrincipal(p1: real, p2: real, r: real, n: nat)
    requires r > 0.0 && n >= 1 && p1 < p2
    ensures Installment(p1, r, n) < Installment(p2, r, n)
  {
    PowAboveOne(1.0 + r, n);
    var growth := Pow(1.0 + r, n);
    var factor := r * growth / (growth - 1.0);
    assert factor > 0.0;
    assert Installment(p1, r, n) == p1 * factor;
    assert Installment(p2, r, n) == p2 * factor;
  }

  /** The three figures the calculator reports. */
  datatype EmiBreakdown = EmiBreakdown(emi: real, totalPayable: real, totalInterest: real)

  /** The calculator's figures before rounding. */
  function ExactEmi(principal: real, annualRate: real, tenureYears: int): (b: EmiBreakdown)
    requires principal > 0.0 && annualRate > 0.0 && tenureYears > 0
    ensures b.emi > 0.0
    ensures b.totalPayable == b.emi * Months(tenureYears) as real
    ensures b.totalPayable == principal + b.totalInterest
    ensures b.totalInterest > 0.0
  {
    var r := MonthlyRate(annualRate);
    var n := Months(tenureYears);
    var emi := Installment(principal, r, n);
    var totalPayable := emi * n as real;
    TotalExceedsPrincipal(principal, r, n);
    EmiBreakdown(emi, totalPayable, totalPayable - principal)
  }

  /** All installments together pay back more than was borrowed. */
  lemma TotalExceedsPrincipal(principal: real, r: real, n: nat)
    requires principal > 0.0 && r > 0.0 && n >= 1
    ensures Installment(principal, r, n) > 0.0
    ensures Installment(principal, r, n) * n as real > principal
  {
    var growth := Pow(1.0 + r, n);
    GrowthBelowSimpleInterest(r, n);
    var emi := Installment(principal, r, n);
    RepaysMoreThanBorrowed(emi, principal, r, growth, n as real);
  }

  /** `round(x, 2)` on the exact value: the nearest hundredth, ties to the even one. */
  function Round2(x: real): (y: real)
    ensures -0.005 <= y - x <= 0.005
    ensures (y * 100.0).Floor as real == y * 100.0
    ensures (y - x == 0.005 || x - y == 0.005) ==> (y * 100.0).Floor % 2 == 0
  {
    var scaled := x * 100.0;
    var whole := scaled.Floor;
    var fraction := scaled - whole as real;
    var k := if fraction < 0.5 then whole
             else if fraction > 0.5 then whole + 1
             else if whole % 2 == 0 then whole else whole + 1;
    k as real / 100.0
  }

  /** The output step: each figure is rounded to two decimals on its own. */
  function RoundFigures(exact: EmiBreakdown): (b: EmiBreakdown)
    ensures -0.005 <= b.emi - exact.emi <= 0.005
    ensures -0.005 <= b.totalPayable - exact.totalPayable <= 0.005
    ensures -0.005 <= b.totalInterest - exact.totalInterest <= 0.005
  {
    EmiBreakdown(Round2(exact.emi), Round2(exact.totalPayable), Round2(exact.totalInterest))
  }

  /** The calculator: the exact figures, rounded at the output. */
  function CalculateEmi(principal: real, annualRate: real, tenureYears: int): (b: EmiBreakdown)
    requires principal > 0.0 && annualRate > 0.0 && tenureYears > 0
  {
    RoundFigures(ExactEmi(principal, annualRate, tenureYears))
  }

  /**
   * Because the figures are rounded independently, the reported total may
   * differ from the reported installment times the number of months, but by
   * no more than half a hundredth per month plus half a hundredth.
   */
  lemma RoundedTotalsStayClose(exact: EmiBreakdown, n: real)
    requires exact.totalPayable == exact.emi * n && n >= 0.0
    ensures var b := RoundFigures(exact);
      -0.005 * (n + 1.0) <= b.totalPayable - b.emi * n <= 0.005 * (n + 1.0)
  {
    var b := RoundFigures(exact);
    assert && -0.005 <= b.emi - exact.emi <= 0.005
           && -0.005 <= b.totalPayable - exact.totalPayable <= 0.005;
    DriftBound(b.emi, exact.emi, b.totalPayable, exact.totalPayable, n);
  }

  /**
   * With the figures of the calculator's own first test case (100000 at 10%
   * for one year), the rounded total payable is not the rounded installment
   * times twelve.
   */
  lemma RoundingSeparatesTotalFromInstallment()
    ensures CalculateEmi(100000.0, 10.0, 1) == EmiBreakdown(8791.59, 105499.06, 5499.06)
    ensures 8791.59 * 12.0 != 105499.06
  {
    var r := MonthlyRate(10.0);
    var growth := Pow(121.0 / 120.0, 12);
    assert growth == 9849732675807611094711841.0 / 8916100448256000000000000.0;
    assert r == 1.0 / 120.0 && 1.0 + r == 121.0 / 120.0;
    var emi := Installment(100000.0, r, Months(1));
    assert emi == 24624331689519027736779602500.0 / 2800896682654833284135523.0;
    var exact := ExactEmi(100000.0, 10.0, 1);
    assert exact.totalPayable == 98497326758076110947118410000.0 / 933632227551611094711841.0;
    assert exact.totalInterest == 5134104002915001475934310000.0 / 933632227551611094711841.0;
  }

}
