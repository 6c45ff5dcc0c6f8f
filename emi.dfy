// The fixed monthly installment (EMI) of a reducing-balance loan
// (calculateEMI in services/loanUtils.ts), together with an independent
// reference model of a reducing balance that the installment is proved
// against: paying the EMI every month clears the loan in exactly the
// scheduled number of months.
module Emi {

  /** acc * x^n, multiplying x in one month at a time. */
  function PowFrom(x: real, n: nat, acc: real): real
  {
    if n == 0 then acc else PowFrom(x, n - 1, acc * x)
  }

  /** x raised to a whole number of months: Math.pow with a natural exponent.
      It is computed through the accumulator PowFrom, so that the verifier does
      not relate x^m and x^(m+1) unless PowSucc is called. */
  function Pow(x: real, n: nat): real
  {
    PowFrom(x, n, 1.0)
  }

  lemma {:induction false} PowFromScales(x: real, n: nat, acc: real)
    ensures PowFrom(x, n, acc) == acc * Pow(x, n)
  {
    if n > 0 {
      PowFromScales(x, n - 1, acc * x);
      PowFromScales(x, n - 1, x);
      assert Pow(x, n) == x * Pow(x, n - 1);
      assert (acc * x) * Pow(x, n - 1) == acc * (x * Pow(x, n - 1));
    }
  }

  /** One more month multiplies the power by x. */
  lemma PowSucc(x: real, n: nat)
    ensures Pow(x, n + 1) == x * Pow(x, n)
  {
    PowFromScales(x, n, x);
  }

  /** The monthly rate as a fraction: annualRate / 12 / 100. */
  function MonthlyRate(annualRate: real): (r: real)
    ensures r * 1200.0 == annualRate
    ensures annualRate > 0.0 <==> r > 0.0
  {
    annualRate / 12.0 / 100.0
  }

  lemma {:induction false} PowAtLeastOne(x: real, n: nat)
    requires x >= 1.0
    ensures Pow(x, n) >= 1.0
  {
    if n > 0 {
      PowAtLeastOne(x, n - 1);
      PowSucc(x, n - 1);
      var p := Pow(x, n - 1);
      assert x * p - p == (x - 1.0) * p;
      assert (x - 1.0) * p >= 0.0;
    }
  }

  lemma {:induction false} PowAboveOne(x: real, n: nat)
    requires x > 1.0 && n >= 1
    ensures Pow(x, n) > 1.0
  {
    PowAtLeastOne(x, n - 1);
    PowSucc(x, n - 1);
    var p := Pow(x, n - 1);
    assert x * p - x == x * (p - 1.0);
    assert x * (p - 1.0) >= 0.0;
  }

  /** calculateEMI: 0 for a non-positive tenure, principal / months at a zero
      rate, and otherwise P * r * (1+r)^n / ((1+r)^n - 1). The third ensures
      says that the denominator is positive, so the division is defined. */
  function CalculateEMI(principal: real, annualRate: real, months: int): (emi: real)
    requires annualRate >= 0.0
    ensures months <= 0 ==> emi == 0.0
    ensures months > 0 && annualRate == 0.0 ==> emi * months as real == principal
    ensures months > 0 && annualRate > 0.0 ==>
      var growth := Pow(1.0 + MonthlyRate(annualRate), months);
      growth > 1.0 && emi * (growth - 1.0) == principal * MonthlyRate(annualRate) * growth
  {
    if months <= 0 then 0.0
    else if annualRate == 0.0 then principal / months as real
    else
      var monthlyRate := MonthlyRate(annualRate);
      PowAboveOne(1.0 + monthlyRate, months);
      var numerator := principal * monthlyRate * Pow(1.0 + monthlyRate, months);
      var denominator := Pow(1.0 + monthlyRate, months) - 1.0;
      numerator / denominator
  }

  /** The balance owed after k months on a reducing balance: every month the
      opening balance earns interest at rate r and `payment` is paid, so the
      principal repaid is payment - interest. */
  function BalanceAfter(principal: real, r: real, payment: real, k: nat): real
  {
    if k == 0 then principal
    else
      var opening := BalanceAfter(principal, r, payment, k - 1);
      opening - (payment - opening * r)
  }

  /** 1 + q + ... + q^(k-1): what k payments of 1 have grown to after k months. */
  function AnnuityFactor(q: real, k: nat): real
  {
    if k == 0 then 0.0 else AnnuityFactor(q, k - 1) * q + 1.0
  }

  /** The closed form of the reducing balance, from which the EMI formula
      follows by setting the balance after the tenure to 0. */
  lemma {:induction false} BalanceClosedForm(principal: real, r: real, payment: real, k: nat)
    ensures BalanceAfter(principal, r, payment, k)
         == principal * Pow(1.0 + r, k) - payment * AnnuityFactor(1.0 + r, k)
  {
    if k > 0 {
      BalanceClosedForm(principal, r, payment, k - 1);
      var q := 1.0 + r;
      PowSucc(q, k - 1);
      var p := Pow(q, k - 1);
      var s := AnnuityFactor(q, k - 1);
      var opening := BalanceAfter(principal, r, payment, k - 1);
      ClosedFormStep(principal, r, payment, p, s, opening, Pow(q, k), AnnuityFactor(q, k));
    }
  }

  // One month of the closed form: the balance grows by 1 + r and the payment
  // is taken; p1 and s1 are the power and the annuity factor one month on.
  lemma ClosedFormStep(principal: real, r: real, payment: real, p: real, s: real, opening: real,
                       p1: real, s1: real)
    requires opening == principal * p - payment * s
    requires p1 == (1.0 + r) * p && s1 == s * (1.0 + r) + 1.0
    ensures opening - (payment - opening * r) == principal * p1 - payment * s1
  {
    var q := 1.0 + r;
    assert opening - (payment - opening * r) == opening * q - payment;
    assert (principal * p - payment * s) * q == principal * (q * p) - payment * (s * q);
  }

  lemma {:induction false} AnnuityFactorTimesRate(r: real, k: nat)
    ensures r * AnnuityFactor(1.0 + r, k) == Pow(1.0 + r, k) - 1.0
  {
    if k > 0 {
      AnnuityFactorTimesRate(r, k - 1);
      var q := 1.0 + r;
      var s := AnnuityFactor(q, k - 1);
      PowSucc(q, k - 1);
      var p := Pow(q, k - 1);
      assert r * (s * q + 1.0) == (r * s) * q + r;
      assert (p - 1.0) * q + r == q * p - 1.0;
    }
  }

  lemma {:induction false} FlatGrowth(n: nat)
    ensures Pow(1.0, n) == 1.0 && AnnuityFactor(1.0, n) == n as real
  {
    if n > 0 {
      FlatGrowth(n - 1);
      PowSucc(1.0, n - 1);
    }
  }

  /** The installment is the one that repays the loan: charging interest on
      the reducing balance and paying the EMI every month leaves exactly
      nothing owed after the scheduled number of months. */
  lemma EmiRepaysLoan(principal: real, annualRate: real, months: int)
    requires annualRate >= 0.0 && months >= 1
    ensures BalanceAfter(principal, MonthlyRate(annualRate),
                         CalculateEMI(principal, annualRate, months), months) == 0.0
  {
    var r := MonthlyRate(annualRate);
    var emi := CalculateEMI(principal, annualRate, months);
    var n: nat := months;
    BalanceClosedForm(principal, r, emi, n);
    var g := Pow(1.0 + r, n);
    var s := AnnuityFactor(1.0 + r, n);
    if annualRate == 0.0 {
      FlatGrowth(n);
      assert principal * g - emi * s == principal - emi * n as real;
    } else {
      PaymentsMatchGrowth(principal, annualRate, n);
    }
  }

  // At a positive rate, the EMI's payments grown to the end of the tenure
  // match the principal grown over it.
  lemma PaymentsMatchGrowth(principal: real, annualRate: real, n: nat)
    requires annualRate > 0.0 && n >= 1
    ensures var q := 1.0 + MonthlyRate(annualRate);
      CalculateEMI(principal, annualRate, n) * AnnuityFactor(q, n) == principal * Pow(q, n)
  {
    var r := MonthlyRate(annualRate);
    AnnuityFactorTimesRate(r, n);
    CancelRate(principal, r, CalculateEMI(principal, annualRate, n), Pow(1.0 + r, n), AnnuityFactor(1.0 + r, n));
  }

  // From r * s = g - 1 and emi * (g - 1) = P * r * g with r > 0:
  // emi * s = P * g.
  lemma CancelRate(principal: real, r: real, emi: real, g: real, s: real)
    requires r > 0.0
    requires r * s == g - 1.0
    requires emi * (g - 1.0) == principal * r * g
    ensures emi * s == principal * g
  {
    assert r * (emi * s) == emi * (r * s);
    assert r * (emi * s) == r * (principal * g);
  }

  /** For a positive principal and rate the installment is more than the
      first month's interest, so the first payment always reduces the
      balance. */
  lemma EmiExceedsFirstInterest(principal: real, annualRate: real, months: int)
    requires principal > 0.0 && annualRate > 0.0 && months >= 1
    ensures CalculateEMI(principal, annualRate, months) > principal * MonthlyRate(annualRate)
  {
    var r := MonthlyRate(annualRate);
    var emi := CalculateEMI(principal, annualRate, months);
    var g := Pow(1.0 + r, months);
    assert (emi - principal * r) * (g - 1.0) == principal * r;
    PositiveFactor(emi - principal * r, g - 1.0, principal * r);
  }

  // x * d == y with d > 0: x has the sign of y.
  lemma PositiveFactor(x: real, d: real, y: real)
    requires d > 0.0 && x * d == y && y > 0.0
    ensures x > 0.0
  {
  }

  lemma NonNegativeFactor(x: real, d: real, y: real)
    requires d > 0.0 && x * d == y && y >= 0.0
    ensures x >= 0.0
  {
  }

  lemma PositiveProduct(x: real, y: real)
    requires x > 0.0 && y > 0.0
    ensures x * y > 0.0
  {
  }

  lemma NonNegativeProduct(x: real, y: real)
    requires x >= 0.0 && y >= 0.0
    ensures x * y >= 0.0
  {
  }

  // The ratio c * a / (a - 1) does not grow when a grows (a > 1, c >= 0).
  lemma RatioStep(e1: real, e2: real, c: real, a: real, b: real)
    requires 1.0 < a <= b && c >= 0.0
    requires e1 * (a - 1.0) == c * a && e2 * (b - 1.0) == c * b
    ensures e2 <= e1
  {
    var k := (a - 1.0) * (b - 1.0);
    PositiveProduct(a - 1.0, b - 1.0);
    assert e1 * k == (c * a) * (b - 1.0);
    assert e2 * k == (c * b) * (a - 1.0);
    assert (e1 - e2) * k == c * (b - a);
    NonNegativeFactor(e1 - e2, k, c * (b - a));
  }

  // The total m * c * a / (a - 1) does not shrink when a grows to b = q * a,
  // given h = b - n q + m >= 0 with n = m + 1.
  lemma TotalStep(e1: real, e2: real, c: real, q: real, a: real, b: real, m: real, n: real)
    requires q >= 1.0 && a > 1.0 && b == q * a && b > 1.0 && c >= 0.0
    requires n == m + 1.0 && b - n * q + m >= 0.0
    requires e1 * (a - 1.0) == c * a && e2 * (b - 1.0) == c * b
    ensures e1 * m <= e2 * n
  {
    var x := a - 1.0;
    var y := b - 1.0;
    var h := b - n * q + m;
    PositiveProduct(x, y);
    NonNegativeProduct(c, a * h);
    assert (e1 * m) * (x * y) == (e1 * x) * (m * y);
    assert (e2 * n) * (x * y) == (e2 * y) * (n * x);
    assert (e2 * n - e1 * m) * (x * y) == (c * b) * (n * x) - (c * a) * (m * y);
    assert n * x * b - m * y * a == a * h;
    assert (c * b) * (n * x) - (c * a) * (m * y) == c * (a * h);
    NonNegativeFactor(e2 * n - e1 * m, x * y, c * (a * h));
  }

  /** q^(m+1) - (m+1)q + m is never negative for q >= 1: the growth factor is
      convex in the tenure. */
  lemma {:induction false} GrowthConvex(q: real, m: nat)
    requires q >= 1.0
    ensures Pow(q, m + 1) - (m + 1) as real * q + m as real >= 0.0
  {
    PowSucc(q, m);
    if m > 0 {
      GrowthConvex(q, m - 1);
      PowAtLeastOne(q, m);
      var p := Pow(q, m);
      var k := m as real;
      assert p - k * q + (k - 1.0) >= 0.0;
      NonNegativeProduct(p - 1.0, q - 1.0);
      assert q * p - (k + 1.0) * q + k == (p - 1.0) * (q - 1.0) + (p - k * q + (k - 1.0));
    }
  }

  // One more month at a positive rate: the growth factor b = q * a exceeds a.
  lemma GrowthStep(annualRate: real, m: nat)
    requires annualRate > 0.0 && m >= 1
    ensures var q := 1.0 + MonthlyRate(annualRate);
      1.0 < Pow(q, m) < Pow(q, m + 1) == q * Pow(q, m)
      && Pow(q, m + 1) - (m + 1) as real * q + m as real >= 0.0
  {
    var q := 1.0 + MonthlyRate(annualRate);
    PowAboveOne(q, m);
    PowSucc(q, m);
    PositiveProduct(q - 1.0, Pow(q, m));
    GrowthConvex(q, m);
  }

  // At a positive rate, one more month never raises the installment.
  lemma EmiStep(principal: real, annualRate: real, m: int, n: int)
    requires principal >= 0.0 && annualRate > 0.0 && m >= 1 && n == m + 1
    ensures CalculateEMI(principal, annualRate, n) <= CalculateEMI(principal, annualRate, m)
  {
    var r := MonthlyRate(annualRate);
    var q := 1.0 + r;
    GrowthStep(annualRate, m);
    NonNegativeProduct(principal, r);
    RatioStep(CalculateEMI(principal, annualRate, m), CalculateEMI(principal, annualRate, m + 1),
              principal * r, Pow(q, m), Pow(q, m + 1));
  }

  /** The total paid over a tenure: the installment times the months. */
  function TotalPayment(principal: real, annualRate: real, months: int): real
    requires annualRate >= 0.0
  {
    CalculateEMI(principal, annualRate, months) * months as real
  }

  // At a positive rate, one more month never lowers the total paid.
  lemma TotalStepAtRate(principal: real, annualRate: real, m: int, n: int)
    requires principal >= 0.0 && annualRate > 0.0 && m >= 1 && n == m + 1
    ensures TotalPayment(principal, annualRate, m) <= TotalPayment(principal, annualRate, n)
  {
    var r := MonthlyRate(annualRate);
    var q := 1.0 + r;
    GrowthStep(annualRate, m);
    NonNegativeProduct(principal, r);
    TotalStep(CalculateEMI(principal, annualRate, m), CalculateEMI(principal, annualRate, m + 1),
              principal * r, q, Pow(q, m), Pow(q, m + 1), m as real, (m + 1) as real);
  }

  lemma FlatTradeOff(principal: real, m1: int, m2: int)
    requires principal >= 0.0 && 1 <= m1 <= m2
    ensures CalculateEMI(principal, 0.0, m2) <= CalculateEMI(principal, 0.0, m1)
    ensures CalculateEMI(principal, 0.0, m1) * m1 as real <= CalculateEMI(principal, 0.0, m2) * m2 as real
  {
    var e1 := CalculateEMI(principal, 0.0, m1);
    var e2 := CalculateEMI(principal, 0.0, m2);
    assert e1 * m1 as real == principal;
    assert e2 * m2 as real == principal;
    NonNegativeFactor(e2, m2 as real, principal);
    NonNegativeProduct(e2, (m2 - m1) as real);
    assert (e1 - e2) * m1 as real == e2 * (m2 - m1) as real;
    NonNegativeFactor(e1 - e2, m1 as real, e2 * (m2 - m1) as real);
  }

  /** For a non-negative principal, a longer tenure never has a larger
      installment. */
  lemma {:induction false} EmiNonIncreasing(principal: real, annualRate: real, m1: int, m2: int)
    requires principal >= 0.0 && annualRate > 0.0 && 1 <= m1 <= m2
    ensures CalculateEMI(principal, annualRate, m2) <= CalculateEMI(principal, annualRate, m1)
    decreases m2 - m1
  {
    if m1 < m2 {
      EmiNonIncreasing(principal, annualRate, m1, m2 - 1);
      EmiStep(principal, annualRate, m2 - 1, m2);
    }
  }

  /** For a non-negative principal, a longer tenure never has a smaller total
      paid (installment times tenure). */
  lemma {:induction false} TotalPaymentNonDecreasing(principal: real, annualRate: real, m1: int, m2: int)
    requires principal >= 0.0 && annualRate > 0.0 && 1 <= m1 <= m2
    ensures TotalPayment(principal, annualRate, m1) <= TotalPayment(principal, annualRate, m2)
    decreases m2 - m1
  {
    if m1 < m2 {
      TotalPaymentNonDecreasing(principal, annualRate, m1, m2 - 1);
      TotalStepAtRate(principal, annualRate, m2 - 1, m2);
    }
  }

  /** The trade-off between tenures: for a non-negative principal, a longer
      tenure never has a larger installment, and never a smaller total paid
      (installment times tenure), so never less total interest. */
  lemma TenureTradeOff(principal: real, annualRate: real, m1: int, m2: int)
    requires principal >= 0.0 && annualRate >= 0.0 && 1 <= m1 <= m2
    ensures CalculateEMI(principal, annualRate, m2) <= CalculateEMI(principal, annualRate, m1)
    ensures CalculateEMI(principal, annualRate, m1) * m1 as real
         <= CalculateEMI(principal, annualRate, m2) * m2 as real
  {
    if annualRate == 0.0 {
      FlatTradeOff(principal, m1, m2);
    } else {
      EmiNonIncreasing(principal, annualRate, m1, m2);
      TotalPaymentNonDecreasing(principal, annualRate, m1, m2);
    }
  }

  /** The straight-line case: 1,200,000 interest-free over 12 months is
      100,000 a month. */
  lemma ZeroRateExample()
    ensures CalculateEMI(1200000.0, 0.0, 12) == 100000.0
  {
  }

  /** Paying more each month never leaves more owed, at any month. */
  lemma {:induction false} BalanceAntitone(principal: real, r: real, p1: real, p2: real, k: nat)
    requires r >= 0.0 && p1 <= p2
    ensures BalanceAfter(principal, r, p2, k) <= BalanceAfter(principal, r, p1, k)
  {
    if k > 0 {
      BalanceAntitone(principal, r, p1, p2, k - 1);
      var b1 := BalanceAfter(principal, r, p1, k - 1);
      var b2 := BalanceAfter(principal, r, p2, k - 1);
      assert (b1 - b2) * (1.0 + r) >= 0.0;
    }
  }
}
