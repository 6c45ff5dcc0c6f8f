// The tenure trade-off samples (generateSweetSpotData in
// services/loanUtils.ts): one point every 6 months from minMonths up to
// maxMonths, each with its installment, total payment and total interest.
module SweetSpot {
  import opened Types
  import opened Emi

  /** The point recorded for a tenure of m months. */
  ghost predicate IsPointFor(p: TenureComparisonPoint, principal: real, annualRate: real, m: int)
    requires annualRate >= 0.0
  {
    && p.tenureMonths == m
    && p.emi == CalculateEMI(principal, annualRate, m)
    && p.totalPayment == p.emi * m as real
    && p.totalInterest == p.totalPayment - principal
  }

  /** data samples every 6 months from minMonths and stops at the last tenure
      not beyond maxMonths; nothing is sampled when minMonths > maxMonths. */
  ghost predicate IsSweetSpotData(data: seq<TenureComparisonPoint>, principal: real, annualRate: real,
                                  minMonths: int, maxMonths: int)
    requires annualRate >= 0.0
  {
    && (|data| == 0 <==> minMonths > maxMonths)
    && (forall i :: 0 <= i < |data| ==>
          minMonths + 6 * i <= maxMonths && IsPointFor(data[i], principal, annualRate, minMonths + 6 * i))
    && (|data| > 0 ==> minMonths + 6 * |data| > maxMonths)
  }

  /** generateSweetSpotData; the range defaults to 6 to 120 months. */
  method GenerateSweetSpotData(principal: real, annualRate: real, minMonths: int := 6,
                               maxMonths: int := 120)
    returns (data: seq<TenureComparisonPoint>)
    requires annualRate >= 0.0
    ensures IsSweetSpotData(data, principal, annualRate, minMonths, maxMonths)
  {
    data := [];
    var m := minMonths;
    while m <= maxMonths
      invariant m == minMonths + 6 * |data|
      invariant |data| > 0 ==> m <= maxMonths + 6
      invariant forall i :: 0 <= i < |data| ==>
        minMonths + 6 * i <= maxMonths && IsPointFor(data[i], principal, annualRate, minMonths + 6 * i)
      decreases maxMonths - m
    {
      var emi := CalculateEMI(principal, annualRate, m);
      var totalPayment := emi * m as real;
      var totalInterest := totalPayment - principal;
      data := data + [TenureComparisonPoint(m, emi, totalInterest, totalPayment)];
      m := m + 6;
    }
  }

  /** Tenures are strictly ascending, exactly 6 months apart, never beyond
      maxMonths; every sampled tenure is minMonths plus a multiple of 6. */
  lemma TenuresAscend(data: seq<TenureComparisonPoint>, principal: real, annualRate: real,
                      minMonths: int, maxMonths: int)
    requires annualRate >= 0.0
    requires IsSweetSpotData(data, principal, annualRate, minMonths, maxMonths)
    ensures forall i, j :: 0 <= i < j < |data| ==> data[i].tenureMonths < data[j].tenureMonths
    ensures forall i :: 0 < i < |data| ==> data[i].tenureMonths == data[i - 1].tenureMonths + 6
    ensures forall i :: 0 <= i < |data| ==>
      minMonths <= data[i].tenureMonths <= maxMonths && (data[i].tenureMonths - minMonths) % 6 == 0
  {
    forall i, j | 0 <= i < j < |data|
      ensures data[i].tenureMonths < data[j].tenureMonths
    {
      assert IsPointFor(data[i], principal, annualRate, minMonths + 6 * i);
      assert IsPointFor(data[j], principal, annualRate, minMonths + 6 * j);
    }
  }

  /** No tenure is skipped: every minMonths + 6k up to maxMonths is sampled. */
  lemma EveryTenureSampled(data: seq<TenureComparisonPoint>, principal: real, annualRate: real,
                           minMonths: int, maxMonths: int, k: nat)
    requires annualRate >= 0.0
    requires IsSweetSpotData(data, principal, annualRate, minMonths, maxMonths)
    requires minMonths + 6 * k <= maxMonths
    ensures k < |data| && data[k].tenureMonths == minMonths + 6 * k
  {
  }

  /** The caller's default range, 6 to 120 months, gives 20 points. */
  lemma DefaultRangeHasTwentyPoints(data: seq<TenureComparisonPoint>, principal: real, annualRate: real)
    requires annualRate >= 0.0
    requires IsSweetSpotData(data, principal, annualRate, 6, 120)
    ensures |data| == 20
  {
    assert 6 + 6 * (|data| - 1) <= 120;
  }

  /** Along the curve (for a non-negative principal and tenures of at least a
      month) the installment never rises and the total interest never falls
      as the tenure grows. */
  lemma InstallmentInterestTradeOff(data: seq<TenureComparisonPoint>, principal: real, annualRate: real,
                                    minMonths: int, maxMonths: int)
    requires annualRate >= 0.0 && principal >= 0.0 && minMonths >= 1
    requires IsSweetSpotData(data, principal, annualRate, minMonths, maxMonths)
    ensures forall i, j :: 0 <= i <= j < |data| ==>
      data[j].emi <= data[i].emi && data[i].totalInterest <= data[j].totalInterest
  {
    forall i, j | 0 <= i <= j < |data|
      ensures data[j].emi <= data[i].emi && data[i].totalInterest <= data[j].totalInterest
    {
      var mi := minMonths + 6 * i;
      var mj := minMonths + 6 * j;
      PointsTradeOff(data[i], data[j], principal, annualRate, mi, mj);
    }
  }

  /** Two points of the curve, the second for the longer tenure. */
  lemma PointsTradeOff(p1: TenureComparisonPoint, p2: TenureComparisonPoint, principal: real,
                       annualRate: real, m1: int, m2: int)
    requires annualRate >= 0.0 && principal >= 0.0 && 1 <= m1 <= m2
    requires IsPointFor(p1, principal, annualRate, m1) && IsPointFor(p2, principal, annualRate, m2)
    ensures p2.emi <= p1.emi && p1.totalInterest <= p2.totalInterest
  {
    TenureTradeOff(principal, annualRate, m1, m2);
  }
}
