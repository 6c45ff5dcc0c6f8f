// The records the loan computations produce (types.ts). Amounts of money are
// exact reals; month numbers and tenures are integers.
module Types {

  /** One month of an amortization schedule. */
  datatype AmortizationRow = AmortizationRow(
    month: int,
    openingBalance: real,
    emi: real,
    extraPayment: real,
    totalPayment: real,
    principalComponent: real,
    interestComponent: real,
    closingBalance: real)

  /** One sampled tenure of the installment / interest trade-off curve. */
  datatype TenureComparisonPoint = TenureComparisonPoint(
    tenureMonths: int,
    emi: real,
    totalInterest: real,
    totalPayment: real)
}
