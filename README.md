# Loan calculator core in Dafny

This project models the computational core of a reducing-balance loan
calculator, `services/loanUtils.ts`, and the records it produces
(`types.ts`). It covers three operations:

- `calculateEMI` computes the fixed monthly installment (EMI).
  - A tenure of 0 or fewer months gives 0.
  - A zero rate gives principal / months.
  - Otherwise it is P·r·(1+r)^n / ((1+r)^n − 1), with r = annualRate / 12 / 100.
- `generateAmortizationSchedule` simulates the loan month by month.
  - It charges interest on the opening balance and pays the EMI plus a flat extra payment.
  - A month whose payment covers the whole balance becomes a terminal row. That row pays exactly the balance plus interest and closes at 0.
  - The loop stops once the balance is at most 1 or after twice the scheduled tenure.
- `generateSweetSpotData` samples tenures every 6 months. For each one it records the EMI, the total payment and the total interest.

Modules:

- `Types` (`types.dfy`) holds the `AmortizationRow` and `TenureComparisonPoint` records.
- `Emi` (`emi.dfy`) holds:
  - `CalculateEMI` as a function;
  - an independent reference model, `BalanceAfter`: the balance left after k months of charging interest on the reducing balance and paying a fixed amount;
  - its closed form;
  - the proof that the EMI repays the loan in exactly the scheduled number of months;
  - the monotonicity of the EMI and of the total payment in the tenure.
- `Schedule` (`schedule.dfy`) holds:
  - the simulator as a method with a `while` loop over a growing `seq` of rows;
  - its specification `IsSchedule`, which says row by row what the loop emits and when it stops;
  - lemmas on what every schedule guarantees.
- `SweetSpot` (`sweet_spot.dfy`) holds:
  - the sampler as a method with a loop;
  - its specification `IsSweetSpotData`;
  - lemmas on the sampled curve.

Money is exact `real` arithmetic. Months and tenures are `int`. `Math.pow` with a
whole-month exponent becomes the recursive `Pow`. The annual rate is required
to be non-negative. The interface's rate slider starts at 1
(components/LoanControls.tsx:96). For a negative rate, (1+r)^n − 1 can be 0 and
the division would be undefined.

The app's totals (`reduce` sums of `interestComponent` and `totalPayment`,
App.tsx:30-31) appear as `SumInterest` and `SumPayment` to state schedule-wide
properties. `SumPrincipal` is this model's own helper for `TotalsReconcile`: the
source only displays each row's `principalComponent` and never sums it.

## Model

| member | source | states |
|---|---|---|
| Emi.MonthlyRate | services/loanUtils.ts:16 | the monthly rate is the annual percentage divided by 1200, and it is positive exactly when the annual rate is |
| Emi.CalculateEMI | services/loanUtils.ts:12-21 | 0 for a tenure of at most 0 months; at a zero rate, EMI × months = principal; at a positive rate, (1+r)^n − 1 > 0, so the division is defined, and EMI·((1+r)^n − 1) = P·r·(1+r)^n |
| Emi.EmiRepaysLoan | services/loanUtils.ts:12-21 | paying the EMI every month on a reducing balance leaves exactly 0 owed after the scheduled number of months, at any non-negative rate |
| Emi.BalanceClosedForm | services/loanUtils.ts:17-20 | the reducing balance after k months is P·(1+r)^k − payment·(1 + (1+r) + … + (1+r)^(k−1)), the closed form behind the EMI formula |
| Emi.EmiExceedsFirstInterest | services/loanUtils.ts:16-20 | for a positive principal and rate, the EMI is more than the first month's interest P·r |
| Emi.PaymentsMatchGrowth | services/loanUtils.ts:16-20 | at a positive rate, the EMI's payments grown to the end of the tenure, EMI·(1 + q + … + q^(n−1)), equal the principal grown over it, P·q^n, with q = 1 + r |
| Emi.EmiNonIncreasing | services/loanUtils.ts:16-20 | at a positive rate and for a non-negative principal, a longer tenure never has a larger EMI |
| Emi.TotalPaymentNonDecreasing | services/loanUtils.ts:16-20 | at a positive rate and for a non-negative principal, a longer tenure never has a smaller `TotalPayment` (EMI × months) |
| Emi.TenureTradeOff | services/loanUtils.ts:12-21 | at any non-negative rate and for a non-negative principal, a longer tenure never has a larger EMI and never a smaller total EMI × months |
| Emi.ZeroRateExample | services/loanUtils.ts:14 | 1,200,000 at a zero rate over 12 months is 100,000 a month |
| Emi.BalanceAntitone | services/loanUtils.ts:37-38 | at a non-negative rate, paying more each month never leaves more owed after any number of months |
| Schedule.GenerateAmortizationSchedule | services/loanUtils.ts:23-89 | the extra payment defaults to 0; the result is the loop's schedule: each row has month i+1 within 2·scheduledMonths; each row opens on the previous closing balance (the first on the principal) and is emitted only while the balance is above 1; interest is the opening balance × rate; a clearing month is a terminal row and any other month is a regular one; the loop stops once the balance is at most 1 or the limit is reached |
| Schedule.RowsReconcile | services/loanUtils.ts:37-83 | every row has interest = opening × rate, interest + principal = total payment, EMI + extra = total payment, closing = opening − principal, and closing ≥ 0 |
| Schedule.RowsByKind | services/loanUtils.ts:49-83 | a regular month records the full EMI and extra and closes above 0; a clearing month records at most the EMI, never more EMI than it pays, and a non-negative extra |
| Schedule.ClearingRowIsLast | services/loanUtils.ts:36-68 | every row before the last closes above 1 and does not clear the loan; a clearing row is the last row, repays its opening balance, pays opening + interest, and closes at 0 |
| Schedule.ScheduleLength | services/loanUtils.ts:33-36 | a non-empty schedule has at most the month limit of rows; it is empty when the principal is at most 1 or the limit is at most 0, and non-empty otherwise |
| Schedule.EmptyWithoutTenure | services/loanUtils.ts:29-36 | with a scheduled tenure of at most 0 months, the EMI is 0 and the schedule is empty |
| Schedule.OpeningIsBalanceAfter | services/loanUtils.ts:31-83 | row i opens on the reference model's balance after i months of paying EMI + extra |
| Schedule.ModelAtMostOutstanding | services/loanUtils.ts:49-83 | the reference model's balance after as many months as there are rows never exceeds what the rows leave owed |
| Schedule.StopsOnceModelPaid | services/loanUtils.ts:36 | once the reference model owes at most 1 after n months, the schedule has at most n rows |
| Schedule.ScheduleWithinTenure | services/loanUtils.ts:23-89 | with a non-negative extra payment, a schedule never runs past the scheduled tenure, and it leaves between 0 and 1 owed |
| Schedule.PrefixOfSchedule | services/loanUtils.ts:36-85 | every prefix of the emitted rows is itself a valid partial run of the loop |
| Schedule.ScheduleDetermined | services/loanUtils.ts:23-89 | at any rate, two complete schedules for the same loan are equal: the specification fixes the output |
| Schedule.RowsAgree | services/loanUtils.ts:36-85 | where two runs of the loop for the same loan both have a row, the rows are equal |
| Schedule.CompleteIsLongest | services/loanUtils.ts:36 | a finished run is at least as long as any partial run of the loop for the same loan |
| Schedule.MoreExtraNeverLonger | services/loanUtils.ts:44-83 | a larger extra payment never gives a longer schedule |
| Schedule.MoreExtraNeverMoreInterest | services/loanUtils.ts:37-83 | a larger extra payment never gives a larger total interest |
| Schedule.InterestFollowsModel | services/loanUtils.ts:37 | each row's interest is the rate times the reference model's balance for that month, and that balance is above 1 |
| Schedule.TotalsReconcile | services/loanUtils.ts:37-83 | over a schedule, total interest + total principal = total payment, and total principal = principal − the balance still owed |
| SweetSpot.GenerateSweetSpotData | services/loanUtils.ts:91-113 | the range defaults to 6 to 120 months; the points are for tenures minMonths + 6·i up to maxMonths, stopping at the last one not beyond maxMonths; the result is empty exactly when minMonths > maxMonths; each point has emi = calculateEMI, total payment = emi × months and total interest = total payment − principal |
| SweetSpot.TenuresAscend | services/loanUtils.ts:100-106 | tenures strictly ascend exactly 6 months apart, lie between minMonths and maxMonths, and are minMonths plus a multiple of 6 |
| SweetSpot.EveryTenureSampled | services/loanUtils.ts:100 | every tenure minMonths + 6k not beyond maxMonths is sampled, at index k |
| SweetSpot.DefaultRangeHasTwentyPoints | services/loanUtils.ts:94-95 | the default range of 6 to 120 months gives exactly 20 points |
| SweetSpot.InstallmentInterestTradeOff | services/loanUtils.ts:100-110 | for a non-negative principal and minMonths ≥ 1, later points never have a larger EMI nor a smaller total interest |

## Left out

- `formatCurrency` (services/loanUtils.ts:3-10) is locale formatting through `Intl.NumberFormat`, a foreign library.
- `services/geminiService.ts` is a network call to a hosted language model and is not part of this model.
- The React components and `App.tsx` are rendering and UI state and are not part of this model.
  - The reduce sums at App.tsx:30-31 appear only as the `Sum*` helper functions.
- `calculateMaxLoanAmount`, `findOptimalTenureForBudget` and `generatePrepaymentScenarios` are imported by the interface but are not defined in `services/loanUtils.ts`. They are not part of this model.
- The `fee` field read by the amortization table is not a field of `AmortizationRow`, so it is not modelled.
- The `LoanParams`, `PrepaymentScenario` and `AIAnalysis` records of `types.ts` are used only by code outside this model.
- IEEE-754 double rounding is not modelled; all arithmetic is exact.
  - The loop threshold `balance > 1` is kept exactly as written. So a regular last row may close with a balance in (0, 1], which is never cleared.
- Month counts are integers. The source does not restrict `scheduledMonths`, `minMonths` or `maxMonths` to whole numbers, but the interface only supplies whole months.
- Schedule.ScheduleWithinTenure: bounds the length by the scheduled tenure but does not prove that a zero-extra schedule has exactly that many rows. That would need the balance to stay above 1 until the last month, which does not hold for every loan.
- CalculateEMI: defined only for a non-negative annual rate (see above). At a positive rate the contract gives the defining equation EMI·((1+r)^n − 1) = P·r·(1+r)^n rather than the quotient.
