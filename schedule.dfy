// The month-by-month amortization simulator (generateAmortizationSchedule in
// services/loanUtils.ts). The method runs the source's loop; the ghost
// predicate IsSchedule says, row by row, what that loop emits and when it
// stops, and the lemmas below derive from it what a schedule guarantees:
// rows reconcile, balances follow the reducing-balance model, the loan is
// paid within the tenure, and more extra payment never lengthens the loan
// nor adds interest.
module Schedule {
  import opened Types
  import opened Emi

  /** Math.min */
  function Min(a: real, b: real): real
  {
    if a <= b then a else b
  }

  /** Math.max */
  function Max(a: real, b: real): real
  {
    if a >= b then a else b
  }

  /** The clearing test: the installment's principal part (what is left of it
      after this month's interest) plus the extra payment covers the whole
      opening balance. */
  predicate ClearsLoan(opening: real, interest: real, emi: real, extra: real)
  {
    (emi - interest) + extra >= opening
  }

  /** The terminal row: exactly the opening balance plus this month's interest
      is paid, recorded as installment up to the EMI and the rest as extra. */
  ghost predicate IsClearingRow(row: AmortizationRow, emi: real)
  {
    var finalPayment := row.openingBalance + row.interestComponent;
    && row.totalPayment == finalPayment
    && row.emi == Min(finalPayment, emi)
    && row.extraPayment == Max(0.0, finalPayment - emi)
    && row.principalComponent == row.openingBalance
    && row.closingBalance == 0.0
  }

  /** An ordinary month: the full installment and the full extra payment are
      paid and everything above the interest reduces the balance. */
  ghost predicate IsRegularRow(row: AmortizationRow, emi: real, extra: real)
  {
    var principalPaid := (emi - row.interestComponent) + extra;
    && row.emi == emi
    && row.extraPayment == extra
    && row.totalPayment == emi + extra
    && row.principalComponent == principalPaid
    && row.closingBalance == row.openingBalance - principalPaid
  }

  /** The row the loop emits for its opening balance: interest is charged on
      the opening balance, then the month either clears the loan or is an
      ordinary one. */
  ghost predicate IsRowFor(row: AmortizationRow, monthlyRate: real, emi: real, extra: real)
  {
    && row.interestComponent == row.openingBalance * monthlyRate
    && if ClearsLoan(row.openingBalance, row.interestComponent, emi, extra)
       then IsClearingRow(row, emi)
       else IsRegularRow(row, emi, extra)
  }

  /** What is still owed after the rows s: the principal before any row,
      otherwise the last row's closing balance. */
  function Outstanding(s: seq<AmortizationRow>, principal: real): real
  {
    if s == [] then principal else s[|s| - 1].closingBalance
  }

  /** s is what the loop has emitted so far: months numbered from 1 and
      within the limit, each row opened on the balance the previous one
      closed on (the principal for the first), each emitted while the
      balance was above 1. */
  ghost predicate IsSchedulePrefix(s: seq<AmortizationRow>, principal: real, monthlyRate: real,
                                   emi: real, extra: real, monthLimit: int)
  {
    && (|s| > 0 ==> s[0].openingBalance == principal)
    && (forall i :: 0 < i < |s| ==> s[i].openingBalance == s[i - 1].closingBalance)
    && (forall i :: 0 <= i < |s| ==>
          && s[i].month == i + 1
          && s[i].month <= monthLimit
          && s[i].openingBalance > 1.0
          && IsRowFor(s[i], monthlyRate, emi, extra))
  }

  /** A finished run of the loop: the emitted rows, stopped as soon as the
      balance is at most 1 or the month limit is passed. */
  ghost predicate IsCompleteSchedule(s: seq<AmortizationRow>, principal: real, monthlyRate: real,
                                     emi: real, extra: real, monthLimit: int)
  {
    && IsSchedulePrefix(s, principal, monthlyRate, emi, extra, monthLimit)
    && (Outstanding(s, principal) > 1.0 ==> |s| >= monthLimit)
  }

  /** The schedule generateAmortizationSchedule returns for this loan: the
      EMI for the scheduled tenure, the monthly rate, and a safety limit of
      twice the scheduled tenure. */
  ghost predicate IsSchedule(s: seq<AmortizationRow>, principal: real, annualRate: real,
                             scheduledMonths: int, extra: real)
    requires annualRate >= 0.0
  {
    IsCompleteSchedule(s, principal, MonthlyRate(annualRate),
                       CalculateEMI(principal, annualRate, scheduledMonths), extra, 2 * scheduledMonths)
  }

  /** generateAmortizationSchedule; the extra payment defaults to 0. */
  method GenerateAmortizationSchedule(principal: real, annualRate: real, scheduledMonths: int,
                                     extraPayment: real := 0.0)
    returns (schedule: seq<AmortizationRow>)
    requires annualRate >= 0.0
    ensures IsSchedule(schedule, principal, annualRate, scheduledMonths, extraPayment)
  {
    var emi := CalculateEMI(principal, annualRate, scheduledMonths);
    var monthlyRate := MonthlyRate(annualRate);
    var balance := principal;
    schedule := [];
    var month := 1;

    // Runs until the balance is cleared or the safety limit of twice the tenure.
    while balance > 1.0 && month <= scheduledMonths * 2
      invariant month == |schedule| + 1
      invariant balance == Outstanding(schedule, principal)
      invariant IsSchedulePrefix(schedule, principal, monthlyRate, emi, extraPayment, scheduledMonths * 2)
      decreases scheduledMonths * 2 - month
    {
      var interest := balance * monthlyRate;
      var principalComponent := emi - interest;
      var currentExtra := extraPayment;

      if principalComponent + currentExtra >= balance {
        // These two updates are never read: the row is built from finalPayment.
        principalComponent := balance;
        currentExtra := Max(0.0, (balance + interest) - emi);
        var finalPayment := balance + interest;
        var recordedEMI := Min(finalPayment, emi);
        var recordedExtra := Max(0.0, finalPayment - emi);
        AppendClearingRow(schedule, principal, monthlyRate, emi, extraPayment, scheduledMonths * 2,
                          balance, interest);
        schedule := schedule + [AmortizationRow(month, balance, recordedEMI, recordedExtra,
                                                finalPayment, balance, interest, 0.0)];
        balance := 0.0;
      } else {
        var totalPrincipalPaid := principalComponent + currentExtra;
        AppendRegularRow(schedule, principal, monthlyRate, emi, extraPayment, scheduledMonths * 2,
                         balance, interest);
        schedule := schedule + [AmortizationRow(month, balance, emi, currentExtra, emi + currentExtra,
                                                totalPrincipalPaid, interest,
                                                balance - totalPrincipalPaid)];
        balance := balance - totalPrincipalPaid;
      }
      month := month + 1;
    }
  }

  /** The loop's clearing month extends a partial run and leaves nothing owed. */
  lemma AppendClearingRow(s: seq<AmortizationRow>, principal: real, monthlyRate: real,
                          emi: real, extra: real, monthLimit: int, balance: real, interest: real)
    requires IsSchedulePrefix(s, principal, monthlyRate, emi, extra, monthLimit)
    requires balance == Outstanding(s, principal) && balance > 1.0 && |s| + 1 <= monthLimit
    requires interest == balance * monthlyRate && ClearsLoan(balance, interest, emi, extra)
    ensures var row := AmortizationRow(|s| + 1, balance, Min(balance + interest, emi),
                                       Max(0.0, (balance + interest) - emi), balance + interest,
                                       balance, interest, 0.0);
      IsSchedulePrefix(s + [row], principal, monthlyRate, emi, extra, monthLimit)
  {
    var row := ClearingRow(|s| + 1, balance, monthlyRate, emi, extra, interest);
    AppendRow(s, row, principal, monthlyRate, emi, extra, monthLimit);
  }

  /** The row of a clearing month is the one IsRowFor expects. */
  lemma ClearingRow(month: int, balance: real, monthlyRate: real, emi: real, extra: real, interest: real)
    returns (row: AmortizationRow)
    requires interest == balance * monthlyRate && ClearsLoan(balance, interest, emi, extra)
    ensures row == AmortizationRow(month, balance, Min(balance + interest, emi),
                                   Max(0.0, (balance + interest) - emi), balance + interest,
                                   balance, interest, 0.0)
    ensures IsRowFor(row, monthlyRate, emi, extra)
  {
    row := AmortizationRow(month, balance, Min(balance + interest, emi),
                           Max(0.0, (balance + interest) - emi), balance + interest,
                           balance, interest, 0.0);
    assert IsClearingRow(row, emi);
  }

  /** The loop's ordinary month extends a partial run. */
  lemma AppendRegularRow(s: seq<AmortizationRow>, principal: real, monthlyRate: real,
                         emi: real, extra: real, monthLimit: int, balance: real, interest: real)
    requires IsSchedulePrefix(s, principal, monthlyRate, emi, extra, monthLimit)
    requires balance == Outstanding(s, principal) && balance > 1.0 && |s| + 1 <= monthLimit
    requires interest == balance * monthlyRate && !ClearsLoan(balance, interest, emi, extra)
    ensures var row := AmortizationRow(|s| + 1, balance, emi, extra, emi + extra,
                                       (emi - interest) + extra, interest,
                                       balance - ((emi - interest) + extra));
      IsSchedulePrefix(s + [row], principal, monthlyRate, emi, extra, monthLimit)
  {
    var row := RegularRow(|s| + 1, balance, monthlyRate, emi, extra, interest);
    AppendRow(s, row, principal, monthlyRate, emi, extra, monthLimit);
  }

  /** The row of an ordinary month is the one IsRowFor expects. */
  lemma RegularRow(month: int, balance: real, monthlyRate: real, emi: real, extra: real, interest: real)
    returns (row: AmortizationRow)
    requires interest == balance * monthlyRate && !ClearsLoan(balance, interest, emi, extra)
    ensures row == AmortizationRow(month, balance, emi, extra, emi + extra,
                                   (emi - interest) + extra, interest,
                                   balance - ((emi - interest) + extra))
    ensures IsRowFor(row, monthlyRate, emi, extra)
  {
    row := AmortizationRow(month, balance, emi, extra, emi + extra,
                           (emi - interest) + extra, interest,
                           balance - ((emi - interest) + extra));
    assert IsRegularRow(row, emi, extra);
  }

  /** Appending the row the loop emits for the balance still owed keeps a
      partial run. */
  lemma AppendRow(s: seq<AmortizationRow>, row: AmortizationRow, principal: real, monthlyRate: real,
                  emi: real, extra: real, monthLimit: int)
    requires IsSchedulePrefix(s, principal, monthlyRate, emi, extra, monthLimit)
    requires row.openingBalance == Outstanding(s, principal) && row.openingBalance > 1.0
    requires row.month == |s| + 1 <= monthLimit
    requires IsRowFor(row, monthlyRate, emi, extra)
    ensures IsSchedulePrefix(s + [row], principal, monthlyRate, emi, extra, monthLimit)
  {
  }


  // ---------------------------------------------------------------------
  // Row-level guarantees

  /** Every row reconciles: interest is charged on the opening balance,
      interest plus principal is what was paid, the recorded installment and
      extra add up to it, the closing balance is the opening balance less the
      principal repaid, and no balance is negative. */
  lemma RowsReconcile(s: seq<AmortizationRow>, principal: real, monthlyRate: real,
                      emi: real, extra: real, monthLimit: int)
    requires IsSchedulePrefix(s, principal, monthlyRate, emi, extra, monthLimit)
    ensures forall i :: 0 <= i < |s| ==>
      && s[i].interestComponent == s[i].openingBalance * monthlyRate
      && s[i].interestComponent + s[i].principalComponent == s[i].totalPayment
      && s[i].emi + s[i].extraPayment == s[i].totalPayment
      && s[i].closingBalance == s[i].openingBalance - s[i].principalComponent
      && s[i].closingBalance >= 0.0
  {
    forall i | 0 <= i < |s|
      ensures s[i].emi + s[i].extraPayment == s[i].totalPayment
      ensures s[i].closingBalance >= 0.0
    {
      assert IsRowFor(s[i], monthlyRate, emi, extra);
    }
  }

  /** Rows before the last are ordinary months that close above 1; a month
      whose payment covers the balance is paid off exactly (opening balance
      plus interest, closing at 0) and is always the last row. */
  lemma ClearingRowIsLast(s: seq<AmortizationRow>, principal: real, monthlyRate: real,
                          emi: real, extra: real, monthLimit: int)
    requires IsSchedulePrefix(s, principal, monthlyRate, emi, extra, monthLimit)
    ensures forall i :: 0 <= i < |s| - 1 ==>
      s[i].closingBalance > 1.0 &&
      !ClearsLoan(s[i].openingBalance, s[i].interestComponent, emi, extra)
    ensures forall i ::
      0 <= i < |s| && ClearsLoan(s[i].openingBalance, s[i].interestComponent, emi, extra) ==>
      && i == |s| - 1
      && s[i].principalComponent == s[i].openingBalance
      && s[i].totalPayment == s[i].openingBalance + s[i].interestComponent
      && s[i].closingBalance == 0.0
  {
    forall i | 0 <= i < |s| - 1
      ensures s[i].closingBalance > 1.0
      ensures !ClearsLoan(s[i].openingBalance, s[i].interestComponent, emi, extra)
    {
      assert s[i + 1].openingBalance == s[i].closingBalance;
      assert IsRowFor(s[i], monthlyRate, emi, extra);
    }
  }

  /** An ordinary month pays the installment and the extra payment in full
      and leaves a positive balance, since its payment did not cover the
      balance; a clearing month records at most the installment, a
      non-negative extra, and never more installment than it pays. */
  lemma RowsByKind(s: seq<AmortizationRow>, principal: real, monthlyRate: real,
                   emi: real, extra: real, monthLimit: int)
    requires IsSchedulePrefix(s, principal, monthlyRate, emi, extra, monthLimit)
    ensures forall i :: 0 <= i < |s| && !ClearsLoan(s[i].openingBalance, s[i].interestComponent, emi, extra) ==>
      && s[i].emi == emi
      && s[i].extraPayment == extra
      && s[i].closingBalance > 0.0
    ensures forall i :: 0 <= i < |s| && ClearsLoan(s[i].openingBalance, s[i].interestComponent, emi, extra) ==>
      && s[i].emi <= emi
      && s[i].emi <= s[i].totalPayment
      && s[i].extraPayment >= 0.0
  {
    forall i | 0 <= i < |s|
      ensures !ClearsLoan(s[i].openingBalance, s[i].interestComponent, emi, extra) ==>
        s[i].closingBalance > 0.0
    {
      assert IsRowFor(s[i], monthlyRate, emi, extra);
    }
  }

  /** With no scheduled tenure the installment is 0 and the schedule is
      empty: the loop guard month <= 2 * scheduledMonths fails at once. */
  lemma EmptyWithoutTenure(s: seq<AmortizationRow>, principal: real, annualRate: real,
                           scheduledMonths: int, extra: real)
    requires annualRate >= 0.0 && scheduledMonths <= 0
    requires IsSchedule(s, principal, annualRate, scheduledMonths, extra)
    ensures CalculateEMI(principal, annualRate, scheduledMonths) == 0.0
    ensures s == []
  {
    ScheduleLength(s, principal, MonthlyRate(annualRate),
                   CalculateEMI(principal, annualRate, scheduledMonths), extra, 2 * scheduledMonths);
  }

  /** The loop runs at most up to its month limit, emits nothing for a
      principal of at most 1, and emits at least one row otherwise (when the
      limit allows one). */
  lemma ScheduleLength(s: seq<AmortizationRow>, principal: real, monthlyRate: real,
                       emi: real, extra: real, monthLimit: int)
    requires IsCompleteSchedule(s, principal, monthlyRate, emi, extra, monthLimit)
    ensures |s| == 0 || |s| <= monthLimit
    ensures principal <= 1.0 || monthLimit <= 0 ==> |s| == 0
    ensures principal > 1.0 && monthLimit >= 1 ==> |s| >= 1
  {
    if |s| > 0 {
      assert s[|s| - 1].month == |s|;
      assert s[0].openingBalance > 1.0;
    }
  }

  // ---------------------------------------------------------------------
  // Balances follow the reducing-balance model

  /** Row i opens on the balance the reducing-balance model leaves after i
      months of paying the installment plus the extra payment. */
  lemma {:induction false} OpeningIsBalanceAfter(s: seq<AmortizationRow>, principal: real,
                                                 monthlyRate: real, emi: real, extra: real,
                                                 monthLimit: int, i: nat)
    requires IsSchedulePrefix(s, principal, monthlyRate, emi, extra, monthLimit)
    requires i < |s|
    ensures s[i].openingBalance == BalanceAfter(principal, monthlyRate, emi + extra, i)
  {
    if i > 0 {
      OpeningIsBalanceAfter(s, principal, monthlyRate, emi, extra, monthLimit, i - 1);
      assert s[i].openingBalance == s[i - 1].closingBalance;
      assert s[i - 1].closingBalance > 1.0 by {
        ClearingRowIsLast(s, principal, monthlyRate, emi, extra, monthLimit);
      }
      assert IsRowFor(s[i - 1], monthlyRate, emi, extra);
    }
  }

  /** What the rows leave owed is never below what the reducing-balance model
      leaves after as many months: equal after an ordinary last month, and the
      model is at or below 0 when the last month cleared the loan. */
  lemma ModelAtMostOutstanding(s: seq<AmortizationRow>, principal: real, monthlyRate: real,
                               emi: real, extra: real, monthLimit: int)
    requires IsSchedulePrefix(s, principal, monthlyRate, emi, extra, monthLimit)
    ensures BalanceAfter(principal, monthlyRate, emi + extra, |s|) <= Outstanding(s, principal)
  {
    if |s| > 0 {
      var k := |s| - 1;
      var row := s[k];
      assert BalanceAfter(principal, monthlyRate, emi + extra, k) == row.openingBalance
          && IsRowFor(row, monthlyRate, emi, extra) by {
        RowAt(s, principal, monthlyRate, emi, extra, monthLimit, k);
        OpeningIsBalanceAfter(s, principal, monthlyRate, emi, extra, monthLimit, k);
      }
      ModelMonth(principal, monthlyRate, emi, extra, k, row);
    }
  }

  /** One month: a row that opens on the reducing-balance model's balance
      closes on at least the model's next balance (equal for an ordinary
      month, at or above it for a clearing one). */
  lemma ModelMonth(principal: real, monthlyRate: real, emi: real, extra: real, k: nat, row: AmortizationRow)
    requires BalanceAfter(principal, monthlyRate, emi + extra, k) == row.openingBalance
    requires IsRowFor(row, monthlyRate, emi, extra)
    ensures BalanceAfter(principal, monthlyRate, emi + extra, k + 1) <= row.closingBalance
  {
  }

  /** Once the reducing-balance model owes at most 1, the loop has stopped:
      it never emits a row for a later month. */
  lemma StopsOnceModelPaid(s: seq<AmortizationRow>, principal: real, monthlyRate: real,
                           emi: real, extra: real, monthLimit: int, n: nat)
    requires IsSchedulePrefix(s, principal, monthlyRate, emi, extra, monthLimit)
    requires BalanceAfter(principal, monthlyRate, emi + extra, n) <= 1.0
    ensures |s| <= n
  {
    if |s| > n {
      OpeningIsBalanceAfter(s, principal, monthlyRate, emi, extra, monthLimit, n);
    }
  }

  /** With a non-negative extra payment the loan is never still running after
      its scheduled tenure, and what it leaves owed is between 0 and 1. */
  lemma ScheduleWithinTenure(s: seq<AmortizationRow>, principal: real, annualRate: real,
                             scheduledMonths: int, extra: real)
    requires annualRate >= 0.0 && extra >= 0.0
    requires IsSchedule(s, principal, annualRate, scheduledMonths, extra)
    ensures |s| == 0 || |s| <= scheduledMonths
    ensures |s| > 0 ==> 0.0 <= Outstanding(s, principal) <= 1.0
  {
    var r := MonthlyRate(annualRate);
    var emi := CalculateEMI(principal, annualRate, scheduledMonths);
    var limit := 2 * scheduledMonths;
    ScheduleLength(s, principal, r, emi, extra, limit);
    if |s| > 0 {
      var n := scheduledMonths;
      EmiRepaysLoan(principal, annualRate, n);
      BalanceAntitone(principal, r, emi, emi + extra, n);
      StopsOnceModelPaid(s, principal, r, emi, extra, limit, n);
      RowsReconcile(s, principal, r, emi, extra, limit);
      assert s[|s| - 1].closingBalance >= 0.0;
    }
  }

  /** The rows emitted so far are themselves a prefix of the loop's output. */
  lemma PrefixOfSchedule(s: seq<AmortizationRow>, principal: real, monthlyRate: real,
                         emi: real, extra: real, monthLimit: int, k: nat)
    requires IsSchedulePrefix(s, principal, monthlyRate, emi, extra, monthLimit)
    requires k <= |s|
    ensures IsSchedulePrefix(s[..k], principal, monthlyRate, emi, extra, monthLimit)
  {
  }

  /** The schedule is a function of the loan: two complete runs with the same
      inputs are the same rows, at any rate. */
  lemma ScheduleDetermined(s1: seq<AmortizationRow>, s2: seq<AmortizationRow>, principal: real,
                           monthlyRate: real, emi: real, extra: real, monthLimit: int)
    requires IsCompleteSchedule(s1, principal, monthlyRate, emi, extra, monthLimit)
    requires IsCompleteSchedule(s2, principal, monthlyRate, emi, extra, monthLimit)
    ensures s1 == s2
  {
    CompleteIsLongest(s1, s2, principal, monthlyRate, emi, extra, monthLimit);
    CompleteIsLongest(s2, s1, principal, monthlyRate, emi, extra, monthLimit);
    forall i | 0 <= i < |s1|
      ensures s1[i] == s2[i]
    {
      RowsAgree(s1, s2, principal, monthlyRate, emi, extra, monthLimit, i);
    }
  }

  /** Where two runs of the loop for the same loan both have a row, it is
      the same row. */
  lemma {:induction false} RowsAgree(s1: seq<AmortizationRow>, s2: seq<AmortizationRow>, principal: real,
                                     monthlyRate: real, emi: real, extra: real, monthLimit: int, i: nat)
    requires IsSchedulePrefix(s1, principal, monthlyRate, emi, extra, monthLimit)
    requires IsSchedulePrefix(s2, principal, monthlyRate, emi, extra, monthLimit)
    requires i < |s1| && i < |s2|
    ensures s1[i] == s2[i]
  {
    if i > 0 {
      RowsAgree(s1, s2, principal, monthlyRate, emi, extra, monthLimit, i - 1);
    }
    RowAt(s1, principal, monthlyRate, emi, extra, monthLimit, i);
    RowAt(s2, principal, monthlyRate, emi, extra, monthLimit, i);
    RowDetermined(s1[i], s2[i], monthlyRate, emi, extra);
  }

  /** A finished run is at least as long as anything the loop can have
      emitted for the same loan. */
  lemma CompleteIsLongest(s1: seq<AmortizationRow>, s2: seq<AmortizationRow>, principal: real,
                          monthlyRate: real, emi: real, extra: real, monthLimit: int)
    requires IsCompleteSchedule(s1, principal, monthlyRate, emi, extra, monthLimit)
    requires IsSchedulePrefix(s2, principal, monthlyRate, emi, extra, monthLimit)
    ensures |s2| <= |s1|
  {
    if |s1| < |s2| {
      RowAt(s2, principal, monthlyRate, emi, extra, monthLimit, |s1|);
      if |s1| > 0 {
        RowsAgree(s1, s2, principal, monthlyRate, emi, extra, monthLimit, |s1| - 1);
      }
      assert false;
    }
  }

  /** Row i of what the loop emitted, on its own. */
  lemma RowAt(s: seq<AmortizationRow>, principal: real, monthlyRate: real,
              emi: real, extra: real, monthLimit: int, i: nat)
    requires IsSchedulePrefix(s, principal, monthlyRate, emi, extra, monthLimit)
    requires i < |s|
    ensures s[i].month == i + 1 && s[i].openingBalance > 1.0
    ensures IsRowFor(s[i], monthlyRate, emi, extra)
    ensures s[i].interestComponent == s[i].openingBalance * monthlyRate
  {
  }

  /** A row is fixed by its month and its opening balance. */
  lemma RowDetermined(row1: AmortizationRow, row2: AmortizationRow, monthlyRate: real,
                      emi: real, extra: real)
    requires IsRowFor(row1, monthlyRate, emi, extra) && IsRowFor(row2, monthlyRate, emi, extra)
    requires row1.month == row2.month && row1.openingBalance == row2.openingBalance
    ensures row1 == row2
  {
    assert row1.interestComponent == row2.interestComponent;
    if ClearsLoan(row1.openingBalance, row1.interestComponent, emi, extra) {
      assert IsClearingRow(row1, emi) && IsClearingRow(row2, emi);
    } else {
      assert IsRegularRow(row1, emi, extra) && IsRegularRow(row2, emi, extra);
    }
  }

  // ---------------------------------------------------------------------
  // More extra payment

  /** A larger extra payment never makes the loan run longer. */
  lemma MoreExtraNeverLonger(s1: seq<AmortizationRow>, s2: seq<AmortizationRow>, principal: real,
                             monthlyRate: real, emi: real, extra1: real, extra2: real,
                             monthLimit: int)
    requires monthlyRate >= 0.0 && extra1 <= extra2
    requires IsCompleteSchedule(s1, principal, monthlyRate, emi, extra1, monthLimit)
    requires IsCompleteSchedule(s2, principal, monthlyRate, emi, extra2, monthLimit)
    ensures |s2| <= |s1|
  {
    ScheduleLength(s2, principal, monthlyRate, emi, extra2, monthLimit);
    if |s1| < monthLimit {
      ModelAtMostOutstanding(s1, principal, monthlyRate, emi, extra1, monthLimit);
      BalanceAntitone(principal, monthlyRate, emi + extra1, emi + extra2, |s1|);
      StopsOnceModelPaid(s2, principal, monthlyRate, emi, extra2, monthLimit, |s1|);
    }
  }

  /** A larger extra payment never makes the loan cost more interest. */
  lemma MoreExtraNeverMoreInterest(s1: seq<AmortizationRow>, s2: seq<AmortizationRow>,
                                   principal: real, monthlyRate: real, emi: real,
                                   extra1: real, extra2: real, monthLimit: int)
    requires monthlyRate >= 0.0 && extra1 <= extra2
    requires IsCompleteSchedule(s1, principal, monthlyRate, emi, extra1, monthLimit)
    requires IsCompleteSchedule(s2, principal, monthlyRate, emi, extra2, monthLimit)
    ensures SumInterest(s2) <= SumInterest(s1)
  {
    MoreExtraNeverLonger(s1, s2, principal, monthlyRate, emi, extra1, extra2, monthLimit);
    InterestFollowsModel(s1, principal, monthlyRate, emi, extra1, monthLimit);
    InterestFollowsModel(s2, principal, monthlyRate, emi, extra2, monthLimit);
    ModelInterestDominated(s1, s2, principal, monthlyRate, emi + extra1, emi + extra2);
  }

  /** Every row opens on the reducing-balance model's balance for its month
      (paying `payment` a month), that balance is above 1, and the row's
      interest is the rate applied to it. */
  ghost predicate FollowsModel(s: seq<AmortizationRow>, principal: real, monthlyRate: real, payment: real)
  {
    forall i :: 0 <= i < |s| ==>
      && s[i].openingBalance == BalanceAfter(principal, monthlyRate, payment, i)
      && s[i].openingBalance > 1.0
      && s[i].interestComponent == s[i].openingBalance * monthlyRate
  }

  /** Each month's interest is the rate applied to the reducing-balance
      model's balance, which is above 1 while the loop runs. */
  lemma InterestFollowsModel(s: seq<AmortizationRow>, principal: real, monthlyRate: real,
                             emi: real, extra: real, monthLimit: int)
    requires IsSchedulePrefix(s, principal, monthlyRate, emi, extra, monthLimit)
    ensures FollowsModel(s, principal, monthlyRate, emi + extra)
  {
    forall i | 0 <= i < |s|
      ensures s[i].openingBalance == BalanceAfter(principal, monthlyRate, emi + extra, i)
    {
      OpeningIsBalanceAfter(s, principal, monthlyRate, emi, extra, monthLimit, i);
    }
  }

  lemma ModelInterestDominated(s1: seq<AmortizationRow>, s2: seq<AmortizationRow>, principal: real,
                               monthlyRate: real, payment1: real, payment2: real)
    requires monthlyRate >= 0.0 && payment1 <= payment2 && |s2| <= |s1|
    requires FollowsModel(s1, principal, monthlyRate, payment1)
    requires FollowsModel(s2, principal, monthlyRate, payment2)
    ensures SumInterest(s2) <= SumInterest(s1)
  {
    forall i | 0 <= i < |s2|
      ensures s2[i].interestComponent <= s1[i].interestComponent
    {
      BalanceAntitone(principal, monthlyRate, payment1, payment2, i);
      InterestMonotone(s2[i], s1[i], monthlyRate);
    }
    forall i | |s2| <= i < |s1|
      ensures s1[i].interestComponent >= 0.0
    {
      InterestNonNegative(s1[i], monthlyRate);
    }
    SumInterestDominated(s2, s1);
  }

  /** Interest on a smaller opening balance is no larger. */
  lemma InterestMonotone(lower: AmortizationRow, higher: AmortizationRow, monthlyRate: real)
    requires monthlyRate >= 0.0 && lower.openingBalance <= higher.openingBalance
    requires lower.interestComponent == lower.openingBalance * monthlyRate
    requires higher.interestComponent == higher.openingBalance * monthlyRate
    ensures lower.interestComponent <= higher.interestComponent
  {
    assert (higher.openingBalance - lower.openingBalance) * monthlyRate >= 0.0;
  }

  lemma InterestNonNegative(row: AmortizationRow, monthlyRate: real)
    requires monthlyRate >= 0.0 && row.openingBalance >= 0.0
    requires row.interestComponent == row.openingBalance * monthlyRate
    ensures row.interestComponent >= 0.0
  {
  }

  // ---------------------------------------------------------------------
  // Totals over a schedule (the sums the caller shows)

  function SumInterest(s: seq<AmortizationRow>): real
  {
    if s == [] then 0.0 else SumInterest(s[..|s| - 1]) + s[|s| - 1].interestComponent
  }

  function SumPrincipal(s: seq<AmortizationRow>): real
  {
    if s == [] then 0.0 else SumPrincipal(s[..|s| - 1]) + s[|s| - 1].principalComponent
  }

  function SumPayment(s: seq<AmortizationRow>): real
  {
    if s == [] then 0.0 else SumPayment(s[..|s| - 1]) + s[|s| - 1].totalPayment
  }

  /** Row by row no smaller interest, and only non-negative interest in the
      extra rows, give no smaller total interest. */
  lemma {:induction false} SumInterestDominated(a: seq<AmortizationRow>, b: seq<AmortizationRow>)
    requires |a| <= |b|
    requires forall i :: 0 <= i < |a| ==> a[i].interestComponent <= b[i].interestComponent
    requires forall i :: |a| <= i < |b| ==> b[i].interestComponent >= 0.0
    ensures SumInterest(a) <= SumInterest(b)
    decreases |b|
  {
    if |b| > 0 {
      var b' := b[..|b| - 1];
      if |a| == |b| {
        SumInterestDominated(a[..|a| - 1], b');
      } else {
        SumInterestDominated(a, b');
      }
    }
  }

  /** Over the whole schedule, interest plus principal is everything paid,
      and the principal repaid is the loan less what is still owed. */
  lemma {:induction false} TotalsReconcile(s: seq<AmortizationRow>, principal: real,
                                           monthlyRate: real, emi: real, extra: real,
                                           monthLimit: int)
    requires IsSchedulePrefix(s, principal, monthlyRate, emi, extra, monthLimit)
    ensures SumInterest(s) + SumPrincipal(s) == SumPayment(s)
    ensures SumPrincipal(s) == principal - Outstanding(s, principal)
    decreases |s|
  {
    if |s| > 0 {
      var k := |s| - 1;
      PrefixOfSchedule(s, principal, monthlyRate, emi, extra, monthLimit, k);
      TotalsReconcile(s[..k], principal, monthlyRate, emi, extra, monthLimit);
      RowsReconcile(s, principal, monthlyRate, emi, extra, monthLimit);
      assert Outstanding(s[..k], principal) == s[k].openingBalance;
    }
  }
}
