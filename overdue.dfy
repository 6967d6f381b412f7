/** is_loan_overdue (models.py:645-666) on a loan row as the loans page reads it.

    datetime.fromisoformat is a parameter `parse`: it either fails (ValueError)
    or yields a naive timestamp or one with a UTC offset. `now` is the naive
    datetime.utcnow() of the caller; comparing an offset-carrying timestamp with
    it raises TypeError, which the function also answers with false. */
module Overdue {
  import opened Common
  import opened Schema

  /** The two keys the function reads; None when the key is absent or NULL. */
  datatype LoanRow = LoanRow(status: Option<string>, dueDate: Option<string>)

  datatype Stamp = Naive(at: Instant) | Aware(at: Instant)

  /** A date-only string (ten characters, no 'T') is read as the end of that day. */
  function Normalised(due: string): string {
    if |due| == 10 && 'T' !in due then due + "T23:59:59" else due
  }

  predicate IsLoanOverdue(row: LoanRow, now: Instant, parse: string -> Option<Stamp>) {
    if row.status != Some("active") || row.dueDate.None? || row.dueDate.value == "" then false
    else
      match parse(Normalised(row.dueDate.value))
      case None => false
      case Some(Aware(_)) => false
      case Some(Naive(due)) => due < now
  }

  /** Only an active loan with a due date set can be overdue. */
  lemma OnlyActiveLoansAreOverdue(row: LoanRow, now: Instant, parse: string -> Option<Stamp>)
    requires IsLoanOverdue(row, now, parse)
    ensures row.status == Some("active")
    ensures row.dueDate.Some? && row.dueDate.value != ""
    ensures parse(Normalised(row.dueDate.value)).Some? && parse(Normalised(row.dueDate.value)).value.Naive?
    ensures parse(Normalised(row.dueDate.value)).value.at < now
  {
  }

  /** Once overdue, a loan stays overdue as the clock moves on. */
  lemma OverdueIsMonotone(row: LoanRow, now: Instant, later: Instant, parse: string -> Option<Stamp>)
    requires now <= later
    ensures IsLoanOverdue(row, now, parse) ==> IsLoanOverdue(row, later, parse)
  {
  }

  /** A date-only due date counts from the last second of that day: the loan is
      overdue exactly when that moment is already in the past. */
  lemma DateOnlyMeansEndOfDay(day: string, now: Instant, parse: string -> Option<Stamp>)
    requires |day| == 10 && 'T' !in day
    ensures IsLoanOverdue(LoanRow(Some("active"), Some(day)), now, parse) <==>
      exists t :: parse(day + "T23:59:59") == Some(Naive(t)) && t < now
  {
    if IsLoanOverdue(LoanRow(Some("active"), Some(day)), now, parse) {
      var t := parse(day + "T23:59:59").value.at;
      assert parse(day + "T23:59:59") == Some(Naive(t));
    }
  }

  /** A full timestamp is used as written. */
  lemma TimestampUsedAsWritten(due: string, now: Instant, parse: string -> Option<Stamp>)
    requires due != "" && (|due| != 10 || 'T' in due)
    ensures IsLoanOverdue(LoanRow(Some("active"), Some(due)), now, parse) <==>
      exists t :: parse(due) == Some(Naive(t)) && t < now
  {
    if IsLoanOverdue(LoanRow(Some("active"), Some(due)), now, parse) {
      var t := parse(due).value.at;
      assert parse(due) == Some(Naive(t));
    }
  }

  function StatusText(s: Status): string {
    match s
    case Active => "active"
    case Returned => "returned"
  }

  /** The row the loans page builds from a stored loan, with `format` standing for
      datetime.isoformat. */
  function RowOf(loan: Loan, format: Instant -> string): LoanRow {
    LoanRow(Some(StatusText(loan.status)), Some(format(loan.dueDate)))
  }

  /** For a due date written by add_loan (isoformat always puts a 'T' between the
      date and the time, and fromisoformat reads it back), a loan is overdue
      exactly when it is still active and its due instant has passed. */
  lemma StoredLoanOverdue(loan: Loan, now: Instant, format: Instant -> string, parse: string -> Option<Stamp>)
    requires 'T' in format(loan.dueDate)
    requires parse(format(loan.dueDate)) == Some(Naive(loan.dueDate))
    ensures IsLoanOverdue(RowOf(loan, format), now, parse) <==> loan.status == Active && loan.dueDate < now
  {
    assert format(loan.dueDate) != "";
    assert StatusText(Returned) != "active";
  }
}
