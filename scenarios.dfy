/** End-to-end runs of the store and the routes on a freshly initialised database. */
module Scenarios {
  import opened Common
  import opened Schema
  import opened Operations
  import Overdue
  import Routes

  // The states the borrower flow of tests/test_borrower_flow.py passes through.

  const TestBorrower := Borrower("Test User", Some("test@example.com"), Some("123456"))
  const TestBook := Book("Test Book", Some("ISBN-TEST"), None, Some("Author"), Some("Publisher"), 1, 1)

  function AfterBorrower(): Db {
    Empty.(borrowers := map[1 := TestBorrower], nextBorrower := 2)
  }

  function AfterBook(): Db {
    AfterBorrower().(books := map[1 := TestBook], nextBook := 2)
  }

  function AfterLoan(loanNow: Instant, dueNow: Instant): Db {
    AfterBook().(loans := map[1 := Loan(1, 1, loanNow, dueNow + LoanPeriod, None, Active)], nextLoan := 2,
                 books := map[1 := TestBook.(available := 0)])
  }

  function AfterReturn(loanNow: Instant, dueNow: Instant, returnNow: Instant): Db {
    AfterLoan(loanNow, dueNow).(
      loans := map[1 := Loan(1, 1, loanNow, dueNow + LoanPeriod, Some(returnNow), Returned)],
      books := map[1 := TestBook])
  }

  /** The borrower flow: one borrower, one book with one copy, a loan and its
      return. While the loan is active the delete is refused by the foreign key;
      after the return the borrower has no active loan but still a loan history,
      so the store and the delete route both still refuse to delete them (the
      test's last step expects the opposite). */
  lemma BorrowerFlow(loanNow: Instant, dueNow: Instant, returnNow: Instant)
    ensures AddBorrower(Empty, Some("Test User"), Some("test@example.com"), Some("123456")) == Ok((AfterBorrower(), 1))
    ensures AddBook(AfterBorrower(), Some("Test Book"), Some("ISBN-TEST"), None, Some("Author"), Some("Publisher"), 1)
            == Ok((AfterBook(), 1))
    ensures AddLoan(AfterBook(), 1, 1, loanNow, dueNow) == Ok((AfterLoan(loanNow, dueNow), 1))
    ensures AfterLoan(loanNow, dueNow).books[1].available == 0
    ensures ActiveLoansCountForBorrower(AfterLoan(loanNow, dueNow).loans, 1) == 1
    ensures DeleteBorrower(AfterLoan(loanNow, dueNow), 1) == Err(IntegrityError)
    ensures ReturnLoan(AfterLoan(loanNow, dueNow), 1, returnNow) == Ok(AfterReturn(loanNow, dueNow, returnNow))
    ensures AfterReturn(loanNow, dueNow, returnNow).books[1].available == 1
    ensures ActiveLoansCountForBorrower(AfterReturn(loanNow, dueNow, returnNow).loans, 1) == 0
    ensures DeleteBorrower(AfterReturn(loanNow, dueNow, returnNow), 1) == Err(IntegrityError)
    ensures Routes.DeleteBorrowerRoute(AfterReturn(loanNow, dueNow, returnNow), 1) ==
            Routes.Response(Routes.Refused(Routes.HasLoanHistory), AfterReturn(loanNow, dueNow, returnNow))
    ensures Balanced(AfterReturn(loanNow, dueNow, returnNow))
  {
    var loan := Loan(1, 1, loanNow, dueNow + LoanPeriod, None, Active);
    assert AfterBook().books[1 := TestBook.(available := 0)] == map[1 := TestBook.(available := 0)];
    assert AfterBook().loans[1 := loan] == map[1 := loan];
    assert AfterLoan(loanNow, dueNow).books[1 := TestBook] == map[1 := TestBook];
    assert map[1 := loan][1 := loan.(status := Returned, returnDate := Some(returnNow))]
        == map[1 := loan.(status := Returned, returnDate := Some(returnNow))];
    var loans3 := AfterLoan(loanNow, dueNow).loans;
    var loans4 := AfterReturn(loanNow, dueNow, returnNow).loans;
    assert LoanIds(loans3, ActiveOfBorrower(1)) == {1};
    assert LoanIds(loans3, ActiveOfBook(1)) == {1};
    assert LoanIds(loans4, ActiveOfBook(1)) == {};
    assert LoanIds(loans4, ActiveOfBorrower(1)) == {};
    assert LoanIds(loans4, OfBorrower(1)) == {1};
    var db4 := AfterReturn(loanNow, dueNow, returnNow);
    assert BookBalanced(db4, 1);
  }

  /** A loan just made by the loan route is overdue on the loans page exactly when
      the fourteen-day period after the second clock reading has passed, given that
      isoformat writes a 'T' and fromisoformat reads the instant back. */
  lemma NewLoanOverdue(db: Db, book: Routes.Field, borrower: Routes.Field, loanNow: Instant, dueNow: Instant,
                       now: Instant, format: Instant -> string, parse: string -> Option<Overdue.Stamp>)
    requires WellFormed(db)
    requires Routes.AddLoanRoute(db, book, borrower, loanNow, dueNow).outcome == Routes.Success
    requires 'T' in format(dueNow + LoanPeriod)
    requires parse(format(dueNow + LoanPeriod)) == Some(Overdue.Naive(dueNow + LoanPeriod))
    ensures db.nextLoan in Routes.AddLoanRoute(db, book, borrower, loanNow, dueNow).db.loans
    ensures var loan := Routes.AddLoanRoute(db, book, borrower, loanNow, dueNow).db.loans[db.nextLoan];
      Overdue.IsLoanOverdue(Overdue.RowOf(loan, format), now, parse) <==> now > dueNow + 14 * SecondsPerDay
  {
    Routes.AddLoanRouteGuards(db, book, borrower, loanNow, dueNow);
    var loan := Routes.AddLoanRoute(db, book, borrower, loanNow, dueNow).db.loans[db.nextLoan];
    Overdue.StoredLoanOverdue(loan, now, format, parse);
  }
}
