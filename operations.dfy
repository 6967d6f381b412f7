/** The store's write operations (models.py:125-139, 226-336, 402-451, 496-531,
    597-643) as transitions on a Db value, with the accounting facts they keep.

    Each function describes one call that is not interrupted by lock contention:
    either sqlite rejects a statement with an IntegrityError (a UNIQUE, NOT NULL
    or foreign-key violation) and the uncommitted transaction leaves the store as
    it was, or every statement runs and the new state is returned. */
module Operations {
  import opened Common
  import opened Schema

  // ---------------------------------------------------------------------------
  // Constraint checks

  /** Another book than `id` already holds this (non-NULL) ISBN. */
  predicate IsbnClash(books: map<int, Book>, isbn: Option<string>, id: int) {
    isbn.Some? && exists o :: o in books && o != id && books[o].isbn == isbn
  }

  /** Another borrower than `id` already holds this (non-NULL) email. */
  predicate EmailClash(borrowers: map<int, Borrower>, email: Option<string>, id: int) {
    email.Some? && exists o :: o in borrowers && o != id && borrowers[o].email == email
  }

  /** The category_id foreign key fails: a non-NULL id with no categories row. */
  predicate CategoryMissing(db: Db, categoryId: Option<int>) {
    categoryId.Some? && categoryId.value !in db.categories
  }

  // ---------------------------------------------------------------------------
  // Books

  /** add_book: insert one row with available = quantity; the new id is returned. */
  function AddBook(db: Db, title: Option<string>, isbn: Option<string>, categoryId: Option<int>,
                   authorName: Option<string>, publisherName: Option<string>, quantity: int): Result<(Db, int)>
  {
    if title.None? || IsbnClash(db.books, isbn, db.nextBook) || CategoryMissing(db, categoryId) then
      Err(IntegrityError)
    else
      var id := db.nextBook;
      var book := Book(title.value, isbn, categoryId, authorName, publisherName, quantity, quantity);
      Ok((db.(books := db.books[id := book], nextBook := id + 1), id))
  }

  /** update_book: count the book's active loans, rewrite every column with
      available = quantity - activeLoans, and return the count. An id with no row
      makes the UPDATE match nothing: no error, nothing written. */
  function UpdateBook(db: Db, id: int, title: Option<string>, isbn: Option<string>, categoryId: Option<int>,
                      authorName: Option<string>, publisherName: Option<string>, quantity: int): Result<(Db, nat)>
  {
    var active := ActiveLoansCountForBook(db.loans, id);
    if id !in db.books then
      Ok((db, active))
    else if title.None? || IsbnClash(db.books, isbn, id) || CategoryMissing(db, categoryId) then
      Err(IntegrityError)
    else
      var book := Book(title.value, isbn, categoryId, authorName, publisherName, quantity, quantity - active);
      Ok((db.(books := db.books[id := book]), active))
  }

  /** delete_book: the loans foreign key refuses the delete while any loan row names the book. */
  function DeleteBook(db: Db, id: int): Result<Db> {
    if exists l :: l in db.loans && db.loans[l].bookId == id then Err(IntegrityError)
    else Ok(db.(books := db.books - {id}))
  }

  // ---------------------------------------------------------------------------
  // Borrowers

  function AddBorrower(db: Db, name: Option<string>, email: Option<string>, phone: Option<string>): Result<(Db, int)> {
    if name.None? || EmailClash(db.borrowers, email, db.nextBorrower) then Err(IntegrityError)
    else
      var id := db.nextBorrower;
      Ok((db.(borrowers := db.borrowers[id := Borrower(name.value, email, phone)], nextBorrower := id + 1), id))
  }

  /** update_borrower; like update_book, an unknown id is a silent no-op. */
  function UpdateBorrower(db: Db, id: int, name: Option<string>, email: Option<string>, phone: Option<string>): Result<Db> {
    if id !in db.borrowers then Ok(db)
    else if name.None? || EmailClash(db.borrowers, email, id) then Err(IntegrityError)
    else Ok(db.(borrowers := db.borrowers[id := Borrower(name.value, email, phone)]))
  }

  /** delete_borrower: refused by the foreign key while any loan, of any status, names the borrower. */
  function DeleteBorrower(db: Db, id: int): Result<Db> {
    if exists l :: l in db.loans && db.loans[l].borrowerId == id then Err(IntegrityError)
    else Ok(db.(borrowers := db.borrowers - {id}))
  }

  // ---------------------------------------------------------------------------
  // Loans

  /** add_loan: insert an active loan dated `loanNow`, due 14 days after `dueNow`
      (the two utcnow() readings), then take one copy off the shelf without
      looking at how many are left. Returns the new loan's id. */
  function AddLoan(db: Db, bookId: int, borrowerId: int, loanNow: Instant, dueNow: Instant): Result<(Db, int)> {
    if bookId !in db.books || borrowerId !in db.borrowers then Err(IntegrityError)
    else
      var id := db.nextLoan;
      var loan := Loan(bookId, borrowerId, loanNow, dueNow + LoanPeriod, None, Active);
      var book := db.books[bookId];
      Ok((db.(loans := db.loans[id := loan], nextLoan := id + 1,
              books := db.books[bookId := book.(available := book.available - 1)]), id))
  }

  /** return_loan: an unknown id makes fetchone() return None, and subscripting it
      raises TypeError before anything is written. Otherwise the loan is marked
      returned at `now` and one copy goes back on the shelf, whatever the loan's
      status was. */
  function ReturnLoan(db: Db, loanId: int, now: Instant): Result<Db> {
    if loanId !in db.loans then Err(TypeError)
    else
      var loan := db.loans[loanId];
      var loans' := db.loans[loanId := loan.(status := Returned, returnDate := Some(now))];
      var books' :=
        if loan.bookId in db.books then
          db.books[loan.bookId := db.books[loan.bookId].(available := db.books[loan.bookId].available + 1)]
        else db.books;
      Ok(db.(loans := loans', books := books'))
  }

  // ---------------------------------------------------------------------------
  // Categories, authors, publishers

  /** delete_category: refused by the books foreign key while a book names the category. */
  function DeleteCategory(db: Db, id: int): Result<Db> {
    if exists b :: b in db.books && db.books[b].categoryId == Some(id) then Err(IntegrityError)
    else Ok(db.(categories := db.categories - {id}))
  }

  /** delete_author: books name authors as free text, so nothing can refuse it. */
  function DeleteAuthor(db: Db, id: int): Db {
    db.(authors := db.authors - {id})
  }

  function DeletePublisher(db: Db, id: int): Db {
    db.(publishers := db.publishers - {id})
  }

  const DefaultCategories: seq<string> := ["Fiction", "Non-Fiction", "Science", "History", "Biography"]

  /** One INSERT INTO categories per name, in order, at the next ids. */
  function InsertCategories(db: Db, names: seq<string>): Db
    decreases |names|
  {
    if names == [] then db
    else
      var before := InsertCategories(db, names[..|names| - 1]);
      before.(categories := before.categories[before.nextCategory := Category(names[|names| - 1])],
              nextCategory := before.nextCategory + 1)
  }

  /** One more name inserts it after the ones before. */
  lemma InsertOneMore(db: Db, names: seq<string>, i: int)
    requires 0 <= i < |names|
    ensures var before := InsertCategories(db, names[..i]);
      InsertCategories(db, names[..i + 1]) ==
        before.(categories := before.categories[before.nextCategory := Category(names[i])],
                nextCategory := before.nextCategory + 1)
  {
    assert names[..i + 1][..i] == names[..i];
  }

  /** seed_default_categories: the five default names, only into an empty table. */
  function SeedDefaultCategories(db: Db): Db {
    if |db.categories| == 0 then InsertCategories(db, DefaultCategories) else db
  }

  // ---------------------------------------------------------------------------
  // Accounting

  /** A book's balance depends on the books and loans tables only. */
  lemma BalanceOnlyReadsBooksAndLoans(db: Db, db': Db)
    requires db'.books == db.books && db'.loans == db.loans
    ensures Balanced(db') <==> Balanced(db)
  {
    forall b | b in db.books ensures BookBalanced(db', b) <==> BookBalanced(db, b) {
    }
  }

  /** The active-loan count of one book after one loan row is written. */
  lemma ActiveCountAfterWrite(loans: map<int, Loan>, id: int, loan: Loan, b: int)
    ensures ActiveLoansCountForBook(loans[id := loan], b) ==
      ActiveLoansCountForBook(loans, b)
      - (if id in loans && loans[id].bookId == b && loans[id].status == Active then 1 else 0)
      + (if loan.bookId == b && loan.status == Active then 1 else 0)
  {
    LoanCountAfterWrite(loans, id, loan, ActiveOfBook(b));
  }

  /** Rewriting one loan row and one book row keeps every other book's balance. */
  lemma OthersStayBalanced(db: Db, db': Db, bookId: int, loanId: int)
    requires Balanced(db)
    requires db'.books.Keys == db.books.Keys
    requires forall b :: b in db.books && b != bookId ==> db'.books[b] == db.books[b]
    requires loanId in db'.loans && db'.loans == db.loans[loanId := db'.loans[loanId]]
    requires loanId in db.loans ==> db.loans[loanId].bookId == bookId
    requires db'.loans[loanId].bookId == bookId
    ensures forall b :: b in db'.books && b != bookId ==> BookBalanced(db', b)
  {
    forall b | b in db'.books && b != bookId ensures BookBalanced(db', b) {
      ActiveCountAfterWrite(db.loans, loanId, db'.loans[loanId], b);
      assert BookBalanced(db, b);
    }
  }

  /** add_book fails exactly on a NULL title, a taken ISBN or an unknown category. */
  lemma AddBookRefused(db: Db, title: Option<string>, isbn: Option<string>, categoryId: Option<int>,
                       authorName: Option<string>, publisherName: Option<string>, quantity: int)
    requires WellFormed(db)
    ensures AddBook(db, title, isbn, categoryId, authorName, publisherName, quantity).Err? <==>
      title.None? || CategoryMissing(db, categoryId)
      || (isbn.Some? && exists o :: o in db.books && db.books[o].isbn == isbn)
  {
    if isbn.Some? && exists o :: o in db.books && db.books[o].isbn == isbn {
      var o :| o in db.books && db.books[o].isbn == isbn;
      assert o != db.nextBook;
    }
  }

  /** add_book stores a new book with available == quantity and no loans against
      it, leaves every other row alone and keeps both invariants. */
  lemma AddBookAccounting(db: Db, title: Option<string>, isbn: Option<string>, categoryId: Option<int>,
                          authorName: Option<string>, publisherName: Option<string>, quantity: int)
    requires WellFormed(db)
    requires AddBook(db, title, isbn, categoryId, authorName, publisherName, quantity).Ok?
    ensures var (db', id) := AddBook(db, title, isbn, categoryId, authorName, publisherName, quantity).value;
      && id !in db.books
      && db'.books == db.books[id := db'.books[id]]
      && db'.books[id].quantity == quantity && db'.books[id].available == quantity
      && ActiveLoansCountForBook(db'.loans, id) == 0
      && db'.loans == db.loans
      && WellFormed(db')
      && (Balanced(db) ==> Balanced(db'))
  {
    var (db', id) := AddBook(db, title, isbn, categoryId, authorName, publisherName, quantity).value;
    assert forall l :: l in db.loans ==> db.loans[l].bookId != id;
    if Balanced(db) {
      forall b | b in db'.books ensures BookBalanced(db', b) {
        if b != id { assert BookBalanced(db, b); }
      }
    }
  }

  /** add_loan fails exactly when the book or the borrower does not exist. */
  lemma AddLoanRefused(db: Db, bookId: int, borrowerId: int, loanNow: Instant, dueNow: Instant)
    ensures AddLoan(db, bookId, borrowerId, loanNow, dueNow).Err? <==>
      bookId !in db.books || borrowerId !in db.borrowers
    ensures AddLoan(db, bookId, borrowerId, loanNow, dueNow).Err? ==>
      AddLoan(db, bookId, borrowerId, loanNow, dueNow).failure == IntegrityError
  {
  }

  /** add_loan inserts an active loan due LoanPeriod after the second clock reading
      and takes exactly one copy off the shelf, even when none is left. */
  lemma AddLoanAccounting(db: Db, bookId: int, borrowerId: int, loanNow: Instant, dueNow: Instant)
    requires WellFormed(db) && bookId in db.books && borrowerId in db.borrowers
    ensures var (db', id) := AddLoan(db, bookId, borrowerId, loanNow, dueNow).value;
      && id !in db.loans
      && db'.loans == db.loans[id := Loan(bookId, borrowerId, loanNow, dueNow + LoanPeriod, None, Active)]
      && db'.loans[id].dueDate - db'.loans[id].loanDate == LoanPeriod + (dueNow - loanNow)
      && db'.books.Keys == db.books.Keys
      && db'.books[bookId] == db.books[bookId].(available := db.books[bookId].available - 1)
      && (forall b :: b in db.books && b != bookId ==> db'.books[b] == db.books[b])
      && ActiveLoansCountForBook(db'.loans, bookId) == ActiveLoansCountForBook(db.loans, bookId) + 1
  {
    var (db', id) := AddLoan(db, bookId, borrowerId, loanNow, dueNow).value;
    ActiveCountAfterWrite(db.loans, id, db'.loans[id], bookId);
  }

  /** Changing only the stock figures of existing books keeps well-formedness. */
  lemma StockChangeKeepsWellFormed(db: Db, db': Db)
    requires WellFormed(db)
    requires db' == db.(books := db'.books)
    requires db'.books.Keys == db.books.Keys
    requires forall b :: b in db.books ==>
      db'.books[b].isbn == db.books[b].isbn && db'.books[b].categoryId == db.books[b].categoryId
    ensures WellFormed(db')
  {
    forall a, b | a in db'.books && b in db'.books && a != b && db'.books[a].isbn.Some?
      ensures db'.books[a].isbn != db'.books[b].isbn
    {
      assert db.books[a].isbn != db.books[b].isbn;
    }
  }

  /** add_loan keeps both invariants: the copy it takes is the loan it records. */
  lemma AddLoanKeepsInvariants(db: Db, bookId: int, borrowerId: int, loanNow: Instant, dueNow: Instant)
    requires WellFormed(db) && bookId in db.books && borrowerId in db.borrowers
    ensures WellFormed(AddLoan(db, bookId, borrowerId, loanNow, dueNow).value.0)
    ensures Balanced(db) ==> Balanced(AddLoan(db, bookId, borrowerId, loanNow, dueNow).value.0)
  {
    var (db', id) := AddLoan(db, bookId, borrowerId, loanNow, dueNow).value;
    AddLoanAccounting(db, bookId, borrowerId, loanNow, dueNow);
    var mid := db.(loans := db'.loans, nextLoan := db'.nextLoan);
    assert WellFormed(mid);
    StockChangeKeepsWellFormed(mid, db');
    if Balanced(db) {
      OthersStayBalanced(db, db', bookId, id);
      assert BookBalanced(db, bookId);
      assert BookBalanced(db', bookId);
    }
  }

  /** return_loan marks the loan returned at `now` and puts one copy back, whatever
      the loan's status was; an unknown id fails with TypeError. */
  lemma ReturnLoanAccounting(db: Db, loanId: int, now: Instant)
    requires WellFormed(db)
    ensures loanId !in db.loans ==> ReturnLoan(db, loanId, now) == Err(TypeError)
    ensures loanId in db.loans ==>
      var loan := db.loans[loanId];
      var r := ReturnLoan(db, loanId, now);
      && r.Ok?
      && r.value.loans == db.loans[loanId := loan.(status := Returned, returnDate := Some(now))]
      && r.value.books.Keys == db.books.Keys
      && r.value.books[loan.bookId] == db.books[loan.bookId].(available := db.books[loan.bookId].available + 1)
      && (forall b :: b in db.books && b != loan.bookId ==> r.value.books[b] == db.books[b])
      && WellFormed(r.value)
  {
  }

  /** Returning an active loan keeps every balance. */
  lemma ReturnActiveLoanBalanced(db: Db, loanId: int, now: Instant)
    requires WellFormed(db) && Balanced(db)
    requires loanId in db.loans && db.loans[loanId].status == Active
    ensures ActiveLoansCountForBook(ReturnLoan(db, loanId, now).value.loans, db.loans[loanId].bookId)
         == ActiveLoansCountForBook(db.loans, db.loans[loanId].bookId) - 1
    ensures Balanced(ReturnLoan(db, loanId, now).value)
  {
    var b := db.loans[loanId].bookId;
    var db' := ReturnLoan(db, loanId, now).value;
    ReturnLoanAccounting(db, loanId, now);
    ActiveCountAfterWrite(db.loans, loanId, db'.loans[loanId], b);
    OthersStayBalanced(db, db', b, loanId);
    assert BookBalanced(db, b);
    assert BookBalanced(db', b);
  }

  /** return_loan keeps well-formedness, and keeps the balance when the loan was active. */
  lemma ReturnLoanKeepsInvariants(db: Db, loanId: int, now: Instant)
    requires WellFormed(db) && loanId in db.loans
    ensures WellFormed(ReturnLoan(db, loanId, now).value)
    ensures Balanced(db) && db.loans[loanId].status == Active ==> Balanced(ReturnLoan(db, loanId, now).value)
  {
    ReturnLoanAccounting(db, loanId, now);
    if Balanced(db) && db.loans[loanId].status == Active {
      ReturnActiveLoanBalanced(db, loanId, now);
    }
  }

  /** Returning a loan already returned adds a copy that no loan accounts for, so
      that book is no longer balanced. */
  lemma ReturnReturnedLoanUnbalances(db: Db, loanId: int, now: Instant)
    requires WellFormed(db)
    requires loanId in db.loans && db.loans[loanId].status == Returned
    requires BookBalanced(db, db.loans[loanId].bookId)
    ensures ActiveLoansCountForBook(ReturnLoan(db, loanId, now).value.loans, db.loans[loanId].bookId)
         == ActiveLoansCountForBook(db.loans, db.loans[loanId].bookId)
    ensures !BookBalanced(ReturnLoan(db, loanId, now).value, db.loans[loanId].bookId)
  {
    var b := db.loans[loanId].bookId;
    var db' := ReturnLoan(db, loanId, now).value;
    ReturnLoanAccounting(db, loanId, now);
    ActiveCountAfterWrite(db.loans, loanId, db'.loans[loanId], b);
  }

  /** Returning the same active loan twice puts two copies back while only one
      loan stops being active, so the book ends one copy over its balance. */
  lemma DoubleReturn(db: Db, loanId: int, first: Instant, second: Instant)
    requires WellFormed(db) && Balanced(db)
    requires loanId in db.loans && db.loans[loanId].status == Active
    ensures var b := db.loans[loanId].bookId;
      var db2 := ReturnLoan(ReturnLoan(db, loanId, first).value, loanId, second).value;
      && db2.books[b].available == db.books[b].available + 2
      && ActiveLoansCountForBook(db2.loans, b) == ActiveLoansCountForBook(db.loans, b) - 1
      && !Balanced(db2)
  {
    var b := db.loans[loanId].bookId;
    ReturnLoanAccounting(db, loanId, first);
    ReturnActiveLoanBalanced(db, loanId, first);
    var db1 := ReturnLoan(db, loanId, first).value;
    ReturnLoanAccounting(db1, loanId, second);
    assert BookBalanced(db1, b);
    ReturnReturnedLoanUnbalances(db1, loanId, second);
  }

  /** update_book on an unknown id writes nothing and reports no active loans. */
  lemma UpdateMissingBook(db: Db, id: int, title: Option<string>, isbn: Option<string>, categoryId: Option<int>,
                          authorName: Option<string>, publisherName: Option<string>, quantity: int)
    requires WellFormed(db) && id !in db.books
    ensures UpdateBook(db, id, title, isbn, categoryId, authorName, publisherName, quantity) == Ok((db, 0))
  {
    assert forall l :: l in db.loans ==> db.loans[l].bookId != id;
  }

  /** update_book returns the book's active-loan count and rebalances that book
      whatever quantity it is given; a quantity below the count is still written
      and leaves a negative availability. Every other book is untouched. */
  lemma UpdateBookAccounting(db: Db, id: int, title: Option<string>, isbn: Option<string>, categoryId: Option<int>,
                             authorName: Option<string>, publisherName: Option<string>, quantity: int)
    requires WellFormed(db) && id in db.books
    ensures var r := UpdateBook(db, id, title, isbn, categoryId, authorName, publisherName, quantity);
      && (r.Err? <==> title.None? || IsbnClash(db.books, isbn, id) || CategoryMissing(db, categoryId))
      && (r.Ok? ==>
            var (db', n) := r.value;
            && n == ActiveLoansCountForBook(db.loans, id)
            && db'.books.Keys == db.books.Keys
            && db'.books[id].quantity == quantity
            && db'.books[id].available == quantity - n
            && BookBalanced(db', id)
            && (quantity < n ==> db'.books[id].available < 0)
            && (forall b :: b in db.books && b != id ==> db'.books[b] == db.books[b])
            && db'.loans == db.loans
            && WellFormed(db')
            && ((forall b :: b in db.books && b != id ==> BookBalanced(db, b)) ==> Balanced(db')))
  {
    var r := UpdateBook(db, id, title, isbn, categoryId, authorName, publisherName, quantity);
    if r.Ok? {
      var n := ActiveLoansCountForBook(db.loans, id);
      var book := Book(title.value, isbn, categoryId, authorName, publisherName, quantity, quantity - n);
      var db' := db.(books := db.books[id := book]);
      assert r.value == (db', n);
      RewriteBookKeepsWellFormed(db, id, book);
      if forall b :: b in db.books && b != id ==> BookBalanced(db, b) {
        forall b | b in db'.books ensures BookBalanced(db', b) {
          if b != id { assert BookBalanced(db, b); }
        }
      }
    }
  }

  /** Rewriting an existing book with a free ISBN and a stored (or no) category
      keeps well-formedness. */
  lemma RewriteBookKeepsWellFormed(db: Db, id: int, book: Book)
    requires WellFormed(db) && id in db.books
    requires !IsbnClash(db.books, book.isbn, id) && !CategoryMissing(db, book.categoryId)
    ensures WellFormed(db.(books := db.books[id := book]))
  {
    var books' := db.books[id := book];
    forall a, b | a in books' && b in books' && a != b && books'[a].isbn.Some?
      ensures books'[a].isbn != books'[b].isbn
    {
      if a == id {
        assert books'[b] == db.books[b];
      } else if b == id {
        assert books'[a] == db.books[a];
      } else {
        assert db.books[a].isbn != db.books[b].isbn;
      }
    }
  }

  /** delete_book succeeds exactly when the book has no loan of any status; it then
      removes only that row and keeps both invariants. */
  lemma DeleteBookGuarded(db: Db, id: int)
    requires WellFormed(db)
    ensures DeleteBook(db, id).Err? <==> LoansCountForBook(db.loans, id) > 0
    ensures DeleteBook(db, id).Ok? ==>
      var db' := DeleteBook(db, id).value;
      && db'.books == db.books - {id}
      && db'.loans == db.loans
      && WellFormed(db')
      && (Balanced(db) ==> Balanced(db'))
  {
    if DeleteBook(db, id).Ok? {
      var db' := DeleteBook(db, id).value;
      if Balanced(db) {
        forall b | b in db'.books ensures BookBalanced(db', b) {
          assert BookBalanced(db, b);
        }
      }
    }
  }

  // ---------------------------------------------------------------------------
  // Borrower writes leave the books and loans alone

  lemma AddBorrowerEffects(db: Db, name: Option<string>, email: Option<string>, phone: Option<string>)
    requires WellFormed(db)
    ensures var r := AddBorrower(db, name, email, phone);
      && (r.Err? <==> name.None? || (email.Some? && exists o :: o in db.borrowers && db.borrowers[o].email == email))
      && (r.Ok? ==>
            && r.value.1 !in db.borrowers
            && r.value.0.borrowers == db.borrowers[r.value.1 := Borrower(name.value, email, phone)]
            && r.value.0.books == db.books && r.value.0.loans == db.loans
            && LoansCountForBorrower(r.value.0.loans, r.value.1) == 0
            && WellFormed(r.value.0))
  {
    var r := AddBorrower(db, name, email, phone);
    if email.Some? && exists o :: o in db.borrowers && db.borrowers[o].email == email {
      var o :| o in db.borrowers && db.borrowers[o].email == email;
      assert o != db.nextBorrower;
    }
    if r.Ok? {
      assert forall l :: l in db.loans ==> db.loans[l].borrowerId != r.value.1;
    }
  }

  lemma UpdateBorrowerEffects(db: Db, id: int, name: Option<string>, email: Option<string>, phone: Option<string>)
    requires WellFormed(db)
    ensures var r := UpdateBorrower(db, id, name, email, phone);
      && (id !in db.borrowers ==> r == Ok(db))
      && (id in db.borrowers ==>
            && (r.Err? <==> name.None? || EmailClash(db.borrowers, email, id))
            && (r.Ok? ==>
                  && r.value.borrowers == db.borrowers[id := Borrower(name.value, email, phone)]
                  && r.value.books == db.books && r.value.loans == db.loans
                  && WellFormed(r.value)))
  {
  }

  /** delete_borrower succeeds exactly when the borrower has no loan history at all. */
  lemma DeleteBorrowerGuarded(db: Db, id: int)
    requires WellFormed(db)
    ensures DeleteBorrower(db, id).Err? <==> LoansCountForBorrower(db.loans, id) > 0
    ensures DeleteBorrower(db, id).Ok? ==>
      var db' := DeleteBorrower(db, id).value;
      && db'.borrowers == db.borrowers - {id}
      && db'.books == db.books && db'.loans == db.loans
      && WellFormed(db')
  {
  }

  // ---------------------------------------------------------------------------
  // Categories, authors, publishers

  /** delete_category succeeds exactly when no book is filed under the category. */
  lemma DeleteCategoryGuarded(db: Db, id: int)
    requires WellFormed(db)
    ensures DeleteCategory(db, id).Err? <==> exists b :: b in db.books && db.books[b].categoryId == Some(id)
    ensures DeleteCategory(db, id).Ok? ==>
      var db' := DeleteCategory(db, id).value;
      && db'.categories == db.categories - {id}
      && db'.books == db.books && db'.loans == db.loans
      && WellFormed(db')
  {
  }

  /** Removing an author or a publisher touches no other table. */
  lemma DeleteNamedEffects(db: Db, id: int)
    requires WellFormed(db)
    ensures DeleteAuthor(db, id) == db.(authors := db.authors - {id})
    ensures DeletePublisher(db, id) == db.(publishers := db.publishers - {id})
    ensures WellFormed(DeleteAuthor(db, id)) && WellFormed(DeletePublisher(db, id))
  {
  }

  // ---------------------------------------------------------------------------
  // Seeding

  /** Inserting names puts the k-th at id nextCategory + k and touches nothing else. */
  lemma {:induction false} InsertCategoriesEffects(db: Db, names: seq<string>)
    ensures var db' := InsertCategories(db, names);
      && db'.nextCategory == db.nextCategory + |names|
      && (forall c :: c in db'.categories <==>
            c in db.categories || db.nextCategory <= c < db.nextCategory + |names|)
      && (forall k :: 0 <= k < |names| ==> db'.categories[db.nextCategory + k] == Category(names[k]))
      && (forall c :: c in db.categories && !(db.nextCategory <= c < db.nextCategory + |names|) ==>
            db'.categories[c] == db.categories[c])
      && db'.(categories := db.categories, nextCategory := db.nextCategory) == db
    decreases |names|
  {
    if names != [] {
      var init := names[..|names| - 1];
      InsertCategoriesEffects(db, init);
      var db' := InsertCategories(db, names);
      forall k | 0 <= k < |names| ensures db'.categories[db.nextCategory + k] == Category(names[k]) {
        if k < |init| { assert names[k] == init[k]; }
      }
    }
  }

  /** Seeding an empty table yields exactly the five default categories at the next
      five ids; a non-empty table is left alone, so seeding twice is seeding once. */
  lemma SeedEffects(db: Db)
    requires WellFormed(db)
    ensures var db' := SeedDefaultCategories(db);
      && (|db.categories| != 0 ==> db' == db)
      && (|db.categories| == 0 ==>
            && (forall c :: c in db'.categories <==> db.nextCategory <= c < db.nextCategory + 5)
            && (forall k :: 0 <= k < 5 ==> db'.categories[db.nextCategory + k] == Category(DefaultCategories[k]))
            && db'.nextCategory == db.nextCategory + 5)
      && db'.(categories := db.categories, nextCategory := db.nextCategory) == db
      && SeedDefaultCategories(db') == db'
  {
    if |db.categories| == 0 {
      InsertCategoriesEffects(db, DefaultCategories);
      var db' := SeedDefaultCategories(db);
      assert db.nextCategory in db'.categories;
      assert |db'.categories| != 0;
    }
  }

  /** The five default names are pairwise different (their first letters are). */
  lemma DefaultsDistinct(i: int, j: int)
    requires 0 <= i < 5 && 0 <= j < 5 && i != j
    ensures DefaultCategories[i] != DefaultCategories[j]
  {
    var initials := ['F', 'N', 'S', 'H', 'B'];
    assert forall k :: 0 <= k < 5 ==> DefaultCategories[k][0] == initials[k];
  }

  /** Inserting pairwise different names into an empty table keeps well-formedness. */
  lemma InsertKeepsWellFormed(db: Db, names: seq<string>)
    requires WellFormed(db) && db.categories == map[]
    requires forall i, j :: 0 <= i < |names| && 0 <= j < |names| && i != j ==> names[i] != names[j]
    ensures WellFormed(InsertCategories(db, names))
  {
    InsertCategoriesEffects(db, names);
    var db' := InsertCategories(db, names);
    forall a, b | a in db'.categories && b in db'.categories && a != b
      ensures db'.categories[a].name != db'.categories[b].name
    {
      var i, j := a - db.nextCategory, b - db.nextCategory;
      assert db'.categories[a] == Category(names[i]);
      assert db'.categories[b] == Category(names[j]);
    }
    assert forall b :: b in db.books ==> db.books[b].categoryId.None?;
  }

  /** Seeding keeps the well-formedness invariant: the five names are distinct and no
      book can name a category of an empty table. */
  lemma SeedKeepsWellFormed(db: Db)
    requires WellFormed(db)
    ensures WellFormed(SeedDefaultCategories(db))
  {
    if |db.categories| == 0 {
      assert db.categories == map[];
      forall i, j | 0 <= i < 5 && 0 <= j < 5 && i != j ensures DefaultCategories[i] != DefaultCategories[j] {
        DefaultsDistinct(i, j);
      }
      InsertKeepsWellFormed(db, DefaultCategories);
    }
  }
}
