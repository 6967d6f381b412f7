/** The six tables of models.py:27-99 as values: each table is a map from row id
    to record, and each AUTOINCREMENT sequence is the next id it will hand out.
    Also the count queries used as delete guards (models.py:569-595) and the
    invariants that tie the tables together. */
module Schema {
  import opened Common

  /** A reading of datetime.utcnow(), in seconds. */
  type Instant = int

  const SecondsPerDay: int := 86400
  /** timedelta(days=14) */
  const LoanPeriod: int := 14 * SecondsPerDay

  datatype Status = Active | Returned

  datatype Category = Category(name: string)
  datatype Author = Author(name: string)
  datatype Publisher = Publisher(name: string)

  /** A books row; author and publisher are free text, not foreign keys. */
  datatype Book = Book(
    title: string,
    isbn: Option<string>,
    categoryId: Option<int>,
    authorName: Option<string>,
    publisherName: Option<string>,
    quantity: int,
    available: int)

  datatype Borrower = Borrower(name: string, email: Option<string>, phone: Option<string>)

  datatype Loan = Loan(
    bookId: int,
    borrowerId: int,
    loanDate: Instant,
    dueDate: Instant,
    returnDate: Option<Instant>,
    status: Status)

  datatype Db = Db(
    categories: map<int, Category>,
    authors: map<int, Author>,
    publishers: map<int, Publisher>,
    books: map<int, Book>,
    borrowers: map<int, Borrower>,
    loans: map<int, Loan>,
    nextCategory: int,
    nextBook: int,
    nextBorrower: int,
    nextLoan: int)

  /** A freshly initialised database: empty tables, sequences starting at 1. */
  const Empty: Db := Db(map[], map[], map[], map[], map[], map[], 1, 1, 1, 1)

  // ---------------------------------------------------------------------------
  // Counting loans

  /** The WHERE clauses of the four loan counts. */
  datatype LoanFilter =
    | OfBook(bookId: int)
    | ActiveOfBook(bookId: int)
    | OfBorrower(borrowerId: int)
    | ActiveOfBorrower(borrowerId: int)

  predicate Matches(f: LoanFilter, loan: Loan) {
    match f
    case OfBook(b) => loan.bookId == b
    case ActiveOfBook(b) => loan.bookId == b && loan.status == Active
    case OfBorrower(p) => loan.borrowerId == p
    case ActiveOfBorrower(p) => loan.borrowerId == p && loan.status == Active
  }

  function LoanIds(loans: map<int, Loan>, f: LoanFilter): set<int> {
    set l | l in loans && Matches(f, loans[l])
  }

  /** SELECT COUNT(*) FROM loans WHERE ... */
  function LoanCount(loans: map<int, Loan>, f: LoanFilter): nat {
    |LoanIds(loans, f)|
  }

  /** A count is zero exactly when no loan satisfies the clause. */
  lemma LoanCountZero(loans: map<int, Loan>, f: LoanFilter)
    ensures LoanCount(loans, f) == 0 <==> forall l :: l in loans ==> !Matches(f, loans[l])
  {
    var ids := LoanIds(loans, f);
    if |ids| != 0 {
      var l := Pick(ids);
      assert l in loans && Matches(f, loans[l]);
    } else {
      assert ids == {};
      forall l | l in loans ensures !Matches(f, loans[l]) {
        assert l !in ids;
      }
    }
  }

  /** Writing one loan row changes a count by what the old row and the new row contribute. */
  lemma LoanCountAfterWrite(loans: map<int, Loan>, id: int, loan: Loan, f: LoanFilter)
    ensures LoanCount(loans[id := loan], f) ==
      LoanCount(loans, f)
      - (if id in loans && Matches(f, loans[id]) then 1 else 0)
      + (if Matches(f, loan) then 1 else 0)
  {
    var before := LoanIds(loans, f);
    var after := LoanIds(loans[id := loan], f);
    forall l ensures l in after - {id} <==> l in before - {id} {
    }
    assert after - {id} == before - {id};
    assert id in after <==> Matches(f, loan);
    assert id in before <==> id in loans && Matches(f, loans[id]);
    CardWithout(after, id);
    CardWithout(before, id);
  }

  lemma CardWithout<T>(s: set<T>, x: T)
    ensures |s| == |s - {x}| + (if x in s then 1 else 0)
  {
    if x in s {
      assert s == (s - {x}) + {x};
    } else {
      assert s - {x} == s;
    }
  }

  /** A clause that implies another counts no more rows. */
  lemma ActiveWithin(loans: map<int, Loan>, narrow: LoanFilter, wide: LoanFilter)
    requires forall loan :: Matches(narrow, loan) ==> Matches(wide, loan)
    ensures LoanCount(loans, narrow) <= LoanCount(loans, wide)
  {
    var a, b := LoanIds(loans, narrow), LoanIds(loans, wide);
    forall l | l in a ensures l in b {
      assert Matches(narrow, loans[l]);
    }
    SubsetCard(a, b);
  }

  ghost function Pick<T>(s: set<T>): (x: T)
    requires |s| != 0
    ensures x in s
  {
    var x :| x in s; x
  }

  lemma SubsetCard<T>(a: set<T>, b: set<T>)
    requires a <= b
    ensures |a| <= |b|
    decreases a
  {
    if a != {} {
      var x :| x in a;
      SubsetCard(a - {x}, b - {x});
    }
  }

  /** get_loans_count_for_book: loans of any status. */
  function LoansCountForBook(loans: map<int, Loan>, bookId: int): (n: nat)
    ensures n == 0 <==> forall l :: l in loans ==> loans[l].bookId != bookId
  {
    LoanCountZero(loans, OfBook(bookId));
    LoanCount(loans, OfBook(bookId))
  }

  /** The count update_book reads before rewriting a book (models.py:422-425). */
  function ActiveLoansCountForBook(loans: map<int, Loan>, bookId: int): (n: nat)
    ensures n == 0 <==> forall l :: l in loans && loans[l].bookId == bookId ==> loans[l].status != Active
    ensures n <= LoansCountForBook(loans, bookId)
  {
    LoanCountZero(loans, ActiveOfBook(bookId));
    ActiveWithin(loans, ActiveOfBook(bookId), OfBook(bookId));
    LoanCount(loans, ActiveOfBook(bookId))
  }

  /** get_loans_count_for_borrower: the borrower's whole loan history. */
  function LoansCountForBorrower(loans: map<int, Loan>, borrowerId: int): (n: nat)
    ensures n == 0 <==> forall l :: l in loans ==> loans[l].borrowerId != borrowerId
  {
    LoanCountZero(loans, OfBorrower(borrowerId));
    LoanCount(loans, OfBorrower(borrowerId))
  }

  /** get_active_loans_count_for_borrower. */
  function ActiveLoansCountForBorrower(loans: map<int, Loan>, borrowerId: int): (n: nat)
    ensures n == 0 <==> forall l :: l in loans && loans[l].borrowerId == borrowerId ==> loans[l].status != Active
    ensures n <= LoansCountForBorrower(loans, borrowerId)
  {
    LoanCountZero(loans, ActiveOfBorrower(borrowerId));
    ActiveWithin(loans, ActiveOfBorrower(borrowerId), OfBorrower(borrowerId));
    LoanCount(loans, ActiveOfBorrower(borrowerId))
  }

  // ---------------------------------------------------------------------------
  // Invariants

  /** The copies of a book not on the shelf are exactly its active loans. */
  predicate BookBalanced(db: Db, id: int)
    requires id in db.books
  {
    db.books[id].quantity - db.books[id].available == ActiveLoansCountForBook(db.loans, id)
  }

  predicate Balanced(db: Db) {
    forall id :: id in db.books ==> BookBalanced(db, id)
  }

  predicate UniqueIsbns(books: map<int, Book>) {
    forall a, b :: a in books && b in books && a != b && books[a].isbn.Some? ==> books[a].isbn != books[b].isbn
  }

  predicate UniqueEmails(borrowers: map<int, Borrower>) {
    forall a, b :: a in borrowers && b in borrowers && a != b && borrowers[a].email.Some? ==>
      borrowers[a].email != borrowers[b].email
  }

  predicate UniqueCategoryNames(categories: map<int, Category>) {
    forall a, b :: a in categories && b in categories && a != b ==> categories[a].name != categories[b].name
  }

  /** What sqlite's constraints keep true of every committed state: ids below their
      sequence, foreign keys (foreign_keys is ON for every connection) and the
      UNIQUE columns (NULLs never collide). */
  predicate WellFormed(db: Db) {
    && 1 <= db.nextCategory && 1 <= db.nextBook && 1 <= db.nextBorrower && 1 <= db.nextLoan
    && (forall id :: id in db.categories ==> 1 <= id < db.nextCategory)
    && (forall id :: id in db.books ==> 1 <= id < db.nextBook)
    && (forall id :: id in db.borrowers ==> 1 <= id < db.nextBorrower)
    && (forall id :: id in db.loans ==> 1 <= id < db.nextLoan)
    && (forall id :: id in db.books && db.books[id].categoryId.Some? ==> db.books[id].categoryId.value in db.categories)
    && (forall id :: id in db.loans ==> db.loans[id].bookId in db.books && db.loans[id].borrowerId in db.borrowers)
    && UniqueIsbns(db.books)
    && UniqueEmails(db.borrowers)
    && UniqueCategoryNames(db.categories)
  }

  /** A freshly initialised database satisfies both invariants. */
  lemma EmptyIsConsistent()
    ensures WellFormed(Empty) && Balanced(Empty)
  {
  }
}
