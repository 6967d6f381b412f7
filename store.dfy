/** The store as the running program sees it: the six tables, which models.py
    updates statement by statement, and the module-level read cache beside them
    (models.py:142). Each write method does what the Python function does, in the
    same order, and is proved to produce the state the matching Operations
    function describes; every method keeps the tables well formed and the cache
    coherent with them. */
module Store {
  import opened Common
  import opened Schema
  import opened Cache
  import opened Listing
  import Operations

  /** The catalogue only reads the books and the categories they name. */
  lemma CatalogueUnchanged(db: Db, db': Db)
    requires db'.books == db.books
    requires forall b :: b in db.books ==>
      CategoryName(db', db.books[b].categoryId) == CategoryName(db, db.books[b].categoryId)
    ensures Catalogue(db') == Catalogue(db)
  {
    forall id | id in db.books ensures Catalogue(db')[id] == Catalogue(db)[id] {
    }
  }

  /** The borrower summaries only read the borrowers and the loans. */
  lemma SummariesUnchanged(db: Db, db': Db)
    requires db'.borrowers == db.borrowers && db'.loans == db.loans
    ensures BorrowerSummaries(db') == BorrowerSummaries(db)
  {
  }

  /** Removing or adding categories no book names leaves the catalogue alone. */
  lemma CatalogueIgnoresUnusedCategories(db: Db, db': Db)
    requires db'.books == db.books
    requires forall b :: b in db.books && db.books[b].categoryId.Some? ==>
      var c := db.books[b].categoryId.value;
      (c in db.categories <==> c in db'.categories) && (c in db.categories ==> db'.categories[c] == db.categories[c])
    ensures Catalogue(db') == Catalogue(db)
  {
    CatalogueUnchanged(db, db');
  }

  /** Seeding an empty table changes neither the catalogue nor the summaries. */
  lemma SeededCoherent(db: Db)
    requires WellFormed(db) && |db.categories| == 0
    ensures Catalogue(Operations.SeedDefaultCategories(db)) == Catalogue(db)
    ensures BorrowerSummaries(Operations.SeedDefaultCategories(db)) == BorrowerSummaries(db)
  {
    var db' := Operations.SeedDefaultCategories(db);
    Operations.SeedEffects(db);
    assert forall b :: b in db.books ==> db.books[b].categoryId.None?;
    CatalogueUnchanged(db, db');
    SummariesUnchanged(db, db');
  }

  /** Seeding keeps the tables well formed and a coherent cache coherent. */
  lemma SeedKeepsValid(db: Db, entries: map<string, Entry<Rows>>)
    requires WellFormed(db) && CacheCoherent(db, entries)
    ensures WellFormed(Operations.SeedDefaultCategories(db))
    ensures CacheCoherent(Operations.SeedDefaultCategories(db), entries)
  {
    if |db.categories| == 0 {
      SeededCoherent(db);
      CoherentTransfer(db, Operations.SeedDefaultCategories(db), entries);
    }
    Operations.SeedKeepsWellFormed(db);
  }

  class Library {
    var categories: map<int, Category>
    var authors: map<int, Author>
    var publishers: map<int, Publisher>
    var books: map<int, Book>
    var borrowers: map<int, Borrower>
    var loans: map<int, Loan>
    var nextCategory: int
    var nextBook: int
    var nextBorrower: int
    var nextLoan: int
    /** _CACHE */
    const cache: TtlCache<Rows>

    function State(): Db
      reads this
    {
      Db(categories, authors, publishers, books, borrowers, loans, nextCategory, nextBook, nextBorrower, nextLoan)
    }

    ghost predicate Valid()
      reads this, cache
    {
      WellFormed(State()) && CacheCoherent(State(), cache.entries)
    }

    /** A database just created by init_db, and an empty cache. */
    constructor ()
      ensures State() == Empty && fresh(cache) && cache.entries == map[]
      ensures Valid()
    {
      categories, authors, publishers, books, borrowers, loans := map[], map[], map[], map[], map[], map[];
      nextCategory, nextBook, nextBorrower, nextLoan := 1, 1, 1, 1;
      cache := new TtlCache();
      EmptyIsConsistent();
    }

    // -------------------------------------------------------------------------
    // Books

    /** add_book: INSERT, commit, then _cache_clear('books'). */
    method AddBook(title: Option<string>, isbn: Option<string>, categoryId: Option<int>,
                   authorName: Option<string>, publisherName: Option<string>, quantity: int)
      returns (r: Result<int>)
      requires Valid()
      modifies this, cache
      ensures Valid()
      ensures var spec := Operations.AddBook(old(State()), title, isbn, categoryId, authorName, publisherName, quantity);
        && (spec.Ok? ==> r == Ok(spec.value.1) && State() == spec.value.0
                         && cache.entries == Cleared(old(cache.entries), Some("books")))
        && (spec.Err? ==> r == Err(spec.failure) && State() == old(State()) && cache.entries == old(cache.entries))
      ensures Balanced(old(State())) ==> Balanced(State())
    {
      ghost var db := State();
      if title.None? || Operations.IsbnClash(books, isbn, nextBook) || Operations.CategoryMissing(State(), categoryId) {
        return Err(IntegrityError);
      }
      var id := nextBook;
      books := books[id := Book(title.value, isbn, categoryId, authorName, publisherName, quantity, quantity)];
      nextBook := id + 1;
      assert State() == Operations.AddBook(db, title, isbn, categoryId, authorName, publisherName, quantity).value.0;
      Operations.AddBookAccounting(db, title, isbn, categoryId, authorName, publisherName, quantity);
      SummariesUnchanged(db, State());
      CoherentAfterBooksClear(db, State(), cache.entries);
      cache.Clear(Some("books"));
      r := Ok(id);
    }

    /** update_book: count the active loans, UPDATE the row (when there is one) with
        available = quantity - count, commit, clear 'books', return the count. */
    method UpdateBook(id: int, title: Option<string>, isbn: Option<string>, categoryId: Option<int>,
                      authorName: Option<string>, publisherName: Option<string>, quantity: int)
      returns (r: Result<nat>)
      requires Valid()
      modifies this, cache
      ensures Valid()
      ensures var spec := Operations.UpdateBook(old(State()), id, title, isbn, categoryId, authorName, publisherName, quantity);
        && (spec.Ok? ==> r == Ok(spec.value.1) && State() == spec.value.0
                         && cache.entries == Cleared(old(cache.entries), Some("books")))
        && (spec.Err? ==> r == Err(spec.failure) && State() == old(State()) && cache.entries == old(cache.entries))
    {
      ghost var db := State();
      var active := ActiveLoansCountForBook(loans, id);
      var available := quantity - active;
      if id in books {
        if title.None? || Operations.IsbnClash(books, isbn, id) || Operations.CategoryMissing(State(), categoryId) {
          return Err(IntegrityError);
        }
        books := books[id := Book(title.value, isbn, categoryId, authorName, publisherName, quantity, available)];
        assert State() == Operations.UpdateBook(db, id, title, isbn, categoryId, authorName, publisherName, quantity).value.0;
        Operations.UpdateBookAccounting(db, id, title, isbn, categoryId, authorName, publisherName, quantity);
      }
      SummariesUnchanged(db, State());
      CoherentAfterBooksClear(db, State(), cache.entries);
      cache.Clear(Some("books"));
      r := Ok(active);
    }

    /** delete_book: DELETE (refused by the loans foreign key), commit, clear 'books'. */
    method DeleteBook(id: int) returns (r: Result<()>)
      requires Valid()
      modifies this, cache
      ensures Valid()
      ensures var spec := Operations.DeleteBook(old(State()), id);
        && (spec.Ok? ==> r == Ok(()) && State() == spec.value
                         && cache.entries == Cleared(old(cache.entries), Some("books")))
        && (spec.Err? ==> r == Err(spec.failure) && State() == old(State()) && cache.entries == old(cache.entries))
      ensures Balanced(old(State())) ==> Balanced(State())
    {
      ghost var db := State();
      if exists l :: l in loans && loans[l].bookId == id {
        return Err(IntegrityError);
      }
      books := books - {id};
      Operations.DeleteBookGuarded(db, id);
      SummariesUnchanged(db, State());
      CoherentAfterBooksClear(db, State(), cache.entries);
      cache.Clear(Some("books"));
      r := Ok(());
    }

    // -------------------------------------------------------------------------
    // Borrowers

    method AddBorrower(name: Option<string>, email: Option<string>, phone: Option<string>) returns (r: Result<int>)
      requires Valid()
      modifies this, cache
      ensures Valid()
      ensures var spec := Operations.AddBorrower(old(State()), name, email, phone);
        && (spec.Ok? ==> r == Ok(spec.value.1) && State() == spec.value.0
                         && cache.entries == Cleared(old(cache.entries), Some("borrowers")))
        && (spec.Err? ==> r == Err(spec.failure) && State() == old(State()) && cache.entries == old(cache.entries))
      ensures Balanced(old(State())) ==> Balanced(State())
    {
      ghost var db := State();
      if name.None? || Operations.EmailClash(borrowers, email, nextBorrower) {
        return Err(IntegrityError);
      }
      var id := nextBorrower;
      borrowers := borrowers[id := Borrower(name.value, email, phone)];
      nextBorrower := id + 1;
      assert State() == Operations.AddBorrower(db, name, email, phone).value.0;
      Operations.AddBorrowerEffects(db, name, email, phone);
      Operations.BalanceOnlyReadsBooksAndLoans(db, State());
      CatalogueUnchanged(db, State());
      CoherentAfterBorrowersClear(db, State(), cache.entries);
      cache.Clear(Some("borrowers"));
      r := Ok(id);
    }

    method UpdateBorrower(id: int, name: Option<string>, email: Option<string>, phone: Option<string>) returns (r: Result<()>)
      requires Valid()
      modifies this, cache
      ensures Valid()
      ensures var spec := Operations.UpdateBorrower(old(State()), id, name, email, phone);
        && (spec.Ok? ==> r == Ok(()) && State() == spec.value
                         && cache.entries == Cleared(old(cache.entries), Some("borrowers")))
        && (spec.Err? ==> r == Err(spec.failure) && State() == old(State()) && cache.entries == old(cache.entries))
      ensures Balanced(old(State())) ==> Balanced(State())
    {
      ghost var db := State();
      if id in borrowers {
        if name.None? || Operations.EmailClash(borrowers, email, id) {
          return Err(IntegrityError);
        }
        borrowers := borrowers[id := Borrower(name.value, email, phone)];
      }
      Operations.UpdateBorrowerEffects(db, id, name, email, phone);
      Operations.BalanceOnlyReadsBooksAndLoans(db, State());
      CatalogueUnchanged(db, State());
      CoherentAfterBorrowersClear(db, State(), cache.entries);
      cache.Clear(Some("borrowers"));
      r := Ok(());
    }

    method DeleteBorrower(id: int) returns (r: Result<()>)
      requires Valid()
      modifies this, cache
      ensures Valid()
      ensures var spec := Operations.DeleteBorrower(old(State()), id);
        && (spec.Ok? ==> r == Ok(()) && State() == spec.value
                         && cache.entries == Cleared(old(cache.entries), Some("borrowers")))
        && (spec.Err? ==> r == Err(spec.failure) && State() == old(State()) && cache.entries == old(cache.entries))
      ensures Balanced(old(State())) ==> Balanced(State())
    {
      ghost var db := State();
      if exists l :: l in loans && loans[l].borrowerId == id {
        return Err(IntegrityError);
      }
      borrowers := borrowers - {id};
      Operations.DeleteBorrowerGuarded(db, id);
      Operations.BalanceOnlyReadsBooksAndLoans(db, State());
      CatalogueUnchanged(db, State());
      CoherentAfterBorrowersClear(db, State(), cache.entries);
      cache.Clear(Some("borrowers"));
      r := Ok(());
    }

    // -------------------------------------------------------------------------
    // Loans

    /** add_loan: INSERT the loan, UPDATE the book's available, commit, then clear
        'books' and 'borrowers'. */
    method AddLoan(bookId: int, borrowerId: int, loanNow: Instant, dueNow: Instant) returns (r: Result<int>)
      requires Valid()
      modifies this, cache
      ensures Valid()
      ensures var spec := Operations.AddLoan(old(State()), bookId, borrowerId, loanNow, dueNow);
        && (spec.Ok? ==> r == Ok(spec.value.1) && State() == spec.value.0
                         && cache.entries == Cleared(Cleared(old(cache.entries), Some("books")), Some("borrowers")))
        && (spec.Err? ==> r == Err(spec.failure) && State() == old(State()) && cache.entries == old(cache.entries))
      ensures Balanced(old(State())) ==> Balanced(State())
    {
      ghost var db := State();
      if bookId !in books || borrowerId !in borrowers {
        return Err(IntegrityError);
      }
      var id := nextLoan;
      loans := loans[id := Loan(bookId, borrowerId, loanNow, dueNow + LoanPeriod, None, Active)];
      nextLoan := id + 1;
      books := books[bookId := books[bookId].(available := books[bookId].available - 1)];
      assert State() == Operations.AddLoan(db, bookId, borrowerId, loanNow, dueNow).value.0;
      Operations.AddLoanKeepsInvariants(db, bookId, borrowerId, loanNow, dueNow);
      CoherentAfterBothClears(State(), cache.entries);
      cache.Clear(Some("books"));
      cache.Clear(Some("borrowers"));
      r := Ok(id);
    }

    /** return_loan: look the loan up (TypeError when there is none), mark it
        returned, put a copy back, commit, clear both prefixes. */
    method ReturnLoan(loanId: int, now: Instant) returns (r: Result<()>)
      requires Valid()
      modifies this, cache
      ensures Valid()
      ensures var spec := Operations.ReturnLoan(old(State()), loanId, now);
        && (spec.Ok? ==> r == Ok(()) && State() == spec.value
                         && cache.entries == Cleared(Cleared(old(cache.entries), Some("books")), Some("borrowers")))
        && (spec.Err? ==> r == Err(spec.failure) && State() == old(State()) && cache.entries == old(cache.entries))
      ensures Balanced(old(State())) && loanId in old(loans) && old(loans[loanId].status) == Active ==> Balanced(State())
    {
      ghost var db := State();
      if loanId !in loans {
        return Err(TypeError);
      }
      var loan := loans[loanId];
      var bookId := loan.bookId;
      loans := loans[loanId := loan.(status := Returned, returnDate := Some(now))];
      if bookId in books {
        books := books[bookId := books[bookId].(available := books[bookId].available + 1)];
      }
      assert State() == Operations.ReturnLoan(db, loanId, now).value;
      Operations.ReturnLoanKeepsInvariants(db, loanId, now);
      CoherentAfterBothClears(State(), cache.entries);
      cache.Clear(Some("books"));
      cache.Clear(Some("borrowers"));
      r := Ok(());
    }

    // -------------------------------------------------------------------------
    // Categories, authors, publishers (no cache invalidation in the source)

    method DeleteCategory(id: int) returns (r: Result<()>)
      requires Valid()
      modifies this
      ensures Valid()
      ensures var spec := Operations.DeleteCategory(old(State()), id);
        && (spec.Ok? ==> r == Ok(()) && State() == spec.value)
        && (spec.Err? ==> r == Err(spec.failure) && State() == old(State()))
    {
      ghost var db := State();
      if exists b :: b in books && books[b].categoryId == Some(id) {
        return Err(IntegrityError);
      }
      categories := categories - {id};
      Operations.DeleteCategoryGuarded(db, id);
      CatalogueIgnoresUnusedCategories(db, State());
      SummariesUnchanged(db, State());
      CoherentTransfer(db, State(), cache.entries);
      r := Ok(());
    }

    method DeleteAuthor(id: int)
      requires Valid()
      modifies this
      ensures Valid()
      ensures State() == Operations.DeleteAuthor(old(State()), id)
    {
      ghost var db := State();
      authors := authors - {id};
      Operations.DeleteNamedEffects(db, id);
      CatalogueUnchanged(db, State());
      SummariesUnchanged(db, State());
      CoherentTransfer(db, State(), cache.entries);
    }

    method DeletePublisher(id: int)
      requires Valid()
      modifies this
      ensures Valid()
      ensures State() == Operations.DeletePublisher(old(State()), id)
    {
      ghost var db := State();
      publishers := publishers - {id};
      Operations.DeleteNamedEffects(db, id);
      CatalogueUnchanged(db, State());
      SummariesUnchanged(db, State());
      CoherentTransfer(db, State(), cache.entries);
    }

    /** seed_default_categories: COUNT the categories and, when there are none,
        INSERT the five defaults one by one. */
    method SeedDefaultCategories()
      requires Valid()
      modifies this
      ensures Valid()
      ensures State() == Operations.SeedDefaultCategories(old(State()))
    {
      ghost var db := State();
      if |categories| == 0 {
        var names := Operations.DefaultCategories;
        var i := 0;
        while i < |names|
          invariant 0 <= i <= |names|
          invariant State() == Operations.InsertCategories(db, names[..i])
        {
          Operations.InsertOneMore(db, names, i);
          categories := categories[nextCategory := Category(names[i])];
          nextCategory := nextCategory + 1;
          i := i + 1;
        }
        assert names[..i] == names;
      }
      SeedKeepsValid(db, cache.entries);
    }

    // -------------------------------------------------------------------------
    // The cached reads

    /** get_all_books: a fresh cached answer if there is one, otherwise run the
        query and cache it. Either way the rows are the current answer. The clock
        is read twice: `readNow` by the freshness test, `writeNow` when the answer
        is stamped after the query. */
    method GetAllBooks(search: string, filter: CategoryFilter, readNow: real, writeNow: real)
      returns (rows: map<int, BookRow>)
      requires Valid()
      modifies cache
      ensures Valid()
      ensures rows == BooksQuery(Catalogue(State()), search, SelectionOf(filter))
      ensures var key := SelectionKey(search, SelectionOf(filter));
        cache.entries ==
          if key in old(cache.entries) && Fresh(old(cache.entries)[key], readNow) then old(cache.entries)
          else old(cache.entries)[key := Entry(BookRows(rows), writeNow)]
    {
      var sel := SelectionOf(filter);
      var key := SelectionKey(search, sel);
      var cached := cache.Get(key, readNow);
      if cached.Some? {
        return cached.value.books;
      }
      CoherentSubset(State(), old(cache.entries), cache.entries);
      rows := BooksQuery(Catalogue(State()), search, sel);
      CoherentAfterBooksSet(State(), cache.entries, search, sel, writeNow);
      cache.Set(key, BookRows(rows), writeNow);
      assert cache.entries == old(cache.entries)[key := Entry(BookRows(rows), writeNow)];
    }

    /** get_all_borrowers, under the key 'borrowers:all', with the same two clock readings. */
    method GetAllBorrowers(readNow: real, writeNow: real) returns (rows: map<int, BorrowerSummary>)
      requires Valid()
      modifies cache
      ensures Valid()
      ensures rows == BorrowerSummaries(State())
      ensures cache.entries ==
        if BorrowersKey in old(cache.entries) && Fresh(old(cache.entries)[BorrowersKey], readNow) then old(cache.entries)
        else old(cache.entries)[BorrowersKey := Entry(BorrowerRows(rows), writeNow)]
    {
      var cached := cache.Get(BorrowersKey, readNow);
      if cached.Some? {
        return cached.value.borrowers;
      }
      CoherentSubset(State(), old(cache.entries), cache.entries);
      rows := BorrowerSummaries(State());
      CoherentAfterBorrowersSet(State(), cache.entries, writeNow);
      cache.Set(BorrowersKey, BorrowerRows(rows), writeNow);
      assert cache.entries == old(cache.entries)[BorrowersKey := Entry(BorrowerRows(rows), writeNow)];
    }
  }
}
