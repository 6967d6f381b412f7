/** The guard decisions of the app.py routes that write to the store: what each
    route checks before it calls into models.py, and what state it leaves behind.

    A route is first described as a function from the store state and the form
    fields to a Response (the outcome the user is told about and the new state),
    and then carried out as check-then-call on a Store.Library, proved to reach
    exactly that Response. Flask's flash/redirect/abort are reduced to the
    Outcome. */
module Routes {
  import opened Common
  import opened Text
  import opened Schema
  import opened Listing
  import Operations
  import Store

  // ---------------------------------------------------------------------------
  // Requests and responses

  /** A form field: absent from the request, or the text submitted. */
  datatype Field = Missing | Given(text: string)

  /** `request.form.get(k) or None`: an absent or empty field becomes NULL. */
  function OrNone(f: Field): Option<string> {
    if f.Missing? || f.text == "" then None else Some(f.text)
  }

  /** `request.form.get(k)` handed on unchanged. */
  function Raw(f: Field): Option<string> {
    if f.Missing? then None else Some(f.text)
  }

  /** `int(request.form.get(k))`: an absent field raises TypeError, text with no
      integer reading ValueError; the routes catch both alike. */
  function IntField(f: Field): Option<int> {
    if f.Missing? then None else ParseInt(f.text)
  }

  /** The two readings of a field differ only on an empty submission, which
      `or None` turns into NULL and a bare get keeps as empty text. */
  lemma FieldReadings(f: Field)
    ensures OrNone(f) == Raw(f) <==> f != Given("")
    ensures OrNone(Given("")) == None && Raw(Given("")) == Some("")
    ensures Raw(f).None? ==> OrNone(f).None?
  {
  }

  /** int() of a field reads back the decimal text str() writes; an absent or
      empty field has no reading. */
  lemma IntFieldReadsDecimal(n: int)
    ensures IntField(Given(IntToString(n))) == Some(n)
    ensures IntField(Missing) == None && IntField(Given("")) == None
  {
    ParseIntRoundTrip(n);
  }

  /** A text that is not a number has no integer reading. */
  lemma LetterIsNotNumber()
    ensures ParseInt("x") == None
  {
    assert Strip("x") == "x" by { assert TrimStart("x") == "x"; }
    assert !IsDigit("x"[0]);
  }

  /** The flash messages that send the user back to the form. */
  datatype FormError =
    | TitleRequired      // 'Title is required.'
    | InvalidCategory    // 'Invalid category selected.'
    | UnknownCategory    // 'Selected category does not exist.'
    | BadQuantity        // 'Quantity must be a non-negative integer.'
    | QuantityRequired   // 'Quantity is required.'
    | QuantityNotNumber  // 'Quantity must be a number.'
    | QuantityNegative   // 'Quantity must be non-negative.'
    | InvalidSelection   // 'Invalid book or borrower selection.'

  /** Why a delete was refused. */
  datatype Reference = HasLoans | HasActiveLoans | HasLoanHistory | HasBooks

  datatype Outcome =
    | Success
    | NotFound                           // abort(404) outside any try
    | Invalid(error: FormError)
    | Refused(reason: Reference)
    | Failed(failure: Failure)           // an exception caught by the route
    | QuantityConflict(activeLoans: nat) // edit_book, after the update is written
    | NotAvailable                       // 'Book is not available!'

  datatype Response = Response(outcome: Outcome, db: Db)

  /** A value read from a form, or the message that rejects it. */
  datatype Checked<T> = Accepted(value: T) | Rejected(error: FormError)

  // ---------------------------------------------------------------------------
  // The form checks of add_book and edit_book

  /** The category check both book forms make: nothing chosen, or an integer
      that names a stored category. */
  predicate CategoryAcceptable(db: Db, f: Field) {
    f.Missing? || f.text == "" || (ParseInt(f.text).Some? && ParseInt(f.text).value in db.categories)
  }

  /** `int(s) if s else None`, then get_category_by_id. */
  function CategoryChoice(db: Db, f: Field): Checked<Option<int>> {
    if f.Missing? || f.text == "" then Accepted(None)
    else match ParseInt(f.text)
      case None => Rejected(InvalidCategory)
      case Some(c) => if c in db.categories then Accepted(Some(c)) else Rejected(UnknownCategory)
  }

  /** add_book reads the quantity with a default of '1' for an absent field. */
  function QuantityText(f: Field): string {
    if f.Missing? then "1" else f.text
  }

  predicate AddQuantityAcceptable(f: Field) {
    ParseInt(QuantityText(f)).Some? && ParseInt(QuantityText(f)).value >= 0
  }

  function AddQuantity(f: Field): Checked<int> {
    match ParseInt(QuantityText(f))
    case None => Rejected(BadQuantity)
    case Some(q) => if q < 0 then Rejected(BadQuantity) else Accepted(q)
  }

  predicate EditQuantityAcceptable(f: Field) {
    f.Given? && ParseInt(f.text).Some? && ParseInt(f.text).value >= 0
  }

  /** edit_book's quantity: required, an integer, and not negative, each with its own message. */
  function EditQuantity(f: Field): Checked<int> {
    if f.Missing? || f.text == "" then Rejected(QuantityRequired)
    else match ParseInt(f.text)
      case None => Rejected(QuantityNotNumber)
      case Some(q) => if q < 0 then Rejected(QuantityNegative) else Accepted(q)
  }

  /** The category field names a category by its id written in decimal: a stored
      id is chosen, another id is unknown, a non-number is invalid, and nothing
      chosen means no category. */
  lemma CategoryChoiceReadsId(db: Db, c: int)
    ensures CategoryChoice(db, Given(IntToString(c))) ==
      (if c in db.categories then Accepted(Some(c)) else Rejected(UnknownCategory))
    ensures CategoryChoice(db, Given("x")) == Rejected(InvalidCategory)
    ensures CategoryChoice(db, Missing) == Accepted(None) && CategoryChoice(db, Given("")) == Accepted(None)
  {
    IntFieldReadsDecimal(c);
    IntToStringChars(c);
    LetterIsNotNumber();
  }

  /** add_book takes an absent quantity as one copy, a decimal count as that
      count when it is not negative, and refuses anything else with one message. */
  lemma AddQuantityReadings(q: int)
    ensures AddQuantity(Missing) == Accepted(1)
    ensures AddQuantity(Given(IntToString(q))) == if q < 0 then Rejected(BadQuantity) else Accepted(q)
    ensures AddQuantity(Given("")) == Rejected(BadQuantity) && AddQuantity(Given("x")) == Rejected(BadQuantity)
  {
    ParseIntRoundTrip(q);
    ParseIntRoundTrip(1);
    assert IntToString(1) == "1";
    IntFieldReadsDecimal(q);
    LetterIsNotNumber();
  }

  /** edit_book has a message for each way the quantity can be wrong: absent or
      empty, not a number, negative. */
  lemma EditQuantityReadings(q: int)
    ensures EditQuantity(Missing) == Rejected(QuantityRequired) && EditQuantity(Given("")) == Rejected(QuantityRequired)
    ensures EditQuantity(Given("x")) == Rejected(QuantityNotNumber)
    ensures EditQuantity(Given(IntToString(q))) == if q < 0 then Rejected(QuantityNegative) else Accepted(q)
  {
    ParseIntRoundTrip(q);
    IntToStringChars(q);
    LetterIsNotNumber();
  }

  /** Proof step for the route lemmas: which form fields each check accepts, and
      the value it reads from them. */
  lemma FormChecks(db: Db, category: Field, quantity: Field)
    ensures CategoryChoice(db, category).Accepted? <==> CategoryAcceptable(db, category)
    ensures CategoryChoice(db, category).Accepted? ==>
      CategoryChoice(db, category).value == (if category.Missing? || category.text == "" then None else ParseInt(category.text))
    ensures CategoryChoice(db, category).Rejected? ==> CategoryChoice(db, category).error in {InvalidCategory, UnknownCategory}
    ensures AddQuantity(quantity).Accepted? <==> AddQuantityAcceptable(quantity)
    ensures AddQuantity(quantity).Accepted? ==> Some(AddQuantity(quantity).value) == ParseInt(QuantityText(quantity))
    ensures EditQuantity(quantity).Accepted? <==> EditQuantityAcceptable(quantity)
    ensures EditQuantity(quantity).Accepted? ==> Some(EditQuantity(quantity).value) == ParseInt(quantity.text)
    ensures EditQuantity(quantity).Rejected? ==>
      EditQuantity(quantity).error in {QuantityRequired, QuantityNotNumber, QuantityNegative}
  {
  }

  /** For a submitted, non-empty quantity the two book forms accept the same
      texts and read the same count from them. */
  lemma QuantityFormsAgree(s: string)
    requires s != ""
    ensures AddQuantity(Given(s)).Accepted? <==> EditQuantity(Given(s)).Accepted?
    ensures AddQuantity(Given(s)).Accepted? ==> AddQuantity(Given(s)).value == EditQuantity(Given(s)).value
  {
  }

  // ---------------------------------------------------------------------------
  // add_book (app.py:72-111)

  predicate TitleGiven(title: Field) {
    title.Given? && Strip(title.text) != ""
  }

  function AddBookRoute(db: Db, title: Field, isbn: Field, category: Field, author: Field,
                        publisher: Field, quantity: Field): Response
  {
    if !TitleGiven(title) then Response(Invalid(TitleRequired), db)
    else match CategoryChoice(db, category)
      case Rejected(e) => Response(Invalid(e), db)
      case Accepted(c) =>
        match AddQuantity(quantity)
        case Rejected(e) => Response(Invalid(e), db)
        case Accepted(q) =>
          match Operations.AddBook(db, Some(Strip(title.text)), OrNone(isbn), c, OrNone(author), OrNone(publisher), q)
          case Err(f) => Response(Failed(f), db)
          case Ok(added) => Response(Success, added.0)
  }

  /** add_book reaches models.add_book only with a non-blank title, an absent or
      existing category and a non-negative integer quantity, and then succeeds
      unless the ISBN is taken. A success stores one new book, with the trimmed
      title and every copy on the shelf; any other outcome changes nothing. */
  lemma AddBookRouteGuards(db: Db, title: Field, isbn: Field, category: Field, author: Field,
                           publisher: Field, quantity: Field)
    requires WellFormed(db)
    ensures var r := AddBookRoute(db, title, isbn, category, author, publisher, quantity);
      && (r.outcome != Success ==> r.db == db)
      && (r.outcome == Invalid(TitleRequired) <==> !TitleGiven(title))
      && (r.outcome == Success <==>
            && TitleGiven(title) && CategoryAcceptable(db, category) && AddQuantityAcceptable(quantity)
            && !(OrNone(isbn).Some? && exists o :: o in db.books && db.books[o].isbn == OrNone(isbn)))
      && (r.outcome == Success ==>
            && db.nextBook !in db.books
            && r.db.books == db.books[db.nextBook := r.db.books[db.nextBook]]
            && r.db.books[db.nextBook].title == Strip(title.text)
            && Some(r.db.books[db.nextBook].quantity) == ParseInt(QuantityText(quantity))
            && r.db.books[db.nextBook].available == r.db.books[db.nextBook].quantity >= 0
            && r.db.loans == db.loans
            && WellFormed(r.db)
            && (Balanced(db) ==> Balanced(r.db)))
  {
    FormChecks(db, category, quantity);
    if TitleGiven(title) && CategoryAcceptable(db, category) && AddQuantityAcceptable(quantity) {
      var c := CategoryChoice(db, category).value;
      var q := AddQuantity(quantity).value;
      var t, i, a, p := Some(Strip(title.text)), OrNone(isbn), OrNone(author), OrNone(publisher);
      Operations.AddBookRefused(db, t, i, c, a, p, q);
      if Operations.AddBook(db, t, i, c, a, p, q).Ok? {
        Operations.AddBookAccounting(db, t, i, c, a, p, q);
      }
    }
  }

  // ---------------------------------------------------------------------------
  // edit_book (app.py:117-167)

  function EditBookRoute(db: Db, id: int, title: Field, isbn: Field, category: Field, author: Field,
                         publisher: Field, quantity: Field): Response
  {
    if id !in db.books then Response(NotFound, db)
    else match CategoryChoice(db, category)
      case Rejected(e) => Response(Invalid(e), db)
      case Accepted(c) =>
        match EditQuantity(quantity)
        case Rejected(e) => Response(Invalid(e), db)
        case Accepted(q) =>
          match Operations.UpdateBook(db, id, Raw(title), OrNone(isbn), c, OrNone(author), OrNone(publisher), q)
          case Err(f) => Response(Failed(f), db)
          case Ok(updated) =>
            if q < updated.1 then Response(QuantityConflict(updated.1), updated.0)
            else Response(Success, updated.0)
  }

  /** edit_book refuses a missing, non-integer or negative quantity before any
      write. Once update_book has run, the new quantity is stored and the book
      rebalanced whatever the outcome; the conflict is reported exactly when the
      quantity is below the active loans, and then the stored availability is
      negative. */
  lemma EditBookRouteQuantity(db: Db, id: int, title: Field, isbn: Field, category: Field, author: Field,
                              publisher: Field, quantity: Field)
    requires WellFormed(db)
    ensures var r := EditBookRoute(db, id, title, isbn, category, author, publisher, quantity);
      && (r.outcome == NotFound <==> id !in db.books)
      && (r.outcome.Invalid? || r.outcome == NotFound || r.outcome.Failed? ==> r.db == db)
      && (id in db.books && CategoryAcceptable(db, category) && !EditQuantityAcceptable(quantity) ==>
            r.outcome.Invalid? && r.outcome.error in {QuantityRequired, QuantityNotNumber, QuantityNegative})
      && (r.outcome == Success || r.outcome.QuantityConflict? ==>
            && id in db.books && CategoryAcceptable(db, category) && EditQuantityAcceptable(quantity)
            && var q := ParseInt(quantity.text).value;
               var n := ActiveLoansCountForBook(db.loans, id);
               && r.db.books.Keys == db.books.Keys
               && r.db.books[id].quantity == q
               && r.db.books[id].available == q - n
               && (r.outcome.QuantityConflict? <==> q < n)
               && (r.outcome.QuantityConflict? ==> r.outcome.activeLoans == n && r.db.books[id].available < 0)
               && (forall b :: b in db.books && b != id ==> r.db.books[b] == db.books[b])
               && WellFormed(r.db)
               && (Balanced(db) ==> Balanced(r.db)))
  {
    FormChecks(db, category, quantity);
    if id in db.books && CategoryAcceptable(db, category) && EditQuantityAcceptable(quantity) {
      var c := CategoryChoice(db, category).value;
      var q := EditQuantity(quantity).value;
      var u := Operations.UpdateBook(db, id, Raw(title), OrNone(isbn), c, OrNone(author), OrNone(publisher), q);
      Operations.UpdateBookAccounting(db, id, Raw(title), OrNone(isbn), c, OrNone(author), OrNone(publisher), q);
      var r := EditBookRoute(db, id, title, isbn, category, author, publisher, quantity);
      if u.Ok? {
        assert r.db == u.value.0;
        assert r.outcome.QuantityConflict? <==> q < u.value.1;
      } else {
        assert r == Response(Failed(u.failure), db);
      }
    }
  }

  /** Which outcome edit_book reaches for a stored book. The category is checked
      first, then the quantity; update_book then fails, with an IntegrityError,
      exactly when the title field is absent (NULL) or another book holds the
      ISBN, and otherwise writes the edit, answered as a success or a conflict. */
  lemma EditBookRouteOutcomes(db: Db, id: int, title: Field, isbn: Field, category: Field, author: Field,
                              publisher: Field, quantity: Field)
    requires WellFormed(db)
    ensures var r := EditBookRoute(db, id, title, isbn, category, author, publisher, quantity);
      && (id in db.books && !CategoryAcceptable(db, category) ==>
            r.outcome.Invalid? && r.outcome.error in {InvalidCategory, UnknownCategory})
      && (r.outcome.Failed? <==>
            && id in db.books && CategoryAcceptable(db, category) && EditQuantityAcceptable(quantity)
            && (title.Missing? || (OrNone(isbn).Some? && exists o :: o in db.books && o != id && db.books[o].isbn == OrNone(isbn))))
      && (r.outcome.Failed? ==> r.outcome.failure == IntegrityError)
      && (r.outcome == Success || r.outcome.QuantityConflict? <==>
            && id in db.books && CategoryAcceptable(db, category) && EditQuantityAcceptable(quantity)
            && title.Given? && !(OrNone(isbn).Some? && exists o :: o in db.books && o != id && db.books[o].isbn == OrNone(isbn)))
  {
    FormChecks(db, category, quantity);
    if id in db.books && CategoryAcceptable(db, category) && EditQuantityAcceptable(quantity) {
      var c := CategoryChoice(db, category).value;
      var q := EditQuantity(quantity).value;
      assert !Operations.CategoryMissing(db, c);
      var u := Operations.UpdateBook(db, id, Raw(title), OrNone(isbn), c, OrNone(author), OrNone(publisher), q);
      assert u.Err? <==> title.Missing? || Operations.IsbnClash(db.books, OrNone(isbn), id);
      var r := EditBookRoute(db, id, title, isbn, category, author, publisher, quantity);
      if u.Err? {
        assert r == Response(Failed(IntegrityError), db);
      } else {
        assert r.outcome == Success || r.outcome.QuantityConflict?;
      }
    }
  }

  // ---------------------------------------------------------------------------
  // delete_book (app.py:173-198)

  function DeleteBookRoute(db: Db, id: int): Response {
    if LoansCountForBook(db.loans, id) > 0 then Response(Refused(HasLoans), db)
    else match Operations.DeleteBook(db, id)
      case Err(f) => Response(Failed(f), db)
      case Ok(db') => Response(Success, db')
  }

  /** delete_book is refused, deleting nothing, while any loan of any status names
      the book; a success is always the store's own successful delete, never a
      swallowed error. */
  lemma DeleteBookRouteGuards(db: Db, id: int)
    ensures var r := DeleteBookRoute(db, id);
      && (r.outcome == Refused(HasLoans) <==> exists l :: l in db.loans && db.loans[l].bookId == id)
      && (r.outcome != Success ==> r.db == db)
      && (r.outcome == Success ==> Operations.DeleteBook(db, id) == Ok(r.db))
      && (r.outcome != Refused(HasLoans) ==> r.outcome == Success && r.db == db.(books := db.books - {id}))
  {
  }

  // ---------------------------------------------------------------------------
  // delete_category (app.py:246-262)

  /** The check runs get_all_books('', id): an id of 0 is falsy, so the filter is
      dropped and the check sees every book. */
  function DeleteCategoryRoute(db: Db, id: int): Response {
    var inCategory := BooksQuery(Catalogue(db), "", SelectionOf(IntFilter(id)));
    if inCategory != map[] then Response(Refused(HasBooks), db)
    else match Operations.DeleteCategory(db, id)
      case Err(f) => Response(Failed(f), db)
      case Ok(db') => Response(Success, db')
  }

  lemma DeleteCategoryRouteGuards(db: Db, id: int)
    requires WellFormed(db)
    ensures var r := DeleteCategoryRoute(db, id);
      && (id != 0 ==> (r.outcome == Refused(HasBooks) <==> exists b :: b in db.books && db.books[b].categoryId == Some(id)))
      && (id == 0 ==> (r.outcome == Refused(HasBooks) <==> db.books != map[]))
      && (r.outcome == Refused(HasBooks) ==> r.db == db)
      && (r.outcome != Refused(HasBooks) ==> r.outcome == Success && r.db == db.(categories := db.categories - {id}))
  {
    if id == 0 {
      UnfilteredQueryIsCatalogue(db);
      assert Catalogue(db).Keys == db.books.Keys;
    } else {
      CategoryQueryEmpty(db, id);
    }
  }

  // ---------------------------------------------------------------------------
  // delete_author (app.py:308-329) and delete_publisher (app.py:375-396)

  /** The abort(404) for an unknown id is raised inside the route's
      `try ... except Exception`, which catches it, so the user sees the generic
      failure message. */
  function DeleteAuthorRoute(db: Db, id: int): Response {
    if id !in db.authors then Response(Failed(NotFoundAbort), db)
    else
      var name := db.authors[id].name;
      var all := BooksQuery(Catalogue(db), "", AllBooks);
      if exists b :: b in all && all[b].book.authorName == Some(name) then Response(Refused(HasBooks), db)
      else Response(Success, Operations.DeleteAuthor(db, id))
  }

  function DeletePublisherRoute(db: Db, id: int): Response {
    if id !in db.publishers then Response(Failed(NotFoundAbort), db)
    else
      var name := db.publishers[id].name;
      var all := BooksQuery(Catalogue(db), "", AllBooks);
      if exists b :: b in all && all[b].book.publisherName == Some(name) then Response(Refused(HasBooks), db)
      else Response(Success, Operations.DeletePublisher(db, id))
  }

  /** An author is deleted exactly when it exists and no book carries its name
      exactly; nothing else is ever deleted. */
  lemma DeleteAuthorRouteGuards(db: Db, id: int)
    ensures var r := DeleteAuthorRoute(db, id);
      && (id !in db.authors ==> r == Response(Failed(NotFoundAbort), db))
      && (id in db.authors ==>
            (r.outcome == Refused(HasBooks) <==>
               exists b :: b in db.books && db.books[b].authorName == Some(db.authors[id].name)))
      && (r.outcome == Success <==>
            id in db.authors && forall b :: b in db.books ==> db.books[b].authorName != Some(db.authors[id].name))
      && (r.outcome == Success ==> r.db == db.(authors := db.authors - {id}))
      && (r.outcome != Success ==> r.db == db)
  {
    if id in db.authors {
      ListingReferences(db, db.authors[id].name);
    }
  }

  lemma DeletePublisherRouteGuards(db: Db, id: int)
    ensures var r := DeletePublisherRoute(db, id);
      && (id !in db.publishers ==> r == Response(Failed(NotFoundAbort), db))
      && (id in db.publishers ==>
            (r.outcome == Refused(HasBooks) <==>
               exists b :: b in db.books && db.books[b].publisherName == Some(db.publishers[id].name)))
      && (r.outcome == Success <==>
            id in db.publishers && forall b :: b in db.books ==> db.books[b].publisherName != Some(db.publishers[id].name))
      && (r.outcome == Success ==> r.db == db.(publishers := db.publishers - {id}))
      && (r.outcome != Success ==> r.db == db)
  {
    if id in db.publishers {
      ListingReferences(db, db.publishers[id].name);
    }
  }

  // ---------------------------------------------------------------------------
  // delete_borrower (app.py:449-480)

  function DeleteBorrowerRoute(db: Db, id: int): Response {
    if ActiveLoansCountForBorrower(db.loans, id) > 0 then Response(Refused(HasActiveLoans), db)
    else if LoansCountForBorrower(db.loans, id) > 0 then Response(Refused(HasLoanHistory), db)
    else match Operations.DeleteBorrower(db, id)
      case Err(f) => Response(Failed(f), db)
      case Ok(db') => Response(Success, db')
  }

  /** A borrower with an active loan is refused for that reason; one whose loans
      are all returned is still refused, for the history; only a borrower no loan
      names is deleted. */
  lemma DeleteBorrowerRouteGuards(db: Db, id: int)
    ensures var r := DeleteBorrowerRoute(db, id);
      && (r.outcome == Refused(HasActiveLoans) <==>
            exists l :: l in db.loans && db.loans[l].borrowerId == id && db.loans[l].status == Active)
      && (r.outcome == Refused(HasLoanHistory) <==>
            && (exists l :: l in db.loans && db.loans[l].borrowerId == id)
            && (forall l :: l in db.loans && db.loans[l].borrowerId == id ==> db.loans[l].status == Returned))
      && (r.outcome == Success <==> forall l :: l in db.loans ==> db.loans[l].borrowerId != id)
      && (r.outcome == Success ==> r.db == db.(borrowers := db.borrowers - {id}))
      && (r.outcome != Success ==> r.db == db)
  {
  }

  // ---------------------------------------------------------------------------
  // add_loan_route (app.py:491-527)

  function AddLoanRoute(db: Db, book: Field, borrower: Field, loanNow: Instant, dueNow: Instant): Response {
    if IntField(book).None? || IntField(borrower).None? then Response(Invalid(InvalidSelection), db)
    else
      var b, p := IntField(book).value, IntField(borrower).value;
      if b in db.books && db.books[b].available > 0 then
        match Operations.AddLoan(db, b, p, loanNow, dueNow)
        case Err(f) => Response(Failed(f), db)
        case Ok(added) => Response(Success, added.0)
      else Response(NotAvailable, db)
  }

  /** A loan is created only for an existing book with a copy on the shelf (and
      an existing borrower); it takes exactly that copy. Any other outcome
      creates no loan and changes no availability. */
  lemma AddLoanRouteGuards(db: Db, book: Field, borrower: Field, loanNow: Instant, dueNow: Instant)
    requires WellFormed(db)
    ensures var r := AddLoanRoute(db, book, borrower, loanNow, dueNow);
      && (r.outcome != Success ==> r.db == db)
      && (r.outcome == Invalid(InvalidSelection) <==> IntField(book).None? || IntField(borrower).None?)
      && (r.outcome == Success <==>
            && IntField(book).Some? && IntField(borrower).Some?
            && IntField(book).value in db.books && db.books[IntField(book).value].available > 0
            && IntField(borrower).value in db.borrowers)
      && (r.outcome == Success ==>
            var b := IntField(book).value;
            && |r.db.loans| == |db.loans| + 1
            && r.db.loans[db.nextLoan] == Loan(b, IntField(borrower).value, loanNow, dueNow + LoanPeriod, None, Active)
            && r.db.books.Keys == db.books.Keys
            && r.db.books[b].available == db.books[b].available - 1 >= 0
            && (forall o :: o in db.books && o != b ==> r.db.books[o] == db.books[o])
            && WellFormed(r.db)
            && (Balanced(db) ==> Balanced(r.db)))
  {
    if IntField(book).Some? && IntField(borrower).Some? {
      var b, p := IntField(book).value, IntField(borrower).value;
      if b in db.books && db.books[b].available > 0 && p in db.borrowers {
        Operations.AddLoanAccounting(db, b, p, loanNow, dueNow);
        Operations.AddLoanKeepsInvariants(db, b, p, loanNow, dueNow);
        assert db.nextLoan !in db.loans;
        assert |db.loans[db.nextLoan := Loan(b, p, loanNow, dueNow + LoanPeriod, None, Active)]| == |db.loans| + 1;
      }
    }
  }

  /** No book is on the shelf a negative number of times. */
  predicate StockNonNegative(db: Db) {
    forall b :: b in db.books ==> db.books[b].available >= 0
  }

  /** The availability guard is what keeps stock from going negative. */
  lemma AddLoanRouteKeepsStock(db: Db, book: Field, borrower: Field, loanNow: Instant, dueNow: Instant)
    requires WellFormed(db) && StockNonNegative(db)
    ensures StockNonNegative(AddLoanRoute(db, book, borrower, loanNow, dueNow).db)
  {
    AddLoanRouteGuards(db, book, borrower, loanNow, dueNow);
  }

  /** Without the guard, models.add_loan lends a copy that is not there. */
  lemma UnguardedLoanOvercommits(db: Db, bookId: int, borrowerId: int, loanNow: Instant, dueNow: Instant)
    requires WellFormed(db) && bookId in db.books && borrowerId in db.borrowers
    requires db.books[bookId].available == 0
    ensures Operations.AddLoan(db, bookId, borrowerId, loanNow, dueNow).Ok?
    ensures !StockNonNegative(Operations.AddLoan(db, bookId, borrowerId, loanNow, dueNow).value.0)
  {
    Operations.AddLoanAccounting(db, bookId, borrowerId, loanNow, dueNow);
  }

  /** The books the loan form offers: the unfiltered listing, kept to those with
      a copy on the shelf (app.py:523-524). */
  function AvailableBooks(db: Db): (offered: map<int, BookRow>)
    ensures forall id :: id in offered <==> id in db.books && db.books[id].available > 0
    ensures forall id :: id in offered ==> offered[id].book == db.books[id]
  {
    UnfilteredQueryIsCatalogue(db);
    var all := BooksQuery(Catalogue(db), "", AllBooks);
    map id | id in all && all[id].book.available > 0 :: all[id]
  }

  /** Choosing any offered book and any stored borrower on the loan form creates the loan. */
  lemma OfferedBooksCanBeLoaned(db: Db, id: int, borrowerId: int, loanNow: Instant, dueNow: Instant)
    requires WellFormed(db)
    requires id in AvailableBooks(db) && borrowerId in db.borrowers
    ensures AddLoanRoute(db, Given(IntToString(id)), Given(IntToString(borrowerId)), loanNow, dueNow).outcome == Success
  {
    ParseIntRoundTrip(id);
    ParseIntRoundTrip(borrowerId);
    AddLoanRouteGuards(db, Given(IntToString(id)), Given(IntToString(borrowerId)), loanNow, dueNow);
  }

  // ---------------------------------------------------------------------------
  // The routes carried out on the store

  method ServeAddBook(lib: Store.Library, title: Field, isbn: Field, category: Field, author: Field,
                      publisher: Field, quantity: Field) returns (o: Outcome)
    requires lib.Valid()
    modifies lib, lib.cache
    ensures lib.Valid()
    ensures Response(o, lib.State()) == AddBookRoute(old(lib.State()), title, isbn, category, author, publisher, quantity)
  {
    if !TitleGiven(title) {
      return Invalid(TitleRequired);
    }
    var c := CategoryChoice(lib.State(), category);
    if c.Rejected? {
      return Invalid(c.error);
    }
    var q := AddQuantity(quantity);
    if q.Rejected? {
      return Invalid(q.error);
    }
    var r := lib.AddBook(Some(Strip(title.text)), OrNone(isbn), c.value, OrNone(author), OrNone(publisher), q.value);
    if r.Err? {
      return Failed(r.failure);
    }
    o := Success;
  }

  method ServeEditBook(lib: Store.Library, id: int, title: Field, isbn: Field, category: Field, author: Field,
                       publisher: Field, quantity: Field) returns (o: Outcome)
    requires lib.Valid()
    modifies lib, lib.cache
    ensures lib.Valid()
    ensures Response(o, lib.State()) == EditBookRoute(old(lib.State()), id, title, isbn, category, author, publisher, quantity)
  {
    if id !in lib.books {
      return NotFound;
    }
    var c := CategoryChoice(lib.State(), category);
    if c.Rejected? {
      return Invalid(c.error);
    }
    var q := EditQuantity(quantity);
    if q.Rejected? {
      return Invalid(q.error);
    }
    var r := lib.UpdateBook(id, Raw(title), OrNone(isbn), c.value, OrNone(author), OrNone(publisher), q.value);
    if r.Err? {
      return Failed(r.failure);
    }
    if q.value < r.value {
      return QuantityConflict(r.value);
    }
    o := Success;
  }

  method ServeDeleteBook(lib: Store.Library, id: int) returns (o: Outcome)
    requires lib.Valid()
    modifies lib, lib.cache
    ensures lib.Valid()
    ensures Response(o, lib.State()) == DeleteBookRoute(old(lib.State()), id)
  {
    var count := LoansCountForBook(lib.loans, id);
    if count > 0 {
      return Refused(HasLoans);
    }
    var r := lib.DeleteBook(id);
    if r.Err? {
      return Failed(r.failure);
    }
    o := Success;
  }

  /** `readNow` and `writeNow` are the two cache-clock readings of the listing
      read (its freshness test, and the stamp of a newly cached answer). */
  method ServeDeleteCategory(lib: Store.Library, id: int, readNow: real, writeNow: real) returns (o: Outcome)
    requires lib.Valid()
    modifies lib, lib.cache
    ensures lib.Valid()
    ensures Response(o, lib.State()) == DeleteCategoryRoute(old(lib.State()), id)
  {
    var inCategory := lib.GetAllBooks("", IntFilter(id), readNow, writeNow);
    if inCategory != map[] {
      return Refused(HasBooks);
    }
    var r := lib.DeleteCategory(id);
    if r.Err? {
      return Failed(r.failure);
    }
    o := Success;
  }

  method ServeDeleteAuthor(lib: Store.Library, id: int, readNow: real, writeNow: real) returns (o: Outcome)
    requires lib.Valid()
    modifies lib, lib.cache
    ensures lib.Valid()
    ensures Response(o, lib.State()) == DeleteAuthorRoute(old(lib.State()), id)
  {
    if id !in lib.authors {
      return Failed(NotFoundAbort);
    }
    var name := lib.authors[id].name;
    var all := lib.GetAllBooks("", TextFilter(""), readNow, writeNow);
    if exists b :: b in all && all[b].book.authorName == Some(name) {
      return Refused(HasBooks);
    }
    lib.DeleteAuthor(id);
    o := Success;
  }

  method ServeDeletePublisher(lib: Store.Library, id: int, readNow: real, writeNow: real) returns (o: Outcome)
    requires lib.Valid()
    modifies lib, lib.cache
    ensures lib.Valid()
    ensures Response(o, lib.State()) == DeletePublisherRoute(old(lib.State()), id)
  {
    if id !in lib.publishers {
      return Failed(NotFoundAbort);
    }
    var name := lib.publishers[id].name;
    var all := lib.GetAllBooks("", TextFilter(""), readNow, writeNow);
    if exists b :: b in all && all[b].book.publisherName == Some(name) {
      return Refused(HasBooks);
    }
    lib.DeletePublisher(id);
    o := Success;
  }

  method ServeDeleteBorrower(lib: Store.Library, id: int) returns (o: Outcome)
    requires lib.Valid()
    modifies lib, lib.cache
    ensures lib.Valid()
    ensures Response(o, lib.State()) == DeleteBorrowerRoute(old(lib.State()), id)
  {
    var active := ActiveLoansCountForBorrower(lib.loans, id);
    if active > 0 {
      return Refused(HasActiveLoans);
    }
    var total := LoansCountForBorrower(lib.loans, id);
    if total > 0 {
      return Refused(HasLoanHistory);
    }
    var r := lib.DeleteBorrower(id);
    if r.Err? {
      return Failed(r.failure);
    }
    o := Success;
  }

  /** `loanNow` and `dueNow` are add_loan's two utcnow() readings. */
  method ServeAddLoan(lib: Store.Library, book: Field, borrower: Field, loanNow: Instant, dueNow: Instant)
    returns (o: Outcome)
    requires lib.Valid()
    modifies lib, lib.cache
    ensures lib.Valid()
    ensures Response(o, lib.State()) == AddLoanRoute(old(lib.State()), book, borrower, loanNow, dueNow)
  {
    var b := IntField(book);
    var p := IntField(borrower);
    if b.None? || p.None? {
      return Invalid(InvalidSelection);
    }
    if b.value in lib.books && lib.books[b.value].available > 0 {
      var r := lib.AddLoan(b.value, p.value, loanNow, dueNow);
      if r.Err? {
        return Failed(r.failure);
      }
      return Success;
    }
    o := NotAvailable;
  }
}
