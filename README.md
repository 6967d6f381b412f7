# Library loans and availability, modelled in Dafny

This project models the loan and availability accounting of a small Flask +
sqlite library application. It covers two layers.

The first layer is the data layer in `models.py`:

- **Tables.** The six tables (categories, authors, publishers, books, borrowers,
  loans) are maps from row id to record. Each AUTOINCREMENT sequence is a "next
  id" counter.
- **Write operations.**
  - `add_book` stores `available = quantity`.
  - `update_book` recomputes `available = quantity - active loans` and returns
    that count.
  - `add_loan` inserts an active loan due 14 days later and takes one copy off
    the shelf without checking that one is left.
  - `return_loan` marks a loan returned and puts a copy back without looking at
    the loan's status.
  - The deletes are refused by sqlite's foreign keys. The UNIQUE and NOT NULL
    columns raise IntegrityError.
- **Loan counts.** These are the count queries the delete guards use.
- **Read cache.** This is the 5-second TTL cache, with its prefix invalidation on
  every write.
- **`retry_db` wrapper.** It retries on lock contention.
- **`seed_default_categories`.**
- **`is_loan_overdue`.**

The second layer is the guard logic of the `app.py` routes that write to the
store: `add_book`, `edit_book`, `delete_book`, `delete_category`,
`delete_author`, `delete_publisher`, `delete_borrower` and `add_loan_route`.

The central invariant is `Schema.Balanced`: for every book,
`quantity - available` equals the number of its active loans. The model proves
the following about it:

- `add_book` and `add_loan` preserve it.
- `return_loan` of an active loan preserves it.
- `update_book` re-establishes it.
- Returning a loan twice breaks it.

Modules, one file each:

| file | module | models |
|---|---|---|
| common.dfy | Common | `Option`, `Result`, and the exceptions that matter (`IntegrityError`, `OperationalError(message)`, `TypeError`, the caught 404) |
| text.dfy | Text | ASCII `str.lower`, `in` on strings, `str.strip`, `int()` on text and `str()` on ints |
| retry.dfy | Retry | `retry_db` as a method with its `for` loop |
| cache.dfy | Cache | `_CACHE` as a class `TtlCache` with `Get`/`Set`/`Clear` |
| schema.dfy | Schema | records, the `Db` value, the four loan counts, the `WellFormed` and `Balanced` invariants |
| operations.dfy | Operations | each write as a pure transition `Db -> Result<Db>`, with the accounting lemmas |
| listing.dfy | Listing | what `get_all_books`/`get_all_borrowers` return, their cache keys, and cache coherence |
| store.dfy | Store | class `Library`: the tables as fields updated step by step, plus the cache; each method is proved to reach the state its Operations function describes and to keep `Valid()` (well-formed tables and a coherent cache) |
| overdue.dfy | Overdue | `is_loan_overdue` |
| routes.dfy | Routes | each route's decision as a function to a `Response`, with lemmas; the route carried out as check-then-call on a `Library` |
| scenarios.dfy | Scenarios | the borrower flow of the repository's test, and a loan's overdue moment |

Inputs that come from outside the program are parameters:

- **Clocks.** `time.time()` is a `real` passed to the cache operations. A
  cached listing read takes two readings, one for the freshness test and one
  for the stamp of a newly cached answer. Each
  `datetime.utcnow()` reading is an integer `Instant`. `add_loan` takes two
  such readings, one for the loan date and one for the due date.
- **Date parsing and formatting.** `datetime.fromisoformat` is a function
  parameter `parse`, and `isoformat` is a function parameter `format`.
- **Contention.** What makes sqlite report lock contention is the oracle
  `op(k)`, which gives the result of the k-th call of the wrapped operation.

## Model

| member | source | states |
|---|---|---|
| Cache.ClearedExactly | models.py:158-164 | clearing a prefix removes exactly the keys that start with it and keeps every other entry unchanged; clearing with None empties the cache |
| Cache.TtlCache.constructor | models.py:142 | the cache starts empty |
| Cache.TtlCache.Get | models.py:145-153 | three outcomes: no entry gives None and nothing changes; an entry more than 5 s old gives None and only that key is removed; otherwise the stored value is returned and nothing changes |
| Cache.TtlCache.Set | models.py:155-156 | the key now maps to the value stamped with the current time; all other keys are unchanged |
| Cache.TtlCache.Clear | models.py:158-164 | the key-by-key loop leaves exactly `Cleared(old entries, prefix)` |
| Cache.SetThenGet | models.py:145-156 | a set followed by a get at the same instant returns the value just stored |
| Retry.ContentionIsLockedOrBusy | models.py:114-115 | the retry test accepts exactly the OperationalErrors whose lower-cased message contains "locked" or "busy" |
| Retry.RetryDb | models.py:104-123 | at most maxAttempts calls; every call but the last hit contention; the wrapper stops early only on a value or a non-contention error; the last call's result is returned or re-raised unchanged; sleeps start at initialDelay and are multiplied by backoff each time; with no attempts allowed, None is returned |
| Retry.RetryDbDefault | models.py:104 | with the defaults: 1 to 5 calls, and the sleeps 0.05, 0.1, 0.2, 0.4 s in that order, cut to calls - 1 |
| Schema.LoanCountZero | models.py:569-595 | a loan count is 0 exactly when no loan row satisfies its WHERE clause |
| Schema.LoansCountForBook | models.py:569-576 | 0 exactly when no loan of any status names the book |
| Schema.ActiveLoansCountForBook | models.py:421-425 | 0 exactly when the book has no active loan; never more than the book's total count |
| Schema.LoansCountForBorrower | models.py:579-586 | 0 exactly when no loan of any status names the borrower |
| Schema.ActiveLoansCountForBorrower | models.py:588-595 | 0 exactly when the borrower has no active loan; never more than the total |
| Schema.EmptyIsConsistent | models.py:27-99 | the database `init_db` creates is well formed and balanced |
| Operations.AddBookRefused | models.py:400-409 | add_book fails exactly on a NULL title, an ISBN already held by a book, or a category id that names no category |
| Operations.AddBookAccounting | models.py:404-407 | a successful add_book stores one new book with available == quantity and no loans; all other books and all loans are unchanged; both invariants are kept |
| Operations.AddLoanRefused | models.py:603-612 | add_loan fails, with IntegrityError, exactly when the book or the borrower does not exist |
| Operations.AddLoanAccounting | models.py:603-612 | the new loan is active, dated at the first clock reading and due 14 days after the second; the book's available drops by exactly one with no positivity check; its active count rises by one; other books are unchanged |
| Operations.AddLoanKeepsInvariants | models.py:606-612 | add_loan keeps the tables well formed, and balanced when they were |
| Operations.ReturnLoanAccounting | models.py:629-637 | an unknown loan id fails with TypeError before any write; otherwise the loan is marked returned at `now` and its book gains one copy, whatever the loan's status was |
| Operations.ReturnActiveLoanBalanced | models.py:632-637 | returning an active loan lowers its book's active count by one and keeps the tables balanced |
| Operations.ReturnLoanKeepsInvariants | models.py:623-637 | return_loan keeps well-formedness; it keeps balance when the loan was active |
| Operations.ReturnReturnedLoanUnbalances | models.py:632-637 | returning an already returned loan leaves the active count unchanged, so that book is no longer balanced |
| Operations.DoubleReturn | models.py:623-637 | returning the same active loan twice adds two copies while only one loan stops being active |
| Operations.UpdateMissingBook | models.py:416-440 | update_book on an id with no row writes nothing, raises nothing and returns 0 |
| Operations.UpdateBookAccounting | models.py:421-440 | update_book returns the active-loan count and writes quantity and available = quantity - count, even when that is negative; the book is balanced afterwards; other books and the loans are unchanged; constraint errors are exactly a NULL title, a taken ISBN or an unknown category |
| Operations.DeleteBookGuarded | models.py:443-451 | delete_book fails exactly when some loan of any status names the book (loans foreign key); otherwise it removes only that row and keeps both invariants |
| Operations.AddBorrowerEffects | models.py:497-507 | add_borrower fails exactly on a NULL name or a taken email; otherwise it adds one new borrower with no loans and leaves books and loans alone |
| Operations.UpdateBorrowerEffects | models.py:510-520 | an id with no row is a no-op; otherwise the row is rewritten unless the name is NULL or the email is taken; books and loans are untouched |
| Operations.DeleteBorrowerGuarded | models.py:523-531 | delete_borrower fails exactly when the borrower has any loan history; otherwise it removes only that row |
| Operations.DeleteCategoryGuarded | models.py:230-236 | delete_category fails exactly when a book names the category (books foreign key); otherwise it removes only that row |
| Operations.DeleteNamedEffects | models.py:280-286 | deleting an author (or a publisher, models.py:330-336) removes only that row and is never refused |
| Operations.InsertCategoriesEffects | models.py:133-135 | the k-th name is stored at id next + k; nothing else changes |
| Operations.SeedEffects | models.py:126-138 | an empty table gets exactly the five defaults at the next five ids; a non-empty table is left alone; seeding is idempotent; no other table changes |
| Operations.DefaultsDistinct | models.py:133 | the five default names are pairwise different |
| Operations.InsertKeepsWellFormed | models.py:131-136 | inserting distinct names into an empty table keeps the UNIQUE name constraint and the rest of well-formedness |
| Operations.SeedKeepsWellFormed | models.py:126-138 | seeding keeps the tables well formed |
| Overdue.OnlyActiveLoansAreOverdue | models.py:651-663 | an overdue loan has status 'active', a non-empty due date that parses to a naive timestamp, and that timestamp is before now |
| Overdue.OverdueIsMonotone | models.py:662-663 | once a loan is overdue it stays overdue as now increases |
| Overdue.DateOnlyMeansEndOfDay | models.py:658-663 | a 10-character due date without 'T' is overdue exactly when its "T23:59:59" extension parses to a naive instant before now |
| Overdue.TimestampUsedAsWritten | models.py:658-666 | any other non-empty due date is parsed as written; a parse failure (or an offset-carrying timestamp, whose comparison raises TypeError) gives false |
| Overdue.StoredLoanOverdue | models.py:645-666 | for a due date written by isoformat and read back by fromisoformat, a stored loan is overdue exactly when it is active and its due instant is before now |
| Text.StripEmptyIffBlank | app.py:74 | `s.strip()` is empty exactly when s is all whitespace |
| Text.ParseIntRoundTrip | app.py:496 | `int(str(n)) == n` |
| Listing.UnfilteredQueryIsCatalogue | models.py:348-370 | with no search and no filter, get_all_books returns every book joined with its category |
| Listing.CategoryQueryEmpty | models.py:360-362 | the query for category c is empty exactly when no book has category_id c |
| Listing.ListingReferences | app.py:316-317 | some row of the unfiltered listing carries author (or publisher) name n exactly when some stored book does |
| Listing.SearchIgnoresCase | models.py:356-358 | the title search ignores ASCII case |
| Listing.SearchNarrows | models.py:356-358 | a search only removes rows, never adds or changes one |
| Listing.FilterSpellingsAgree | models.py:360-362 | a non-zero category id passed as an int or as its decimal text selects the same books |
| Listing.BooksKeyCollides | models.py:342 | the key as written gives `get_all_books('', 0)` (all books) and `get_all_books('', '0')` (category 0) the same key "books::0", on a store where their answers differ |
| Listing.SelectionKeyAgrees | models.py:342 | for the filters the pages send, the corrected key equals the key as written |
| Listing.SelectionKeyInjective | models.py:342 | two queries with the same corrected key have the same search and the same selection |
| Listing.SelectionKeyPrefixes | models.py:342 | every books key starts with "books" and not with "borrowers" |
| Listing.SummaryCounts | models.py:458-469 | each borrower row's active count is at most its total, and the total is 0 exactly when no loan names the borrower |
| Listing.BorrowersKeyPrefixes | models.py:456 | "borrowers:all" is under the "borrowers" prefix but not the "books" prefix |
| Listing.CoherentSubset | models.py:150-151 | dropping entries (a stale entry popped on read) keeps every remaining entry current |
| Listing.CoherentTransfer | models.py:230-236 | a write that changes neither the listing nor the summaries needs no invalidation |
| Listing.CoherentAfterBooksClear | models.py:439 | after a book write, clearing "books" leaves only current entries |
| Listing.CoherentAfterBorrowersClear | models.py:520 | after a borrower write, clearing "borrowers" leaves only current entries |
| Listing.CoherentAfterBothClears | models.py:618-619 | clearing both prefixes leaves no listing entry at all |
| Listing.CoherentAfterBooksSet | models.py:369 | caching the current books answer under its own key keeps the cache current |
| Listing.CoherentAfterBorrowersSet | models.py:478 | caching the current summaries under "borrowers:all" keeps the cache current |
| Store.SeededCoherent | models.py:126-138 | seeding an empty category table changes neither the listing nor the summaries |
| Store.Library.constructor | models.py:27-99 | a new store has the empty tables, sequences at 1 and an empty cache, and is valid |
| Store.Library.AddBook | models.py:400-413 | returns and stores what `Operations.AddBook` says; the "books" keys are cleared on success; nothing changes on an IntegrityError; validity and balance are kept |
| Store.Library.UpdateBook | models.py:416-440 | the count is read first, then the row is rewritten with available = quantity - count; returns the count; "books" is cleared; validity is kept |
| Store.Library.DeleteBook | models.py:443-451 | as `Operations.DeleteBook`: refused while a loan names the book; "books" is cleared on success |
| Store.Library.AddBorrower | models.py:497-507 | as `Operations.AddBorrower`; "borrowers" is cleared on success |
| Store.Library.UpdateBorrower | models.py:510-520 | as `Operations.UpdateBorrower`; "borrowers" is cleared |
| Store.Library.DeleteBorrower | models.py:523-531 | as `Operations.DeleteBorrower`; "borrowers" is cleared on success |
| Store.Library.AddLoan | models.py:598-620 | the loan row is inserted, then available is decremented, exactly as `Operations.AddLoan`; both prefixes are cleared; validity and balance are kept |
| Store.Library.ReturnLoan | models.py:623-643 | TypeError for an unknown id with nothing changed; otherwise as `Operations.ReturnLoan`, with both prefixes cleared; balance is kept when the loan was active |
| Store.Library.DeleteCategory | models.py:230-236 | as `Operations.DeleteCategory`; the cache is not touched and stays coherent |
| Store.Library.DeleteAuthor | models.py:280-286 | removes the author row only |
| Store.Library.DeletePublisher | models.py:330-336 | removes the publisher row only |
| Store.Library.SeedDefaultCategories | models.py:126-138 | the insert loop reaches `Operations.SeedDefaultCategories` of the old state |
| Store.Library.GetAllBooks | models.py:339-371 | the rows are always the current answer to the query; an entry still fresh at the first clock reading leaves the cache as it was; otherwise the answer is stored under its key, stamped with the second reading |
| Store.Library.GetAllBorrowers | models.py:454-480 | the rows are always the current borrower summaries; caching under "borrowers:all" works as for books, with the same two readings |
| Routes.FieldReadings | app.py:124-125 | `get(k) or None` and a bare `get(k)` agree on every field except an empty submission, which the first makes NULL and the second keeps as empty text |
| Routes.IntFieldReadsDecimal | app.py:496-500 | `int()` of a field holding `str(n)` is n, and an absent or empty field has no integer reading |
| Routes.CategoryChoiceReadsId | app.py:80-89 | a category field holding `str(c)` selects c when it is stored and is "does not exist" otherwise; a non-number is "Invalid category"; an absent or empty field means no category |
| Routes.AddQuantityReadings | app.py:94-101 | an absent quantity is one copy; `str(q)` is accepted as q when q >= 0 and refused when negative; empty or non-numeric text is refused |
| Routes.EditQuantityReadings | app.py:141-152 | absent or empty gives "required", a non-number "must be a number", `str(q)` with q < 0 "non-negative", and `str(q)` with q >= 0 is accepted as q |
| Routes.QuantityFormsAgree | app.py:94-152 | for submitted non-empty text, add_book and edit_book accept the same quantities and read the same count |
| Routes.AddBookRouteGuards | app.py:72-111 | models.add_book succeeds exactly when the trimmed title is non-empty, the category is absent or exists, the quantity is a non-negative integer, and the ISBN is free; a success stores one book with the trimmed title and available == quantity; every other outcome leaves the store unchanged |
| Routes.EditBookRouteOutcomes | app.py:127-167 | for a stored book: an unacceptable category gives one of the two category messages; update_book fails with IntegrityError exactly when the form passed and the title is absent or another book holds the ISBN; otherwise the edit ends in success or the quantity conflict |
| Routes.EditBookRouteQuantity | app.py:141-164 | an unknown id gives 404; a bad quantity is refused before any write; after update_book, the quantity is stored and available = quantity - active loans; the conflict is reported exactly when quantity < active loans, with the update already persisted and available negative |
| Routes.DeleteBookRouteGuards | app.py:176-194 | refused, with nothing deleted, exactly when any loan of any status names the book; a success is always the store's own successful delete |
| Routes.DeleteCategoryRouteGuards | app.py:249-259 | for id != 0, refused exactly when some book is filed under the category; for id 0 the check lists all books and refuses whenever any book exists; refusal changes nothing; otherwise only the category row goes |
| Routes.DeleteAuthorRouteGuards | app.py:311-326 | an unknown id ends in the generic failure with nothing deleted; otherwise refused exactly when some book's author_name equals the author's name; success removes only the author |
| Routes.DeletePublisherRouteGuards | app.py:378-393 | the same for publishers and publisher_name |
| Routes.DeleteBorrowerRouteGuards | app.py:452-476 | refused for active loans exactly when one exists; refused for history exactly when loans exist and all are returned; deleted exactly when no loan names the borrower; refusal changes nothing |
| Routes.AddLoanRouteGuards | app.py:495-520 | a loan is created exactly when both ids parse, the book exists with available > 0 and the borrower exists; it adds one active loan and takes one copy, leaving available >= 0; every other outcome leaves the store unchanged |
| Routes.AddLoanRouteKeepsStock | app.py:509-511 | the availability guard keeps every book's available >= 0 |
| Routes.UnguardedLoanOvercommits | models.py:606-612 | without the guard, add_loan on a book with no copy left drives available to -1 |
| Routes.AvailableBooks | app.py:523-524 | the loan form offers exactly the stored books with available > 0 |
| Routes.OfferedBooksCanBeLoaned | app.py:495-524 | choosing an offered book and a stored borrower on the loan form creates the loan |
| Routes.ServeAddBook | app.py:72-111 | the checks, then Library.AddBook, reach exactly the response of AddBookRoute; the store stays valid |
| Routes.ServeEditBook | app.py:117-167 | the checks, then Library.UpdateBook, reach exactly the response of EditBookRoute |
| Routes.ServeDeleteBook | app.py:173-198 | the count check, then Library.DeleteBook, as DeleteBookRoute |
| Routes.ServeDeleteCategory | app.py:246-262 | the cached listing check, then Library.DeleteCategory, as DeleteCategoryRoute; a cached answer gives the same decision as a fresh one (with the corrected cache key; see Findings) |
| Routes.ServeDeleteAuthor | app.py:308-329 | the lookup, the cached listing scan and Library.DeleteAuthor, as DeleteAuthorRoute |
| Routes.ServeDeletePublisher | app.py:375-396 | the same for publishers, as DeletePublisherRoute |
| Routes.ServeDeleteBorrower | app.py:449-480 | both count checks, then Library.DeleteBorrower, as DeleteBorrowerRoute |
| Routes.ServeAddLoan | app.py:491-520 | the id parsing and availability check, then Library.AddLoan, as AddLoanRoute |
| Scenarios.BorrowerFlow | tests/test_borrower_flow.py:23-57 | on a fresh store: borrower 1, book 1 (one copy), loan 1 with available going to 0; deleting is refused; after the return, available is 1 and there are no active loans, but the delete is still refused by the foreign key and by the route (loan history) |
| Scenarios.NewLoanOverdue | models.py:601-602 | a loan made by the loan route is overdue exactly when now is past the second clock reading plus 14 days |

## Left out

- Lock contention inside the store operations: each `Operations`/`Store.Library` write is one uninterrupted attempt. `retry_db` is modelled on its own (`Retry.RetryDb`) over an oracle for the attempts, and no store method is wrapped in it.
- `time.sleep`: the delays are returned as a trace of reals, not slept.
- sqlite itself: connections, PRAGMAs, WAL, busy timeouts, `ensure_db_indexes` and the SQL text. The tables are maps. Constraints are modelled as the IntegrityError they raise. The foreign keys are assumed on, as `get_conn` sets them.
- `ORDER BY` in get_all_books and get_all_borrowers: results are maps by id, so row order is not modelled.
- `str.lower()` in the retry test (`Retry.ContentionIsLockedOrBusy`) is ASCII-only `Text.Lower`; Python's Unicode case mapping is not modelled.
- LIKE: `%` and `_` inside the search text are not treated as wildcards. The case-insensitive match covers ASCII letters only.
- sqlite's comparison of the INTEGER `category_id` column with a text filter (numeric affinity) is approximated by `Text.ParseInt`.
- `int()` on text: underscores between digits and non-ASCII digits are not accepted.
- `str.strip()`: the whitespace set is the usual one, with no Unicode database behind it.
- `datetime.fromisoformat`, `isoformat` and `utcnow`: these are parameters (an abstract partial parse, a formatter and clock readings), not implementations.
- Dates stored as text: the model keeps loan instants as integers.
- add_category, update_category, add_author, update_author, add_publisher, update_publisher, get_all_categories/authors/publishers, the totals and the get_*_by_id lookups: not part of the modelled core. The lookups appear only as map membership.
- The add/edit borrower routes and the category/author/publisher add and edit routes: not part of the modelled core.
- return_loan_route: it calls return_loan unguarded, and `Store.Library.ReturnLoan` is that call. The global error handler's 500 page for its TypeError is not modelled.
- The `except Exception` around each route's count checks (app.py:195-198, 477-480): the modelled reads cannot fail, so that branch is not modelled.
- Flask routing, templates, flash, redirect and logging: each route's result is an `Outcome`.
- Concurrency between a route's check and its write.
- scripts/seed_demo.py, scripts/clear_db.py, scripts/check_db.py and tests/run_tests.py are not part of this model.
- Store.Library.GetAllBooks: its cache key is the corrected `Listing.SelectionKey`, not the key as written (see Findings). For the filters the pages send the two agree (`Listing.SelectionKeyAgrees`).

Behaviour of the code worth knowing:

- **delete_author and delete_publisher.** A missing id calls `abort(404)` inside the route's `try ... except Exception` (app.py:311-314, app.py:378-381). werkzeug's HTTP exceptions subclass `Exception`, so that except catches the 404 and the user gets the generic "Failed to delete" message (`Routes.DeleteAuthorRoute`, outcome `Failed(NotFoundAbort)`).
- **tests/test_borrower_flow.py:56-57.** The test expects a borrower whose loans are all returned to be deletable. A returned loan still names its borrower, and the loans foreign key (models.py:94) refuses the delete; so does the route's loan-history guard (app.py:459-462). `Scenarios.BorrowerFlow` shows both refusals.
- **update_book on an id with no row** (models.py:421-440). It is not an error. Nothing is written, and the count (0 in a well-formed store) is still returned.
- **Cache freshness** (models.py:147-151). An entry exactly 5 seconds old is still served, since only an age above the TTL expires it. The `if not entry` test never fires for a stored tuple.

## Findings

| source | as written | input that shows it | evidently intended | confidence | as-written member | corrected member |
|---|---|---|---|---|---|---|
| models.py:342 | `cache_key = f"books:{search}:{category_filter}"` names the query by the text of its arguments, but `if category_filter:` treats the int 0 (falsy, no filter) and the text '0' (truthy, category 0) differently | delete_category(0) runs `get_all_books('', 0)`, which lists every book. Within 5 s, `/books?category=0` runs `get_all_books('', '0')`, which should list nothing. Both use the key "books::0", so the second call is served the first call's rows (and the other way round). Search text containing ':' collides in the same way, e.g. search "a:1" with no filter against search "a" with filter "1:" | a key that identifies what the query selects | not executed | Listing.BooksKeyCollides | Listing.SelectionKeyInjective |
