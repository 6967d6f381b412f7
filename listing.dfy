/** The two cached reads, get_all_books (models.py:339-371) and get_all_borrowers
    (models.py:453-480): what each query returns, the cache key it is stored
    under, and when a cache holds only answers that are still current.

    The cache key as written, f"books:{search}:{category_filter}", can give two
    different queries the same key (see BooksKeyCollides); the store uses the
    key of SelectionKey instead, which names what the query selects. */
module Listing {
  import opened Common
  import opened Text
  import opened Schema
  import opened Cache

  // ---------------------------------------------------------------------------
  // get_all_books

  /** A result row: the book and, from the LEFT JOIN, its category's name. */
  datatype BookRow = BookRow(book: Book, categoryName: Option<string>)

  function CategoryName(db: Db, categoryId: Option<int>): Option<string> {
    if categoryId.Some? && categoryId.value in db.categories then Some(db.categories[categoryId.value].name)
    else None
  }

  /** Every book joined with its category. */
  function Catalogue(db: Db): map<int, BookRow> {
    map id | id in db.books :: BookRow(db.books[id], CategoryName(db, db.books[id].categoryId))
  }

  /** category_filter as the function receives it: query-string text from the
      /books page, or an int from delete_category. */
  datatype CategoryFilter = TextFilter(text: string) | IntFilter(number: int)

  /** What the WHERE clause ends up selecting. */
  datatype Selection = AllBooks | InCategory(id: int) | NoBooks

  /** `if category_filter:` skips the clause for '' and 0. Otherwise the INTEGER
      column is compared with the value: an int directly, text by its integer
      reading, and text with no integer reading matches no row. */
  function SelectionOf(f: CategoryFilter): Selection {
    match f
    case IntFilter(n) => if n == 0 then AllBooks else InCategory(n)
    case TextFilter(s) =>
      if s == "" then AllBooks
      else match ParseInt(s)
        case Some(n) => InCategory(n)
        case None => NoBooks
  }

  /** `b.title LIKE '%search%'`, which sqlite compares without regard to ASCII case;
      an empty search adds no clause. */
  predicate TitleMatches(title: string, search: string) {
    search == [] || Contains(Lower(title), Lower(search))
  }

  predicate Selects(sel: Selection, book: Book) {
    match sel
    case AllBooks => true
    case InCategory(c) => book.categoryId == Some(c)
    case NoBooks => false
  }

  /** The rows of the books query, by id (ORDER BY title is not modelled). */
  function BooksQuery(rows: map<int, BookRow>, search: string, sel: Selection): map<int, BookRow> {
    map id | id in rows && TitleMatches(rows[id].book.title, search) && Selects(sel, rows[id].book) :: rows[id]
  }

  /** With no search and no filter the query returns every book. */
  lemma UnfilteredQueryIsCatalogue(db: Db)
    ensures BooksQuery(Catalogue(db), "", AllBooks) == Catalogue(db)
  {
    var c := Catalogue(db);
    forall id | id in c ensures id in BooksQuery(c, "", AllBooks) {
      assert TitleMatches(c[id].book.title, "");
    }
  }

  /** The category query delete_category runs is empty exactly when no book is
      filed under the category. */
  lemma CategoryQueryEmpty(db: Db, id: int)
    ensures BooksQuery(Catalogue(db), "", InCategory(id)) == map[] <==>
      forall b :: b in db.books ==> db.books[b].categoryId != Some(id)
  {
    var c := Catalogue(db);
    var q := BooksQuery(c, "", InCategory(id));
    if forall b :: b in db.books ==> db.books[b].categoryId != Some(id) {
      forall k | k in q ensures false {
      }
      assert q == map[];
    } else {
      var b :| b in db.books && db.books[b].categoryId == Some(id);
      assert TitleMatches(c[b].book.title, "");
      assert b in q;
    }
  }

  /** Some book in the unfiltered listing carries this author name exactly when
      some stored book does; likewise for publishers. */
  lemma ListingReferences(db: Db, name: string)
    ensures (exists id :: id in BooksQuery(Catalogue(db), "", AllBooks)
               && BooksQuery(Catalogue(db), "", AllBooks)[id].book.authorName == Some(name))
        <==> (exists id :: id in db.books && db.books[id].authorName == Some(name))
    ensures (exists id :: id in BooksQuery(Catalogue(db), "", AllBooks)
               && BooksQuery(Catalogue(db), "", AllBooks)[id].book.publisherName == Some(name))
        <==> (exists id :: id in db.books && db.books[id].publisherName == Some(name))
  {
    UnfilteredQueryIsCatalogue(db);
    var q := BooksQuery(Catalogue(db), "", AllBooks);
    if exists id :: id in db.books && db.books[id].authorName == Some(name) {
      var id :| id in db.books && db.books[id].authorName == Some(name);
      assert id in q && q[id].book.authorName == Some(name);
    }
    if exists id :: id in db.books && db.books[id].publisherName == Some(name) {
      var id :| id in db.books && db.books[id].publisherName == Some(name);
      assert id in q && q[id].book.publisherName == Some(name);
    }
  }

  lemma LowerIdempotent(s: string)
    ensures Lower(Lower(s)) == Lower(s)
  {
  }

  /** The search ignores ASCII case: searching for a lower-cased term finds the same books. */
  lemma SearchIgnoresCase(rows: map<int, BookRow>, search: string, sel: Selection)
    ensures BooksQuery(rows, Lower(search), sel) == BooksQuery(rows, search, sel)
  {
    LowerIdempotent(search);
    assert |Lower(search)| == |search|;
    forall id | id in rows
      ensures TitleMatches(rows[id].book.title, Lower(search)) == TitleMatches(rows[id].book.title, search)
    {
    }
    assert BooksQuery(rows, Lower(search), sel).Keys == BooksQuery(rows, search, sel).Keys;
  }

  /** A search term only ever narrows the listing. */
  lemma SearchNarrows(rows: map<int, BookRow>, search: string, sel: Selection)
    ensures BooksQuery(rows, search, sel).Keys <= BooksQuery(rows, "", sel).Keys
    ensures forall id :: id in BooksQuery(rows, search, sel) ==> BooksQuery(rows, search, sel)[id] == rows[id]
  {
    forall id | id in BooksQuery(rows, search, sel) ensures id in BooksQuery(rows, "", sel) {
      assert TitleMatches(rows[id].book.title, "");
    }
  }

  /** A category id given as an int or as its decimal text selects the same books. */
  lemma FilterSpellingsAgree(n: int)
    requires n != 0
    ensures SelectionOf(IntFilter(n)) == SelectionOf(TextFilter(IntToString(n))) == InCategory(n)
  {
    ParseIntRoundTrip(n);
    IntToStringChars(n);
  }

  // ---------------------------------------------------------------------------
  // Cache keys

  function FilterText(f: CategoryFilter): string {
    match f
    case TextFilter(s) => s
    case IntFilter(n) => IntToString(n)
  }

  /** The key as written at models.py:342. */
  function BooksKey(search: string, f: CategoryFilter): string {
    "books:" + search + ":" + FilterText(f)
  }

  /** delete_category(0) asks for every book (0 is falsy), the /books page with
      ?category=0 asks for the books of category 0 (the text '0' is truthy); both
      are stored under "books::0", so whichever runs second within the TTL is
      served the other's rows. */
  lemma BooksKeyCollides()
    ensures BooksKey("", IntFilter(0)) == BooksKey("", TextFilter("0")) == "books::0"
    ensures SelectionOf(IntFilter(0)) == AllBooks
    ensures SelectionOf(TextFilter("0")) == InCategory(0)
    ensures var rows := map[1 := BookRow(Book("Dune", None, None, None, None, 1, 1), None)];
      BooksQuery(rows, "", AllBooks) != BooksQuery(rows, "", InCategory(0))
  {
    assert IntToString(0) == "0";
    assert ParseInt("0") == Some(0) by { ParseIntRoundTrip(0); }
    var rows := map[1 := BookRow(Book("Dune", None, None, None, None, 1, 1), None)];
    assert 1 in BooksQuery(rows, "", AllBooks);
  }

  function SelectionText(sel: Selection): string {
    match sel
    case AllBooks => ""
    case InCategory(n) => IntToString(n)
    case NoBooks => "none"
  }

  /** The corrected key: the search text and what the filter selects. */
  function SelectionKey(search: string, sel: Selection): string {
    "books:" + search + ":" + SelectionText(sel)
  }

  /** For the filters the pages send (none, or a category id as digits) the
      corrected key is the key as written. */
  lemma SelectionKeyAgrees(search: string, f: CategoryFilter)
    requires f == TextFilter("") || (f.IntFilter? && f.number != 0)
          || (f.TextFilter? && exists n :: n != 0 && f.text == IntToString(n))
    ensures SelectionKey(search, SelectionOf(f)) == BooksKey(search, f)
  {
    if f.IntFilter? {
      FilterSpellingsAgree(f.number);
    } else if f.text != "" {
      var n :| n != 0 && f.text == IntToString(n);
      FilterSpellingsAgree(n);
    }
  }

  predicate NoColon(s: string) {
    forall i :: 0 <= i < |s| ==> s[i] != ':'
  }

  lemma SelectionTextNoColon(sel: Selection)
    ensures NoColon(SelectionText(sel))
  {
    if sel.InCategory? { IntToStringChars(sel.id); }
  }

  /** How many characters follow the last colon (all of them when there is none). */
  function TrailingLen(s: string): nat {
    if s == [] || s[|s| - 1] == ':' then 0 else 1 + TrailingLen(s[..|s| - 1])
  }

  lemma {:induction false} TrailingLenAfterColon(a: string, b: string)
    requires NoColon(b)
    ensures TrailingLen(a + ":" + b) == |b|
    decreases |b|
  {
    if b != [] {
      var init := b[..|b| - 1];
      assert (a + ":" + b)[..|a + ":" + b| - 1] == a + ":" + init;
      TrailingLenAfterColon(a, init);
    }
  }

  /** A string ending in a colon-free part splits at its last colon. */
  lemma SplitAtLastColon(a1: string, b1: string, a2: string, b2: string)
    requires NoColon(b1) && NoColon(b2)
    requires a1 + ":" + b1 == a2 + ":" + b2
    ensures a1 == a2 && b1 == b2
  {
    var x := a1 + ":" + b1;
    var y := a2 + ":" + b2;
    TrailingLenAfterColon(a1, b1);
    TrailingLenAfterColon(a2, b2);
    assert a1 == x[..|a1|] && a2 == y[..|a2|];
    assert b1 == x[|a1| + 1..] && b2 == y[|a2| + 1..];
  }

  lemma SelectionTextInjective(s1: Selection, s2: Selection)
    requires SelectionText(s1) == SelectionText(s2)
    ensures s1 == s2
  {
    if s1.InCategory? { IntToStringChars(s1.id); }
    if s2.InCategory? { IntToStringChars(s2.id); }
    if s1.InCategory? && s2.InCategory? { IntToStringInjective(s1.id, s2.id); }
  }

  /** Different queries never share a corrected key. */
  lemma SelectionKeyInjective(search1: string, sel1: Selection, search2: string, sel2: Selection)
    requires SelectionKey(search1, sel1) == SelectionKey(search2, sel2)
    ensures search1 == search2 && sel1 == sel2
  {
    SelectionTextNoColon(sel1);
    SelectionTextNoColon(sel2);
    var p1, p2 := "books:" + search1, "books:" + search2;
    assert SelectionKey(search1, sel1) == p1 + ":" + SelectionText(sel1);
    assert SelectionKey(search2, sel2) == p2 + ":" + SelectionText(sel2);
    SplitAtLastColon(p1, SelectionText(sel1), p2, SelectionText(sel2));
    assert search1 == p1[6..] && search2 == p2[6..];
    SelectionTextInjective(sel1, sel2);
  }

  /** Every books key lies under the "books" prefix and outside "borrowers". */
  lemma SelectionKeyPrefixes(search: string, sel: Selection)
    ensures StartsWith(SelectionKey(search, sel), "books")
    ensures !StartsWith(SelectionKey(search, sel), "borrowers")
  {
    var k := SelectionKey(search, sel);
    assert k[..5] == "books";
    assert k[2] == 'o';
  }

  // ---------------------------------------------------------------------------
  // get_all_borrowers

  const BorrowersKey: string := "borrowers:all"

  /** A borrower with the counts of the grouped LEFT JOIN on loans. */
  datatype BorrowerSummary = BorrowerSummary(borrower: Borrower, activeLoans: nat, totalLoans: nat)

  function BorrowerSummaries(db: Db): map<int, BorrowerSummary> {
    map id | id in db.borrowers ::
      BorrowerSummary(db.borrowers[id], ActiveLoansCountForBorrower(db.loans, id), LoansCountForBorrower(db.loans, id))
  }

  /** Each row's active count is at most its total, and a borrower with no loans shows zero for both. */
  lemma SummaryCounts(db: Db, id: int)
    requires id in db.borrowers
    ensures BorrowerSummaries(db)[id].activeLoans <= BorrowerSummaries(db)[id].totalLoans
    ensures BorrowerSummaries(db)[id].totalLoans == 0 <==> forall l :: l in db.loans ==> db.loans[l].borrowerId != id
  {
  }

  lemma BorrowersKeyPrefixes()
    ensures StartsWith(BorrowersKey, "borrowers") && !StartsWith(BorrowersKey, "books")
  {
    assert BorrowersKey[..9] == "borrowers";
    assert BorrowersKey[2] == 'r';
  }

  // ---------------------------------------------------------------------------
  // Cache coherence

  /** What either read stores: its rows. */
  datatype Rows = BookRows(books: map<int, BookRow>) | BorrowerRows(borrowers: map<int, BorrowerSummary>)

  /** Every books entry holds the current answer to the query its key names, and
      the borrowers entry holds the current summaries. */
  ghost predicate CacheCoherent(db: Db, entries: map<string, Entry<Rows>>) {
    && (forall search, sel :: SelectionKey(search, sel) in entries ==>
          entries[SelectionKey(search, sel)].value == BookRows(BooksQuery(Catalogue(db), search, sel)))
    && (BorrowersKey in entries ==> entries[BorrowersKey].value == BorrowerRows(BorrowerSummaries(db)))
  }

  /** Dropping entries never breaks coherence. */
  lemma CoherentSubset(db: Db, m: map<string, Entry<Rows>>, m': map<string, Entry<Rows>>)
    requires CacheCoherent(db, m)
    requires forall k :: k in m' ==> k in m && m'[k] == m[k]
    ensures CacheCoherent(db, m')
  {
  }

  /** Coherence only depends on the catalogue and the borrower summaries. */
  lemma CoherentTransfer(db: Db, db': Db, m: map<string, Entry<Rows>>)
    requires CacheCoherent(db, m)
    requires Catalogue(db') == Catalogue(db) && BorrowerSummaries(db') == BorrowerSummaries(db)
    ensures CacheCoherent(db', m)
  {
  }

  /** After a book write and _cache_clear('books') the cache is coherent again,
      provided the borrower summaries did not change. */
  lemma CoherentAfterBooksClear(db: Db, db': Db, m: map<string, Entry<Rows>>)
    requires CacheCoherent(db, m)
    requires BorrowerSummaries(db') == BorrowerSummaries(db)
    ensures CacheCoherent(db', Cleared(m, Some("books")))
  {
    var m' := Cleared(m, Some("books"));
    forall search, sel | SelectionKey(search, sel) in m'
      ensures m'[SelectionKey(search, sel)].value == BookRows(BooksQuery(Catalogue(db'), search, sel))
    {
      SelectionKeyPrefixes(search, sel);
    }
    BorrowersKeyPrefixes();
  }

  /** After a borrower write and _cache_clear('borrowers'), provided the catalogue did not change. */
  lemma CoherentAfterBorrowersClear(db: Db, db': Db, m: map<string, Entry<Rows>>)
    requires CacheCoherent(db, m)
    requires Catalogue(db') == Catalogue(db)
    ensures CacheCoherent(db', Cleared(m, Some("borrowers")))
  {
    var m' := Cleared(m, Some("borrowers"));
    forall search, sel | SelectionKey(search, sel) in m'
      ensures m'[SelectionKey(search, sel)].value == BookRows(BooksQuery(Catalogue(db'), search, sel))
    {
      SelectionKeyPrefixes(search, sel);
    }
    BorrowersKeyPrefixes();
  }

  /** After a loan write clears both prefixes, whatever changed. */
  lemma CoherentAfterBothClears(db': Db, m: map<string, Entry<Rows>>)
    ensures CacheCoherent(db', Cleared(Cleared(m, Some("books")), Some("borrowers")))
  {
    var m' := Cleared(Cleared(m, Some("books")), Some("borrowers"));
    forall search, sel | SelectionKey(search, sel) in m'
      ensures false
    {
      SelectionKeyPrefixes(search, sel);
    }
    BorrowersKeyPrefixes();
  }

  /** Storing the current answer under its own key keeps coherence. */
  lemma CoherentAfterBooksSet(db: Db, m: map<string, Entry<Rows>>, search: string, sel: Selection, now: real)
    requires CacheCoherent(db, m)
    ensures CacheCoherent(db, m[SelectionKey(search, sel) := Entry(BookRows(BooksQuery(Catalogue(db), search, sel)), now)])
  {
    var k := SelectionKey(search, sel);
    var m' := m[k := Entry(BookRows(BooksQuery(Catalogue(db), search, sel)), now)];
    forall s, t | SelectionKey(s, t) in m'
      ensures m'[SelectionKey(s, t)].value == BookRows(BooksQuery(Catalogue(db), s, t))
    {
      if SelectionKey(s, t) == k { SelectionKeyInjective(s, t, search, sel); }
    }
    SelectionKeyPrefixes(search, sel);
    BorrowersKeyPrefixes();
  }

  lemma CoherentAfterBorrowersSet(db: Db, m: map<string, Entry<Rows>>, now: real)
    requires CacheCoherent(db, m)
    ensures CacheCoherent(db, m[BorrowersKey := Entry(BorrowerRows(BorrowerSummaries(db)), now)])
  {
    var m' := m[BorrowersKey := Entry(BorrowerRows(BorrowerSummaries(db)), now)];
    forall s, t | SelectionKey(s, t) in m'
      ensures m'[SelectionKey(s, t)].value == BookRows(BooksQuery(Catalogue(db), s, t))
    {
      SelectionKeyPrefixes(s, t);
      BorrowersKeyPrefixes();
    }
  }
}
