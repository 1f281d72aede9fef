/**
 * The book rules: inventory-number uniqueness on save, lookup by identifier, and the
 * deletion guard that keeps every book a loan refers to.
 */
module BookService {
  import opened Common
  import opened Text
  import opened BookEntity
  import opened BookLoanEntity
  import opened Repositories
  import opened Store

  /** `getBookById`: the stored book, or not-found. */
  function GetBookById(books: map<int, Book>, id: int): (r: Result<Book>)
    ensures r.Ok? <==> id in books
    ensures r.Ok? ==> r.value == books[id]
    ensures r.Err? ==> r.error == NotFound(BookRecord)
  {
    if id in books then Ok(books[id]) else Err(NotFound(BookRecord))
  }

  /**
   * Saving `book` would duplicate an inventory number: some stored book holds it and
   * is not `book` itself (on a create, any holder counts).
   */
  ghost predicate BookNumberTaken(books: map<int, Book>, book: Book)
  {
    exists k :: k in books && books[k].bookNumber == book.bookNumber && book.bookId != Some(k)
  }

  /**
   * `saveBook`. A create (no identifier) fails on any holder of the inventory number,
   * an update only on a holder with another identifier. A failure writes nothing; a
   * success stores the record under its key. `newId` is the identifier the store
   * generates for a new record.
   */
  method SaveBook(lib: Library, book: Book, newId: int) returns (r: Outcome)
    requires lib.Valid()
    requires book.bookId.None? ==> newId !in lib.books
    modifies lib`books
    ensures lib.Valid()
    ensures r.Failed? <==> BookNumberTaken(old(lib.books), book)
    ensures r.Failed? ==> r.error == Duplicate(InventoryNumber) && lib.books == old(lib.books)
    ensures r.Done? ==>
      var key := SaveKey(book.bookId, newId);
      lib.books == old(lib.books)[key := book.(bookId := Some(key))]
  {
    if book.bookId.None? {
      var existing := FindByBookNumber(lib.books, book.bookNumber);
      if existing.Some? {
        return Failed(Duplicate(InventoryNumber));
      }
    } else {
      var existing := FindByBookNumber(lib.books, book.bookNumber);
      if existing.Some? && existing.value != book.bookId.value {
        return Failed(Duplicate(InventoryNumber));
      }
      if existing.Some? {
        // the one holder is this very book
        assert !BookNumberTaken(lib.books, book);
      }
    }
    var key := SaveKey(book.bookId, newId);
    lib.books := lib.books[key := book.(bookId := Some(key))];
    r := Done;
  }

  /** Saving a stored book again, unchanged, never meets a duplicate. */
  lemma ResaveStoredBook(books: map<int, Book>, id: int)
    requires UniqueBookNumbers(books)
    requires forall k :: k in books ==> books[k].bookId == Some(k)
    requires id in books
    ensures !BookNumberTaken(books, books[id])
  {
  }

  /**
   * `canDeleteBook`: neither an outstanding loan nor any loan at all refers to the
   * book. The first test is implied by the second.
   */
  function CanDeleteBook(loans: map<int, BookLoan>, id: int): (ok: bool)
    ensures ok <==> forall k :: k in loans ==> loans[k].bookId != id
    ensures ok <==> LoansOfBook(loans, id) == map[]
  {
    EmptyQueries(loans, id);
    ActiveWithinAll(loans, id, id, 0);
    ActiveLoansOfBook(loans, id) == map[] && LoansOfBook(loans, id) == map[]
  }

  /**
   * `deleteBookById`: not-found first, then a conflict while the book is out, then a
   * conflict while any loan of it is on record. Only a success removes the book; the
   * loans are never touched.
   */
  method DeleteBookById(lib: Library, id: int) returns (r: Outcome)
    requires lib.Valid()
    modifies lib`books
    ensures lib.Valid()
    ensures id !in old(lib.books) ==> r == Failed(NotFound(BookRecord))
    ensures id in old(lib.books) && ActiveLoansOfBook(lib.loans, id) != map[] ==>
      r == Failed(Conflict(ActiveLoansExist))
    ensures id in old(lib.books) && ActiveLoansOfBook(lib.loans, id) == map[] && LoansOfBook(lib.loans, id) != map[] ==>
      r == Failed(Conflict(LoanHistoryExists))
    ensures r.Done? <==> id in old(lib.books) && CanDeleteBook(lib.loans, id)
    ensures r.Done? ==> lib.books == old(lib.books) - {id}
    ensures r.Failed? ==> lib.books == old(lib.books)
  {
    var found := GetBookById(lib.books, id);
    if found.Err? {
      return Failed(found.error);
    }
    if ActiveLoansOfBook(lib.loans, id) != map[] {
      return Failed(Conflict(ActiveLoansExist));
    }
    if LoansOfBook(lib.loans, id) != map[] {
      return Failed(Conflict(LoanHistoryExists));
    }
    assert CanDeleteBook(lib.loans, id);
    lib.books := lib.books - {id};
    r := Done;
  }

  /**
   * `searchBooks`. A missing or blank keyword lists every book; otherwise the store's
   * case-insensitive title match, `titleContains(title, keyword)`, decides.
   */
  function SearchBooks(books: map<int, Book>, keyword: Option<string>,
                       titleContains: (string, string) -> bool): (r: map<int, Book>)
    ensures keyword.None? || IsBlank(keyword.value) ==> r == books
    ensures keyword.Some? && !IsBlank(keyword.value) ==>
      forall k :: k in r <==> k in books && titleContains(books[k].title, keyword.value)
    ensures forall k :: k in r ==> k in books && r[k] == books[k]
  {
    if keyword.None? then
      books
    else
      TrimEmptyIffBlank(keyword.value);
      if Trim(keyword.value) == [] then
        books
      else
        map k | k in books && titleContains(books[k].title, keyword.value) :: books[k]
  }

  /** `existsByBookNumber`: some stored book holds the inventory number. */
  function ExistsByBookNumber(books: map<int, Book>, bookNumber: string): (b: bool)
    requires UniqueBookNumbers(books)
    ensures b <==> exists k :: k in books && books[k].bookNumber == bookNumber
  {
    FindByBookNumber(books, bookNumber) != None
  }

  /**
   * The list view sets a book's active counter to the size of its outstanding-loan
   * query; then `isAvailable` holds exactly when the book is not out.
   */
  lemma AvailableIffNotOut(loans: map<int, BookLoan>, b: Book, id: int)
    requires b.activeLoansCount == |ActiveLoansOfBook(loans, id)|
    ensures IsAvailable(b) <==> forall k :: k in loans && loans[k].bookId == id ==> IsReturned(loans[k])
  {
    EmptyQueries(loans, id);
    var active := ActiveLoansOfBook(loans, id);
    assert |active| == |active.Keys|;
    if active.Keys == {} {
      assert active == map[];
    }
  }
}
