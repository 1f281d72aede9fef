/**
 * The documented walkthroughs of the loan rules, run against the service contracts on
 * a fresh store: a book is lent, a second loan of it is refused, it is returned and
 * lent again; its reader cannot be deleted while the returned loan is on record; and a
 * second book with the same inventory number is refused while the stored book can be
 * saved again unchanged.
 */
module Scenario {
  import opened Common
  import opened BookEntity
  import opened ReaderEntity
  import opened LibrarianEntity
  import opened BookLoanEntity
  import opened Repositories
  import opened Store
  import opened BookService
  import opened ReaderService
  import opened LibrarianService
  import opened BookLoanService

  /** A fresh store holding book 1, reader 1 and librarian 1, and no loans. */
  method Stocked(d: int) returns (lib: Library)
    ensures fresh(lib) && lib.Valid()
    ensures 1 in lib.books && 1 in lib.readers && 1 in lib.librarians && lib.loans == map[]
  {
    lib := new Library();
    var b := SaveBook(lib, NewBook("B1", "X", "Y", Some(2000)), 1);
    var rd := SaveReader(lib, NewReader("R1", "N", "+1234567", d), 1);
    var lb := SaveLibrarian(lib, NewLibrarian("L1", "K", DefaultPosition), 1);
  }

  /** On a stocked store, lend book 1 on day `d` for two weeks, then try to lend it again. */
  method LendTwice(d: int) returns (lib: Library, first: Outcome, second: Outcome)
    ensures fresh(lib) && lib.Valid()
    ensures 1 in lib.books && 1 in lib.readers && 1 in lib.librarians
    ensures lib.loans == map[1 := BookLoan(Some(1), 1, 1, 1, Some(d), Some(d + 14), None)]
    ensures first == Done
    ensures second == Failed(Conflict(BookAlreadyOut))
  {
    lib := Stocked(d);
    EmptyQueries(lib.loans, 1);
    first := SaveLoan(lib, NewLoan(1, 1, 1, Some(d), Some(d + 14)), 1);
    assert lib.loans == map[1 := BookLoan(Some(1), 1, 1, 1, Some(d), Some(d + 14), None)];

    assert 1 in ActiveLoansOfBook(lib.loans, 1);
    second := SaveLoan(lib, NewLoan(1, 1, 1, Some(d), Some(d + 14)), 2);
  }

  /**
   * Lend book 1 on day `d` for two weeks, try to lend it again, return it on day
   * `d + 3` and again on day `d + 4`, try to delete its reader, then lend it again.
   */
  method LendReturnLendAgain(d: int) returns (first: Outcome, second: Outcome, returned: Outcome,
                                               returnedTwice: Outcome, readerDeleted: Outcome,
                                               again: Outcome)
    ensures first == Done
    ensures second == Failed(Conflict(BookAlreadyOut))
    ensures returned == Done
    ensures returnedTwice == Failed(Conflict(AlreadyReturned))
    ensures readerDeleted == Failed(Conflict(LoanHistoryExists))
    ensures again == Done
  {
    var lib;
    lib, first, second := LendTwice(d);

    returned := ReturnBook(lib, 1, d + 3);
    assert lib.loans == map[1 := BookLoan(Some(1), 1, 1, 1, Some(d), Some(d + 14), Some(d + 3))];
    returnedTwice := ReturnBook(lib, 1, d + 4);

    assert 1 in LoansOfReader(lib.loans, 1);
    readerDeleted := DeleteReaderById(lib, 1);

    EmptyQueries(lib.loans, 1);
    again := SaveLoan(lib, NewLoan(1, 1, 1, Some(d + 3), Some(d + 17)), 2);
  }

  /**
   * Store book "B1", then try a second book under the same inventory number, then
   * save the stored book again unchanged.
   */
  method DuplicateInventoryNumber() returns (stored: Outcome, duplicate: Outcome, resaved: Outcome)
    ensures stored == Done
    ensures duplicate == Failed(Duplicate(InventoryNumber))
    ensures resaved == Done
  {
    var lib := new Library();
    stored := SaveBook(lib, NewBook("B1", "X", "Y", Some(2000)), 1);
    assert lib.books[1].bookNumber == "B1";
    duplicate := SaveBook(lib, NewBook("B1", "Z", "W", None), 2);
    ResaveStoredBook(lib.books, 1);
    resaved := SaveBook(lib, lib.books[1], 2);
  }
}
