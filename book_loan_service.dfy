/**
 * The loan rules: the ordered checks of a save (references, dates, book already out),
 * the one-way Outstanding -> Returned transition, deletion of returned loans only, and
 * the active and overdue lists. "Today" is a parameter.
 */
module BookLoanService {
  import opened Common
  import opened BookEntity
  import opened ReaderEntity
  import opened LibrarianEntity
  import opened BookLoanEntity
  import opened Repositories
  import opened Store

  /** `getLoanById`: the stored loan, or not-found. */
  function GetLoanById(loans: map<int, BookLoan>, id: int): (r: Result<BookLoan>)
    ensures r.Ok? <==> id in loans
    ensures r.Ok? ==> r.value == loans[id]
    ensures r.Err? ==> r.error == NotFound(LoanRecord)
  {
    if id in loans then Ok(loans[id]) else Err(NotFound(LoanRecord))
  }

  /**
   * The date checks of a save, in order: loan date present, due date present, due date
   * not before the loan date, return date (when present) not before the loan date.
   * The first failing check is reported.
   */
  function DateError(l: BookLoan): (e: Option<DateRule>)
    ensures e.None? <==> WellDated(l)
    ensures e == Some(LoanDateMissing) <==> l.loanDate.None?
    ensures e == Some(DueDateMissing) <==> l.loanDate.Some? && l.dueDate.None?
    ensures e == Some(DueBeforeLoan) <==>
      l.loanDate.Some? && l.dueDate.Some? && l.dueDate.value < l.loanDate.value
    ensures e == Some(ReturnBeforeLoan) <==>
      && l.loanDate.Some? && l.dueDate.Some? && l.dueDate.value >= l.loanDate.value
      && l.returnDate.Some? && l.returnDate.value < l.loanDate.value
  {
    if l.loanDate.None? then Some(LoanDateMissing)
    else if l.dueDate.None? then Some(DueDateMissing)
    else if l.dueDate.value < l.loanDate.value then Some(DueBeforeLoan)
    else if l.returnDate.Some? && l.returnDate.value < l.loanDate.value then Some(ReturnBeforeLoan)
    else None
  }

  /**
   * A loan due on the day it is made passes the date checks, whether it is outstanding
   * or returned on or after that day.
   */
  lemma DueOnLoanDayAccepted(l: BookLoan)
    requires l.loanDate.Some? && l.dueDate == l.loanDate
    requires l.returnDate.Some? ==> l.returnDate.value >= l.loanDate.value
    ensures DateError(l) == None
  {
  }

  /**
   * The edit moves a still-outstanding stored loan to another book: the only update
   * that looks for the new book's outstanding loans.
   */
  predicate Retargets(stored: BookLoan, loan: BookLoan)
  {
    stored.bookId != loan.bookId && !IsReturned(stored)
  }

  /** The loan passes the reference and date checks that run before any loan lookup. */
  predicate Passes(books: map<int, Book>, readers: map<int, Reader>, librarians: map<int, Librarian>,
                   loan: BookLoan)
  {
    loan.bookId in books && loan.readerId in readers && loan.librarianId in librarians && WellDated(loan)
  }

  /**
   * The checks of `saveLoan`, in the order they run, on the tables as they stand:
   * the book, reader and librarian exist (not-found); the dates (validation); on a
   * create, the book has no outstanding loan; on an update, the stored loan exists and,
   * if it is outstanding and moves to another book, that book has no outstanding loan
   * (conflict). `None` means every check passed.
   */
  function SaveLoanError(books: map<int, Book>, readers: map<int, Reader>, librarians: map<int, Librarian>,
                         loans: map<int, BookLoan>, loan: BookLoan): (e: Option<Error>)
    ensures loan.bookId !in books ==> e == Some(NotFound(BookRecord))
    ensures loan.bookId in books && loan.readerId !in readers ==> e == Some(NotFound(ReaderRecord))
    ensures loan.bookId in books && loan.readerId in readers && loan.librarianId !in librarians ==>
      e == Some(NotFound(LibrarianRecord))
    ensures e.Some? && e.value.InvalidDates? ==>
      && loan.bookId in books && loan.readerId in readers && loan.librarianId in librarians
      && DateError(loan) == Some(e.value.rule)
    ensures (loan.bookId in books && loan.readerId in readers && loan.librarianId in librarians
             && DateError(loan).Some?) ==> e == Some(InvalidDates(DateError(loan).value))
    ensures e.Some? && (e.value.Conflict? || e.value == NotFound(LoanRecord)) ==> WellDated(loan)
    ensures e.Some? ==> e.value.NotFound? || e.value.InvalidDates? || e.value == Conflict(BookAlreadyOut)
    ensures loan.loanId.None? && e.Some? && e.value.Conflict? ==> ActiveLoansOfBook(loans, loan.bookId) != map[]
    ensures loan.loanId.Some? && e.Some? && e.value.Conflict? ==>
      loan.loanId.value in loans && Retargets(loans[loan.loanId.value], loan)
      && ActiveLoansOfBook(loans, loan.bookId) != map[]
    ensures e == Some(NotFound(LoanRecord)) ==> loan.loanId.Some? && loan.loanId.value !in loans
    ensures (Passes(books, readers, librarians, loan) && loan.loanId.None?
             && ActiveLoansOfBook(loans, loan.bookId) != map[]) ==> e == Some(Conflict(BookAlreadyOut))
    ensures (Passes(books, readers, librarians, loan) && loan.loanId.Some?
             && loan.loanId.value !in loans) ==> e == Some(NotFound(LoanRecord))
    ensures (Passes(books, readers, librarians, loan) && loan.loanId.Some? && loan.loanId.value in loans
             && Retargets(loans[loan.loanId.value], loan)
             && ActiveLoansOfBook(loans, loan.bookId) != map[]) ==> e == Some(Conflict(BookAlreadyOut))
    ensures e.None? <==>
      && loan.bookId in books && loan.readerId in readers && loan.librarianId in librarians
      && WellDated(loan)
      && (loan.loanId.None? ==> ActiveLoansOfBook(loans, loan.bookId) == map[])
      && (loan.loanId.Some? ==>
            && loan.loanId.value in loans
            && (Retargets(loans[loan.loanId.value], loan) ==> ActiveLoansOfBook(loans, loan.bookId) == map[]))
  {
    if loan.bookId !in books then Some(NotFound(BookRecord))
    else if loan.readerId !in readers then Some(NotFound(ReaderRecord))
    else if loan.librarianId !in librarians then Some(NotFound(LibrarianRecord))
    else if DateError(loan).Some? then Some(InvalidDates(DateError(loan).value))
    else if loan.loanId.None? then
      if ActiveLoansOfBook(loans, loan.bookId) != map[] then Some(Conflict(BookAlreadyOut)) else None
    else
      match GetLoanById(loans, loan.loanId.value)
      case Err(notFound) => Some(notFound)
      case Ok(existing) =>
        if Retargets(existing, loan) && ActiveLoansOfBook(loans, loan.bookId) != map[] then
          Some(Conflict(BookAlreadyOut))
        else
          None
  }

  /**
   * A create that passes the checks never puts a book on a second outstanding loan,
   * nor does an update of a loan that was outstanding, nor one that leaves the loan
   * returned.
   */
  lemma PassedSaveKeepsOneOutstanding(books: map<int, Book>, readers: map<int, Reader>,
                                      librarians: map<int, Librarian>, loans: map<int, BookLoan>,
                                      loan: BookLoan, key: int)
    requires SaveLoanError(books, readers, librarians, loans, loan).None?
    requires AtMostOneOutstanding(loans)
    requires (loan.loanId.None? && key !in loans) || loan.loanId == Some(key)
    requires loan.loanId.None? || IsReturned(loan) || !IsReturned(loans[key])
    ensures AtMostOneOutstanding(loans[key := loan.(loanId := Some(key))])
  {
    EmptyQueries(loans, loan.bookId);
    SaveKeepsOneOutstanding(loans, key, loan.(loanId := Some(key)));
  }

  /** Writing a loan that passed the checks keeps the store consistent. */
  lemma PassedSaveKeepsConsistent(books: map<int, Book>, readers: map<int, Reader>,
                                  librarians: map<int, Librarian>, loans: map<int, BookLoan>,
                                  loan: BookLoan, key: int)
    requires Consistent(books, readers, librarians, loans)
    requires SaveLoanError(books, readers, librarians, loans, loan).None?
    ensures Consistent(books, readers, librarians, loans[key := loan.(loanId := Some(key))])
  {
  }

  /**
   * `saveLoan`: the checks of `SaveLoanError`, then the write. A failure leaves the
   * loans as they were; a success writes the loan under its key and nothing else.
   * `newId` is the identifier the store generates for a new loan.
   */
  method SaveLoan(lib: Library, loan: BookLoan, newId: int) returns (r: Outcome)
    requires lib.Valid()
    requires loan.loanId.None? ==> newId !in lib.loans
    modifies lib`loans
    ensures lib.Valid()
    ensures var e := SaveLoanError(lib.books, lib.readers, lib.librarians, old(lib.loans), loan);
            r == if e.Some? then Failed(e.value) else Done
    ensures r.Failed? ==> lib.loans == old(lib.loans)
    ensures r.Done? ==>
      var key := SaveKey(loan.loanId, newId);
      lib.loans == old(lib.loans)[key := loan.(loanId := Some(key))]
    ensures (r.Done? && old(AtMostOneOutstanding(lib.loans)) &&
             (loan.loanId.None? || IsReturned(loan) || !IsReturned(old(lib.loans)[loan.loanId.value]))) ==>
      AtMostOneOutstanding(lib.loans)
  {
    var e := SaveLoanError(lib.books, lib.readers, lib.librarians, lib.loans, loan);
    if e.Some? {
      return Failed(e.value);
    }
    var key := SaveKey(loan.loanId, newId);
    PassedSaveKeepsConsistent(lib.books, lib.readers, lib.librarians, lib.loans, loan, key);
    if AtMostOneOutstanding(lib.loans) && (loan.loanId.None? || IsReturned(loan) || !IsReturned(lib.loans[key])) {
      PassedSaveKeepsOneOutstanding(lib.books, lib.readers, lib.librarians, lib.loans, loan, key);
    }
    lib.loans := lib.loans[key := loan.(loanId := Some(key))];
    r := Done;
  }

  /**
   * `deleteLoanById`: not-found for an unknown loan, a conflict for an outstanding
   * one; a returned loan is removed and nothing else changes.
   */
  method DeleteLoanById(lib: Library, id: int) returns (r: Outcome)
    requires lib.Valid()
    modifies lib`loans
    ensures lib.Valid()
    ensures id !in old(lib.loans) ==> r == Failed(NotFound(LoanRecord))
    ensures id in old(lib.loans) && !IsReturned(old(lib.loans)[id]) ==> r == Failed(Conflict(LoanOutstanding))
    ensures r.Done? <==> CanDeleteLoan(old(lib.loans), id) == Ok(true)
    ensures r.Done? ==> lib.loans == old(lib.loans) - {id}
    ensures r.Failed? ==> lib.loans == old(lib.loans)
    ensures old(AtMostOneOutstanding(lib.loans)) ==> AtMostOneOutstanding(lib.loans)
  {
    var found := GetLoanById(lib.loans, id);
    if found.Err? {
      return Failed(found.error);
    }
    if !IsReturned(found.value) {
      return Failed(Conflict(LoanOutstanding));
    }
    lib.loans := lib.loans - {id};
    r := Done;
  }

  /**
   * `returnBook` on day `today`: not-found for an unknown loan, a conflict for one
   * already returned; otherwise the return date becomes today and the loan goes through
   * the save checks again, where a loan date after today fails validation. On success
   * only that loan changes, and only its return date.
   */
  method ReturnBook(lib: Library, loanId: int, today: int) returns (r: Outcome)
    requires lib.Valid()
    modifies lib`loans
    ensures lib.Valid()
    ensures loanId !in old(lib.loans) ==> r == Failed(NotFound(LoanRecord))
    ensures loanId in old(lib.loans) && IsReturned(old(lib.loans)[loanId]) ==> r == Failed(Conflict(AlreadyReturned))
    ensures loanId in old(lib.loans) && !IsReturned(old(lib.loans)[loanId]) ==>
      (r.Done? <==> old(lib.loans)[loanId].loanDate.value <= today)
    ensures r.Failed? && loanId in old(lib.loans) && !IsReturned(old(lib.loans)[loanId]) ==>
      r == Failed(InvalidDates(ReturnBeforeLoan))
    ensures r.Done? ==> lib.loans == old(lib.loans)[loanId := old(lib.loans)[loanId].(returnDate := Some(today))]
    ensures r.Failed? ==> lib.loans == old(lib.loans)
    ensures old(AtMostOneOutstanding(lib.loans)) ==> AtMostOneOutstanding(lib.loans)
  {
    var found := GetLoanById(lib.loans, loanId);
    if found.Err? {
      return Failed(found.error);
    }
    var loan := found.value;
    if IsReturned(loan) {
      return Failed(Conflict(AlreadyReturned));
    }
    // The nested save sees this same loan, now returned, as the stored one; the book is
    // unchanged, so its update path never looks for outstanding loans either way.
    r := SaveLoan(lib, loan.(returnDate := Some(today)), loanId);
  }

  /** `canDeleteLoan`: not-found for an unknown loan, otherwise whether it is returned. */
  function CanDeleteLoan(loans: map<int, BookLoan>, id: int): (r: Result<bool>)
    ensures r.Ok? <==> id in loans
    ensures r.Ok? ==> (r.value <==> IsReturned(loans[id]))
    ensures r.Err? ==> r.error == NotFound(LoanRecord)
  {
    match GetLoanById(loans, id)
    case Ok(loan) => Ok(IsReturned(loan))
    case Err(e) => Err(e)
  }

  /** `getActiveLoans`: exactly the stored loans without a return date. */
  function GetActiveLoans(loans: map<int, BookLoan>): (r: map<int, BookLoan>)
    ensures forall k :: k in r <==> k in loans && !IsReturned(loans[k])
    ensures forall k :: k in r ==> r[k] == loans[k]
  {
    ActiveLoans(loans)
  }

  /**
   * `getOverdueLoans` on day `today`: outstanding loans due strictly before today,
   * which for loans with a due date are exactly the ones the record calls overdue.
   */
  function GetOverdueLoans(loans: map<int, BookLoan>, today: int): (r: map<int, BookLoan>)
    ensures forall k :: k in r ==> k in loans && r[k] == loans[k] && loans[k].dueDate.Some? && IsOverdue(loans[k], today)
    ensures forall k :: k in loans && loans[k].dueDate.Some? && IsOverdue(loans[k], today) ==> k in r
    ensures r.Keys <= GetActiveLoans(loans).Keys
  {
    OutstandingDueBefore(loans, today)
  }

  /**
   * The update path does not look at outstanding loans when the stored loan is already
   * returned and keeps its book: an edit that clears the return date of loan 1 while
   * loan 2 is out on the same book passes every check of the save and leaves that book
   * on two outstanding loans.
   */
  lemma ReopeningReturnedLoanUnchecked()
    ensures var books := map[7 := Book(Some(7), "INV-7", "T", "A", None, 0, 0)];
            var readers := map[1 := Reader(Some(1), "R-1", "N", "+1234567", None, 0, 0),
                               2 := Reader(Some(2), "R-2", "M", "+7654321", None, 0, 0)];
            var librarians := map[1 := Librarian(Some(1), "L-1", "K", DefaultPosition, 0)];
            var returned := BookLoan(Some(1), 7, 1, 1, Some(0), Some(14), Some(3));
            var out := BookLoan(Some(2), 7, 2, 1, Some(5), Some(19), None);
            var loans := map[1 := returned, 2 := out];
            var reopened := returned.(returnDate := None);
            && Consistent(books, readers, librarians, loans)
            && AtMostOneOutstanding(loans)
            && SaveLoanError(books, readers, librarians, loans, reopened) == None
            && !AtMostOneOutstanding(loans[1 := reopened])
  {
    var returned := BookLoan(Some(1), 7, 1, 1, Some(0), Some(14), Some(3));
    var out := BookLoan(Some(2), 7, 2, 1, Some(5), Some(19), None);
    var loans := map[1 := returned, 2 := out];
    var reopened := returned.(returnDate := None);
    assert loans[1 := reopened][1] == reopened && loans[1 := reopened][2] == out;
  }
}
