/**
 * The derived queries the services ask of the store, as filters over the tables.
 * A table maps each identifier to its record; a query answers with the sub-table of
 * matching records (the source's lists, whose order the store does not promise).
 */
module Repositories {
  import opened Common
  import opened BookEntity
  import opened ReaderEntity
  import opened LibrarianEntity
  import opened BookLoanEntity

  /** The sub-table of loans that satisfy `keep`. */
  function Where(loans: map<int, BookLoan>, keep: BookLoan -> bool): (r: map<int, BookLoan>)
    ensures forall id :: id in r <==> id in loans && keep(loans[id])
    ensures forall id :: id in r ==> r[id] == loans[id]
  {
    map id | id in loans && keep(loans[id]) :: loans[id]
  }

  /** `findByReturnDateIsNull`: the outstanding loans. */
  function ActiveLoans(loans: map<int, BookLoan>): (r: map<int, BookLoan>)
    ensures forall k :: k in r <==> k in loans && !IsReturned(loans[k])
    ensures forall k :: k in r ==> r[k] == loans[k]
  {
    Where(loans, (l: BookLoan) => !IsReturned(l))
  }

  /** `findByBookBookIdAndReturnDateIsNull`: the outstanding loans of one book. */
  function ActiveLoansOfBook(loans: map<int, BookLoan>, bookId: int): (r: map<int, BookLoan>)
    ensures forall k :: k in r <==> k in loans && loans[k].bookId == bookId && !IsReturned(loans[k])
    ensures forall k :: k in r ==> r[k] == loans[k]
  {
    Where(loans, (l: BookLoan) => l.bookId == bookId && !IsReturned(l))
  }

  /** `findByBookBookId`: every loan of one book, returned or not. */
  function LoansOfBook(loans: map<int, BookLoan>, bookId: int): (r: map<int, BookLoan>)
    ensures forall k :: k in r <==> k in loans && loans[k].bookId == bookId
    ensures forall k :: k in r ==> r[k] == loans[k]
  {
    Where(loans, (l: BookLoan) => l.bookId == bookId)
  }

  /** `findByReaderReaderIdAndReturnDateIsNull`: the outstanding loans of one reader. */
  function ActiveLoansOfReader(loans: map<int, BookLoan>, readerId: int): (r: map<int, BookLoan>)
    ensures forall k :: k in r <==> k in loans && loans[k].readerId == readerId && !IsReturned(loans[k])
    ensures forall k :: k in r ==> r[k] == loans[k]
  {
    Where(loans, (l: BookLoan) => l.readerId == readerId && !IsReturned(l))
  }

  /** `findByReaderReaderId`: every loan of one reader. */
  function LoansOfReader(loans: map<int, BookLoan>, readerId: int): (r: map<int, BookLoan>)
    ensures forall k :: k in r <==> k in loans && loans[k].readerId == readerId
    ensures forall k :: k in r ==> r[k] == loans[k]
  {
    Where(loans, (l: BookLoan) => l.readerId == readerId)
  }

  /** `findByLibrarianLibrarianId`: every loan one librarian recorded. */
  function LoansOfLibrarian(loans: map<int, BookLoan>, librarianId: int): (r: map<int, BookLoan>)
    ensures forall k :: k in r <==> k in loans && loans[k].librarianId == librarianId
    ensures forall k :: k in r ==> r[k] == loans[k]
  {
    Where(loans, (l: BookLoan) => l.librarianId == librarianId)
  }

  /**
   * `findByReturnDateIsNullAndDueDateBefore(date)`: outstanding loans due strictly
   * before `date`. A null due date compares as unknown in the store and never matches.
   */
  function OutstandingDueBefore(loans: map<int, BookLoan>, date: int): (r: map<int, BookLoan>)
    ensures forall k :: k in r <==> k in loans && !IsReturned(loans[k]) && loans[k].dueDate.Some? && loans[k].dueDate.value < date
    ensures forall k :: k in r ==> r[k] == loans[k]
  {
    Where(loans, (l: BookLoan) => !IsReturned(l) && l.dueDate.Some? && l.dueDate.value < date)
  }

  /** The per-record queries only ever narrow their unfiltered counterpart. */
  lemma ActiveWithinAll(loans: map<int, BookLoan>, bookId: int, readerId: int, date: int)
    ensures ActiveLoansOfBook(loans, bookId).Keys <= LoansOfBook(loans, bookId).Keys
    ensures ActiveLoansOfBook(loans, bookId).Keys <= ActiveLoans(loans).Keys
    ensures ActiveLoansOfReader(loans, readerId).Keys <= LoansOfReader(loans, readerId).Keys
    ensures ActiveLoansOfReader(loans, readerId).Keys <= ActiveLoans(loans).Keys
    ensures OutstandingDueBefore(loans, date).Keys <= ActiveLoans(loans).Keys
  {
  }

  /** Each query is empty exactly when no loan in the table matches its condition. */
  lemma EmptyQueries(loans: map<int, BookLoan>, id: int)
    ensures LoansOfBook(loans, id) == map[] <==> forall k :: k in loans ==> loans[k].bookId != id
    ensures LoansOfReader(loans, id) == map[] <==> forall k :: k in loans ==> loans[k].readerId != id
    ensures LoansOfLibrarian(loans, id) == map[] <==> forall k :: k in loans ==> loans[k].librarianId != id
    ensures ActiveLoansOfBook(loans, id) == map[] <==>
      forall k :: k in loans && loans[k].bookId == id ==> IsReturned(loans[k])
    ensures ActiveLoansOfReader(loans, id) == map[] <==>
      forall k :: k in loans && loans[k].readerId == id ==> IsReturned(loans[k])
  {
    EmptyWhere(loans, (l: BookLoan) => l.bookId == id);
    EmptyWhere(loans, (l: BookLoan) => l.readerId == id);
    EmptyWhere(loans, (l: BookLoan) => l.librarianId == id);
    EmptyWhere(loans, (l: BookLoan) => l.bookId == id && !IsReturned(l));
    EmptyWhere(loans, (l: BookLoan) => l.readerId == id && !IsReturned(l));
  }

  /** A filter is empty exactly when no entry satisfies it. */
  lemma EmptyWhere(loans: map<int, BookLoan>, keep: BookLoan -> bool)
    ensures Where(loans, keep) == map[] <==> forall k :: k in loans ==> !keep(loans[k])
  {
    if forall k :: k in loans ==> !keep(loans[k]) {
      assert Where(loans, keep).Keys == {};
    } else {
      var k :| k in loans && keep(loans[k]);
      assert k in Where(loans, keep);
    }
  }

  /**
   * The stored query behind the overdue list agrees with the record's own overdue
   * test, for every loan that has a due date.
   */
  lemma OverdueQueryMatchesEntity(loans: map<int, BookLoan>, today: int)
    requires forall k :: k in loans ==> loans[k].dueDate.Some?
    ensures forall k :: k in OutstandingDueBefore(loans, today) <==> k in loans && IsOverdue(loans[k], today)
  {
  }

  // ----- lookups by a unique field -----

  /** At most one book holds each inventory number. */
  ghost predicate UniqueBookNumbers(books: map<int, Book>)
  {
    forall i, j :: i in books && j in books && books[i].bookNumber == books[j].bookNumber ==> i == j
  }

  /** At most one reader holds each ticket number and each phone number. */
  ghost predicate UniqueReaderKeys(readers: map<int, Reader>)
  {
    && (forall i, j :: i in readers && j in readers && readers[i].ticketNumber == readers[j].ticketNumber ==> i == j)
    && (forall i, j :: i in readers && j in readers && readers[i].phoneNumber == readers[j].phoneNumber ==> i == j)
  }

  /** At most one librarian holds each staff number. */
  ghost predicate UniqueStaffNumbers(librarians: map<int, Librarian>)
  {
    forall i, j :: i in librarians && j in librarians && librarians[i].librarianNumber == librarians[j].librarianNumber ==> i == j
  }

  /**
   * `findByBookNumber`: the identifier of the one book with that inventory number, or
   * `None` (the source's `null`). The uniqueness constraint makes the answer unique.
   */
  function FindByBookNumber(books: map<int, Book>, bookNumber: string): (r: Option<int>)
    requires UniqueBookNumbers(books)
    ensures r.Some? ==> r.value in books && books[r.value].bookNumber == bookNumber
    ensures r.None? <==> forall k :: k in books ==> books[k].bookNumber != bookNumber
  {
    if exists k :: k in books && books[k].bookNumber == bookNumber then
      Some(var k :| k in books && books[k].bookNumber == bookNumber; k)
    else
      None
  }

  /** `findByTicketNumber`. */
  function FindByTicketNumber(readers: map<int, Reader>, ticketNumber: string): (r: Option<int>)
    requires UniqueReaderKeys(readers)
    ensures r.Some? ==> r.value in readers && readers[r.value].ticketNumber == ticketNumber
    ensures r.None? <==> forall k :: k in readers ==> readers[k].ticketNumber != ticketNumber
  {
    if exists k :: k in readers && readers[k].ticketNumber == ticketNumber then
      Some(var k :| k in readers && readers[k].ticketNumber == ticketNumber; k)
    else
      None
  }

  /** `findByPhoneNumber`. */
  function FindByPhoneNumber(readers: map<int, Reader>, phoneNumber: string): (r: Option<int>)
    requires UniqueReaderKeys(readers)
    ensures r.Some? ==> r.value in readers && readers[r.value].phoneNumber == phoneNumber
    ensures r.None? <==> forall k :: k in readers ==> readers[k].phoneNumber != phoneNumber
  {
    if exists k :: k in readers && readers[k].phoneNumber == phoneNumber then
      Some(var k :| k in readers && readers[k].phoneNumber == phoneNumber; k)
    else
      None
  }

  /** `findByLibrarianNumber`. */
  function FindByLibrarianNumber(librarians: map<int, Librarian>, librarianNumber: string): (r: Option<int>)
    requires UniqueStaffNumbers(librarians)
    ensures r.Some? ==> r.value in librarians && librarians[r.value].librarianNumber == librarianNumber
    ensures r.None? <==> forall k :: k in librarians ==> librarians[k].librarianNumber != librarianNumber
  {
    if exists k :: k in librarians && librarians[k].librarianNumber == librarianNumber then
      Some(var k :| k in librarians && librarians[k].librarianNumber == librarianNumber; k)
    else
      None
  }
}
