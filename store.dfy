/**
 * The relational store behind the four services: one table per record type, keyed by
 * identifier, and the integrity conditions the services keep on it.
 */
module Store {
  import opened Common
  import opened BookEntity
  import opened ReaderEntity
  import opened LibrarianEntity
  import opened BookLoanEntity
  import opened Repositories

  /** The date constraints every loan has passed before it is written. */
  predicate WellDated(l: BookLoan)
  {
    && l.loanDate.Some?
    && l.dueDate.Some?
    && l.dueDate.value >= l.loanDate.value
    && (l.returnDate.Some? ==> l.returnDate.value >= l.loanDate.value)
  }

  /** Every stored record carries the identifier it is stored under. */
  ghost predicate KeysMatch(books: map<int, Book>, readers: map<int, Reader>,
                            librarians: map<int, Librarian>, loans: map<int, BookLoan>)
  {
    && (forall k :: k in books ==> books[k].bookId == Some(k))
    && (forall k :: k in readers ==> readers[k].readerId == Some(k))
    && (forall k :: k in librarians ==> librarians[k].librarianId == Some(k))
    && (forall k :: k in loans ==> loans[k].loanId == Some(k))
  }

  /** Every loan refers to a book, a reader and a librarian that are in the store. */
  ghost predicate ReferencesResolve(books: map<int, Book>, readers: map<int, Reader>,
                                    librarians: map<int, Librarian>, loans: map<int, BookLoan>)
  {
    forall k :: k in loans ==>
      && loans[k].bookId in books
      && loans[k].readerId in readers
      && loans[k].librarianId in librarians
  }

  /** The conditions the rule layer maintains on the store. */
  ghost predicate Consistent(books: map<int, Book>, readers: map<int, Reader>,
                             librarians: map<int, Librarian>, loans: map<int, BookLoan>)
  {
    && KeysMatch(books, readers, librarians, loans)
    && UniqueBookNumbers(books)
    && UniqueReaderKeys(readers)
    && UniqueStaffNumbers(librarians)
    && ReferencesResolve(books, readers, librarians, loans)
    && (forall k :: k in loans ==> WellDated(loans[k]))
  }

  /**
   * The loan invariant: no book is on two outstanding loans. The update path of the
   * loan save can break it (an edit that clears the return date of a returned loan is
   * not checked), so it is kept apart from `Consistent` and stated per operation.
   */
  ghost predicate AtMostOneOutstanding(loans: map<int, BookLoan>)
  {
    forall i, j ::
      (i in loans && j in loans && !IsReturned(loans[i]) && !IsReturned(loans[j])
       && loans[i].bookId == loans[j].bookId) ==> i == j
  }

  /** The invariant says each book's outstanding-loan query holds at most one loan. */
  lemma {:induction false} AtMostOneOutstandingPerBook(loans: map<int, BookLoan>, bookId: int)
    requires AtMostOneOutstanding(loans)
    ensures |ActiveLoansOfBook(loans, bookId)| <= 1
  {
    var active := ActiveLoansOfBook(loans, bookId);
    if exists k :: k in loans && loans[k].bookId == bookId && !IsReturned(loans[k]) {
      var k :| k in loans && loans[k].bookId == bookId && !IsReturned(loans[k]);
      assert k in active;
      forall j | j in active.Keys ensures j == k {
        assert loans[j].bookId == bookId && !IsReturned(loans[j]);
      }
      assert active.Keys == {k};
    } else {
      assert active.Keys == {};
    }
    assert |active| == |active.Keys|;
  }

  /**
   * Writing loan `l` under `key` keeps the invariant when `l` is returned, or when
   * no other outstanding loan shares its book.
   */
  lemma SaveKeepsOneOutstanding(loans: map<int, BookLoan>, key: int, l: BookLoan)
    requires AtMostOneOutstanding(loans)
    requires !IsReturned(l) ==>
      forall k :: k in loans && k != key && loans[k].bookId == l.bookId ==> IsReturned(loans[k])
    ensures AtMostOneOutstanding(loans[key := l])
  {
  }

  /** The key a save writes under: the record's own identifier, or the generated one. */
  function SaveKey(id: Option<int>, newId: int): int
  {
    if id.Some? then id.value else newId
  }

  /** The store the services share: four tables that the services update in place. */
  class Library {
    var books: map<int, Book>
    var readers: map<int, Reader>
    var librarians: map<int, Librarian>
    var loans: map<int, BookLoan>

    /** An empty store. */
    constructor ()
      ensures books == map[] && readers == map[] && librarians == map[] && loans == map[]
      ensures Valid() && AtMostOneOutstanding(loans)
    {
      books, readers, librarians, loans := map[], map[], map[], map[];
    }

    ghost predicate Valid()
      reads this
    {
      Consistent(books, readers, librarians, loans)
    }
  }
}
