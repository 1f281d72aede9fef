/**
 * The loan record: a book, a reader and a librarian (by identifier) with a loan date,
 * a due date and an optional return date. "Today" is a parameter wherever the
 * record reads the clock.
 */
module BookLoanEntity {
  import opened Common

  /**
   * All three dates are nullable. A loan with no return date is outstanding.
   */
  datatype BookLoan = BookLoan(
    loanId: Option<int>,
    bookId: int,
    readerId: int,
    librarianId: int,
    loanDate: Option<int>,
    dueDate: Option<int>,
    returnDate: Option<int>)

  /**
   * The no-argument constructor on day `today`, followed by the three reference
   * setters the loan form performs: the loan date defaults to today.
   */
  function DefaultLoan(bookId: int, readerId: int, librarianId: int, today: int): (l: BookLoan)
    ensures l.loanId.None? && l.bookId == bookId && l.readerId == readerId && l.librarianId == librarianId
    ensures l.loanDate == Some(today) && l.dueDate.None?
    ensures !IsReturned(l)
  {
    BookLoan(None, bookId, readerId, librarianId, Some(today), None, None)
  }

  /** The five-argument constructor: the given references and dates, no return date. */
  function NewLoan(bookId: int, readerId: int, librarianId: int, loanDate: Option<int>, dueDate: Option<int>): (l: BookLoan)
    ensures l.loanId.None? && l.bookId == bookId && l.readerId == readerId && l.librarianId == librarianId
    ensures l.loanDate == loanDate && l.dueDate == dueDate
    ensures !IsReturned(l)
  {
    BookLoan(None, bookId, readerId, librarianId, loanDate, dueDate, None)
  }

  /** `isReturned`: a return date is present. */
  predicate IsReturned(l: BookLoan)
  {
    l.returnDate.Some?
  }

  /**
   * Setting a return date (as `returnBook` does) makes a loan returned whatever else it
   * holds, and clearing it makes the loan outstanding again: the return date alone
   * decides.
   */
  lemma ReturnDateDecides(l: BookLoan, day: int)
    ensures IsReturned(l.(returnDate := Some(day)))
    ensures !IsReturned(l.(returnDate := None))
    ensures IsReturned(l) <==> l.returnDate != None
  {
  }

  /**
   * `isOverdue` on day `today`: not returned and today is after the due date.
   * An outstanding loan without a due date makes the source dereference null, hence
   * the precondition.
   */
  predicate IsOverdue(l: BookLoan, today: int)
    requires IsReturned(l) || l.dueDate.Some?
  {
    !IsReturned(l) && today > l.dueDate.value
  }

  /**
   * `getDaysOverdue` on day `today`: zero for a returned or not overdue loan,
   * otherwise the number of days since the due date.
   */
  function DaysOverdue(l: BookLoan, today: int): (d: int)
    requires IsReturned(l) || l.dueDate.Some?
    ensures d >= 0
    ensures d > 0 <==> IsOverdue(l, today)
    ensures IsOverdue(l, today) ==> d == today - l.dueDate.value
  {
    if IsReturned(l) || !IsOverdue(l, today) then 0 else today - l.dueDate.value
  }

  /**
   * Due yesterday and outstanding: overdue by one day. Due today or tomorrow: not
   * overdue. Returned: never overdue, however late.
   */
  lemma OverdueByDueDate(l: BookLoan, today: int)
    requires !IsReturned(l) && l.dueDate.Some?
    ensures l.dueDate.value == today - 1 ==> IsOverdue(l, today) && DaysOverdue(l, today) == 1
    ensures l.dueDate.value >= today ==> !IsOverdue(l, today) && DaysOverdue(l, today) == 0
    ensures IsOverdue(l.(returnDate := Some(today)), today) == false
  {
  }
}
