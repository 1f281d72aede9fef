/**
 * Values shared by every rule set: optional values (Java's nullable references),
 * the failure kinds the services raise, and the Java exception class that carries
 * each kind to the controllers.
 *
 * Dates are epoch days (`int`); record identifiers are `int`.
 */
module Common {

  /** A nullable reference: `None` is Java's `null`. */
  datatype Option<+T> = None | Some(value: T)

  /** The table a missing identifier was looked up in. */
  datatype Record = BookRecord | ReaderRecord | LibrarianRecord | LoanRecord

  /** The columns the services keep unique. */
  datatype UniqueField = InventoryNumber | TicketNumber | PhoneNumber | StaffNumber

  /** The four date checks of the loan save path, in the order they run. */
  datatype DateRule = LoanDateMissing | DueDateMissing | DueBeforeLoan | ReturnBeforeLoan

  /** Business rules that block a write. */
  datatype Blocker =
    | BookAlreadyOut      // the target book already has a loan without a return date
    | AlreadyReturned     // returnBook on a loan that has a return date
    | LoanOutstanding     // deleting a loan that has no return date
    | ActiveLoansExist    // deleting a book or reader that is on an unreturned loan
    | LoanHistoryExists   // deleting a record that some loan, returned or not, references

  /** The failure kinds; each keeps enough detail to say which check fired. */
  datatype Error =
    | NotFound(record: Record)
    | InvalidDates(rule: DateRule)
    | Duplicate(field: UniqueField)
    | Conflict(blocker: Blocker)

  /** The two exception classes the services throw. */
  datatype ExceptionClass = IllegalArgument | IllegalState

  /**
   * Missing records and date validation travel as IllegalArgumentException;
   * uniqueness violations and rule conflicts as IllegalStateException.
   */
  function Thrown(e: Error): (c: ExceptionClass)
    ensures c == IllegalArgument <==> e.NotFound? || e.InvalidDates?
    ensures c == IllegalState <==> e.Duplicate? || e.Conflict?
  {
    match e
    case NotFound(_) => IllegalArgument
    case InvalidDates(_) => IllegalArgument
    case Duplicate(_) => IllegalState
    case Conflict(_) => IllegalState
  }

  /** The outcome of a `void` service method: it returns, or it throws. */
  datatype Outcome = Done | Failed(error: Error)

  /** The outcome of a service method that returns a value or throws. */
  datatype Result<+T> = Ok(value: T) | Err(error: Error)
}
