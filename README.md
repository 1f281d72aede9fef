# Library loan rules in Dafny

This project models the domain rule layer of a small library-loan system (a Spring
application). It keeps four tables: books, readers, librarians and book loans. Four
services guard every write to them:

- **Uniqueness on save.** The inventory number of a book, the ticket and phone numbers of
  a reader and the staff number of a librarian must each be unique. A create fails on
  any holder of the value. An update fails only on a holder with another identifier.
- **Deletion guards.** A book, reader or librarian stays while any loan refers to it,
  returned or not. A loan can be deleted only once it is returned.
- **The loan save.** It checks, in order:
  - that the book, reader and librarian exist;
  - four date rules;
  - "book already out", on a create, or on an update that moves a still-outstanding
    loan to another book.
  `returnBook` sets the return date to today and saves the loan again.

The store is the class `Store.Library`. It holds one `map<int, _>` per table. The
services are methods that take the store and change only their own table. Each method
states its new state and failure kind in its postcondition. The pure parts are
functions and lemmas:

- the records and their field constraints;
- Java's `String.trim` and the phone-number pattern;
- the repository's derived queries, as filters over the loan table (the services' loan
  getters, such as `getActiveBookLoans`, return these queries unchanged);
- the can-delete tests;
- the date checks and the ordered checks of the loan save.

The store invariant `Store.Consistent` is preserved by every write. It says:

- records carry their own key;
- unique numbers are unique;
- every loan's references resolve;
- every stored loan passed the date checks.

"At most one outstanding loan per book" is stated apart from it. The create path keeps
it, and so do `returnBook`, the loan delete and every update that leaves the stored loan
outstanding or the loan returned. `BookLoanService.ReopeningReturnedLoanUnchecked`
exhibits the one update the source does not check.

Dates are epoch days. "Today" is a parameter. Failures are values (`Common.Outcome`,
`Common.Result`), and `Common.Thrown` maps each failure kind to the exception class the
source throws.

## Model

The one-expression predicates have no row of their own; the rows of the lemmas that
state their meaning stand for them:

- `BookEntity.IsAvailable`: `BookService.AvailableIffNotOut`.
- `ReaderEntity.HasActiveLoans`: `ReaderService.HasActiveLoansIffOut`.
- `LibrarianEntity.HasLoans`: `LibrarianService.HasLoansIffUndeletable`.
- `BookEntity.ValidBook`, `ReaderEntity.ValidReader` and `LibrarianEntity.ValidLibrarian`:
  `ValidBookMeaning`, `ValidReaderPhone` and `ValidLibrarianMeaning`.
- `ReaderEntity.PhonePattern` and `ReaderEntity.PhoneBody`: `PhonePatternMeaning` and
  `PhoneBodyIsRun`.
- `Text.Trim`: `Text.TrimEmptyIffBlank`, with `TrimStart` and `TrimEnd`.
- `BookLoanEntity.IsReturned`: `BookLoanEntity.ReturnDateDecides`.
- `BookLoanEntity.IsOverdue`: `BookLoanEntity.OverdueByDueDate` and `BookLoanEntity.DaysOverdue`.

| member | source | states |
|---|---|---|
| Common.Thrown | src/main/java/com/library/library_system/service/BookLoanService.java:66-106 | missing records and date violations are IllegalArgumentException; duplicates and conflicts are IllegalStateException, and nothing else is |
| Text.TrimStart | src/main/java/com/library/library_system/service/BookService.java:104 | `trim` drops exactly a leading run of characters at or below U+0020 and stops at the first character above it |
| Text.TrimEnd | src/main/java/com/library/library_system/service/BookService.java:104 | `trim` drops exactly a trailing run of characters at or below U+0020 |
| Text.TrimEmptyIffBlank | src/main/java/com/library/library_system/service/BookService.java:104 | `keyword.trim().isEmpty()` holds exactly when every character is at or below U+0020 |
| Text.NotBlankMeaning | src/main/java/com/library/library_system/entity/Book.java:19-29 | the not-blank constraint holds exactly when some character survives `trim` |
| BookEntity.NewBook | src/main/java/com/library/library_system/entity/Book.java:36-57 | the four-argument constructor stores exactly the given number, title, author and year, with no identifier and both counters 0, so the book is available |
| BookEntity.ValidBookMeaning | src/main/java/com/library/library_system/entity/Book.java:19-34 | a valid book has a non-blank inventory number, title and author, and a publication year that is present and at least 1500, and conversely |
| BookService.AvailableIffNotOut | src/main/java/com/library/library_system/entity/Book.java:85-87 | with the active counter filled from the store, `isAvailable` holds exactly when every loan of the book is returned |
| ReaderEntity.NewReader | src/main/java/com/library/library_system/entity/Reader.java:32-54 | the three-argument constructor stores exactly the given ticket, name and phone, registers the reader today and starts both counters at 0 |
| ReaderEntity.PhoneBodyIsRun | src/main/java/com/library/library_system/entity/Reader.java:29 | the recursive matcher for `[0-9\s\-\(\)]+` accepts exactly the non-empty strings of digits, regex whitespace, `-`, `(` and `)` |
| ReaderEntity.PhonePatternMeaning | src/main/java/com/library/library_system/entity/Reader.java:29 | the phone pattern accepts exactly the non-empty strings other than a lone `+` whose characters are all in the class, except for a `+` allowed at position 0 |
| ReaderEntity.PlusOnlyFirst | src/main/java/com/library/library_system/entity/Reader.java:29 | an accepted phone number has no `+` after position 0 |
| ReaderEntity.PhonePatternRejects | src/main/java/com/library/library_system/entity/Reader.java:29 | the empty string and a lone `+` are rejected |
| ReaderEntity.PhonePatternAcceptsInternational | src/main/java/com/library/library_system/entity/Reader.java:29 | `+1234567` is accepted |
| ReaderEntity.PhonePatternAcceptsLocal | src/main/java/com/library/library_system/entity/Reader.java:29 | `(8) 912-34`, with brackets, a space and a dash, is accepted |
| ReaderEntity.ValidReaderPhone | src/main/java/com/library/library_system/entity/Reader.java:19-30 | a valid reader's phone is neither empty nor a lone `+`, and holds a character `trim` keeps |
| ReaderService.HasActiveLoansIffOut | src/main/java/com/library/library_system/entity/Reader.java:82-84 | with the active counter filled from the store, `hasActiveLoans` holds exactly when some loan of the reader is outstanding |
| LibrarianEntity.DefaultLibrarian | src/main/java/com/library/library_system/entity/Librarian.java:25-31 | the no-argument constructor gives the position "Библиотекарь" and a loan count of 0; its blank fields fail validation |
| LibrarianEntity.NewLibrarian | src/main/java/com/library/library_system/entity/Librarian.java:40-44 | the three-argument constructor stores exactly the given number, name and position, with no identifier and no loans |
| LibrarianEntity.ValidLibrarianMeaning | src/main/java/com/library/library_system/entity/Librarian.java:17-23 | a valid librarian has a non-blank staff number and full name, and conversely |
| LibrarianService.HasLoansIffUndeletable | src/main/java/com/library/library_system/entity/Librarian.java:66-68 | with the counter filled from the store, `hasLoans` is exactly the negation of `canDeleteLibrarian` |
| BookLoanEntity.DefaultLoan | src/main/java/com/library/library_system/entity/BookLoan.java:33-44 | a fresh loan has today's loan date, no due date and no return date, so it starts outstanding |
| BookLoanEntity.NewLoan | src/main/java/com/library/library_system/entity/BookLoan.java:55-61 | the five-argument constructor sets the references and both dates and leaves the return date null |
| BookLoanEntity.ReturnDateDecides | src/main/java/com/library/library_system/entity/BookLoan.java:89-91 | `isReturned` holds exactly when a return date is present: setting one makes any loan returned, clearing it makes the loan outstanding |
| BookLoanEntity.DaysOverdue | src/main/java/com/library/library_system/entity/BookLoan.java:107-112 | never negative; positive exactly when the loan is overdue, and then it is today minus the due date |
| BookLoanEntity.OverdueByDueDate | src/main/java/com/library/library_system/entity/BookLoan.java:98-100 | due yesterday and outstanding means one day overdue; due today or later means not overdue; a returned loan is never overdue |
| Repositories.Where | src/main/java/com/library/library_system/repository/BookLoanRepository.java:16-22 | a filter keeps exactly the loans that satisfy its condition, unchanged |
| Repositories.ActiveLoans | src/main/java/com/library/library_system/repository/BookLoanRepository.java:16 | exactly the loans without a return date |
| Repositories.ActiveLoansOfBook | src/main/java/com/library/library_system/repository/BookLoanRepository.java:17 | exactly the loans of the book without a return date; the service getter `getActiveBookLoans` returns this query |
| Repositories.LoansOfBook | src/main/java/com/library/library_system/repository/BookLoanRepository.java:18 | exactly the loans of the book, returned or not; the service getter `getAllBookLoans` returns this query |
| Repositories.ActiveLoansOfReader | src/main/java/com/library/library_system/repository/BookLoanRepository.java:19 | exactly the reader's loans without a return date; the service getter `getActiveReaderLoans` returns this query |
| Repositories.LoansOfReader | src/main/java/com/library/library_system/repository/BookLoanRepository.java:20 | exactly the reader's loans, returned or not; the service getter `getAllReaderLoans` returns this query |
| Repositories.OutstandingDueBefore | src/main/java/com/library/library_system/repository/BookLoanRepository.java:21 | exactly the loans without a return date whose due date is present and strictly before the given day |
| Repositories.LoansOfLibrarian | src/main/java/com/library/library_system/repository/BookLoanRepository.java:22 | exactly the loans the librarian recorded; the service getter `getLibrarianLoans` returns this query |
| Repositories.ActiveWithinAll | src/main/java/com/library/library_system/service/BookService.java:116-120 | each outstanding-loan query lies within the matching all-loans query and within the outstanding loans, so the active test of the can-delete checks is subsumed |
| Repositories.EmptyQueries | src/main/java/com/library/library_system/service/BookService.java:116-120 | each per-record query is empty exactly when no loan in the table matches its condition |
| Repositories.EmptyWhere | src/main/java/com/library/library_system/repository/BookLoanRepository.java:16-22 | a filter is empty exactly when no entry satisfies it |
| Repositories.OverdueQueryMatchesEntity | src/main/java/com/library/library_system/service/BookLoanService.java:53-55 | for loans with due dates, the overdue query holds exactly the loans the record itself calls overdue |
| Repositories.FindByBookNumber | src/main/java/com/library/library_system/repository/BookRepository.java:17 | the one book holding the inventory number, or none exactly when no book holds it |
| Repositories.FindByTicketNumber | src/main/java/com/library/library_system/repository/ReaderRepository.java:17 | the one reader holding the ticket number, or none exactly when no reader holds it |
| Repositories.FindByPhoneNumber | src/main/java/com/library/library_system/repository/ReaderRepository.java:18 | the one reader holding the phone number, or none exactly when no reader holds it |
| Repositories.FindByLibrarianNumber | src/main/java/com/library/library_system/service/LibrarianService.java:43 | the one librarian holding the staff number, or none exactly when no librarian holds it |
| Store.AtMostOneOutstandingPerBook | src/main/java/com/library/library_system/service/BookLoanService.java:91-97 | under the loan invariant, each book's outstanding-loan query holds at most one loan |
| Store.SaveKeepsOneOutstanding | src/main/java/com/library/library_system/service/BookLoanService.java:91-110 | writing a returned loan, or one whose book has no other outstanding loan, keeps the loan invariant |
| BookService.GetBookById | src/main/java/com/library/library_system/service/BookService.java:65-68 | the stored book, or not-found exactly when the identifier is absent |
| BookService.SaveBook | src/main/java/com/library/library_system/service/BookService.java:41-56 | fails with a duplicate inventory number exactly when another book holds it (any book, on a create); a failure writes nothing; a success stores the record under its key; the store invariant is kept |
| BookService.ResaveStoredBook | src/main/java/com/library/library_system/service/BookService.java:48-53 | saving a stored book again, unchanged, never meets a duplicate |
| BookService.CanDeleteBook | src/main/java/com/library/library_system/service/BookService.java:116-120 | true exactly when no loan, returned or not, refers to the book |
| BookService.DeleteBookById | src/main/java/com/library/library_system/service/BookService.java:77-95 | not-found, then a conflict while the book is out, then a conflict while any loan of it is on record; success exactly when the book exists and can be deleted, and then only that book is removed |
| BookService.SearchBooks | src/main/java/com/library/library_system/service/BookService.java:103-108 | a null or whitespace-only keyword lists every book; otherwise exactly the books the title match accepts |
| BookService.ExistsByBookNumber | src/main/java/com/library/library_system/service/BookService.java:148-150 | true exactly when some stored book holds the inventory number |
| ReaderService.GetReaderById | src/main/java/com/library/library_system/service/ReaderService.java:79-82 | the stored reader, or not-found exactly when the identifier is absent |
| ReaderService.SaveReader | src/main/java/com/library/library_system/service/ReaderService.java:41-70 | a duplicate ticket is reported first; a duplicate phone is reported only when the ticket is free; an update is blocked only by another identifier; a failure writes nothing; a success stores the record under its key |
| ReaderService.CanDeleteReader | src/main/java/com/library/library_system/service/ReaderService.java:130-134 | true exactly when no loan, returned or not, refers to the reader |
| ReaderService.DeleteReaderById | src/main/java/com/library/library_system/service/ReaderService.java:91-109 | not-found, then a conflict for an outstanding loan, then a conflict for any loan on record; otherwise only that reader is removed |
| ReaderService.SearchReaders | src/main/java/com/library/library_system/service/ReaderService.java:117-122 | a null or blank keyword lists every reader; otherwise exactly the readers the name match accepts |
| ReaderService.ExistsByTicketNumber | src/main/java/com/library/library_system/service/ReaderService.java:162-164 | true exactly when some stored reader holds the ticket number |
| ReaderService.ExistsByPhoneNumber | src/main/java/com/library/library_system/service/ReaderService.java:172-174 | true exactly when some stored reader holds the phone number |
| LibrarianService.GetLibrarianById | src/main/java/com/library/library_system/service/LibrarianService.java:67-70 | the stored librarian, or not-found exactly when the identifier is absent |
| LibrarianService.SaveLibrarian | src/main/java/com/library/library_system/service/LibrarianService.java:41-58 | fails with a duplicate staff number exactly when another librarian holds it (any, on a create); a failure writes nothing; a success stores the record under its key |
| LibrarianService.CanDeleteLibrarian | src/main/java/com/library/library_system/service/LibrarianService.java:111-114 | true exactly when the librarian's loan query is empty, that is when no loan was recorded by the librarian |
| LibrarianService.DeleteLibrarianById | src/main/java/com/library/library_system/service/LibrarianService.java:79-90 | not-found, then a conflict exactly when any loan, returned or not, was recorded by the librarian; otherwise only that librarian is removed |
| LibrarianService.SearchLibrarians | src/main/java/com/library/library_system/service/LibrarianService.java:98-103 | a null or blank keyword lists every librarian; otherwise exactly the librarians the name match accepts |
| LibrarianService.ExistsByLibrarianNumber | src/main/java/com/library/library_system/service/LibrarianService.java:132-134 | true exactly when some stored librarian holds the staff number |
| BookLoanService.GetLoanById | src/main/java/com/library/library_system/service/BookLoanService.java:120-123 | the stored loan, or not-found exactly when the identifier is absent |
| BookLoanService.DateError | src/main/java/com/library/library_system/service/BookLoanService.java:75-89 | no violation exactly when the loan is well dated; a missing loan date is reported exactly when it is missing; a missing due date exactly when only it is missing; a due date before the loan date exactly when both are present and out of order; a return date before the loan date exactly when the first three rules pass and it is early |
| BookLoanService.DueOnLoanDayAccepted | src/main/java/com/library/library_system/service/BookLoanService.java:83-89 | a due date equal to the loan date passes the date checks, for an outstanding loan and for one returned on or after its loan day |
| BookLoanService.SaveLoanError | src/main/java/com/library/library_system/service/BookLoanService.java:65-108 | a missing book, reader or librarian is reported, in that order, before any date check; next comes the first date violation `DateError` reports; once those pass, a create fails with the book-out conflict exactly when the book has an outstanding loan, an update of an absent loan fails with not-found, and an update that moves an outstanding loan to a book that is out fails with the book-out conflict; the checks pass exactly when none of these applies |
| BookLoanService.PassedSaveKeepsOneOutstanding | src/main/java/com/library/library_system/service/BookLoanService.java:91-108 | a create that passes the checks, and an update that passes them and leaves the loan returned or was of an outstanding loan, keep every book on at most one outstanding loan |
| BookLoanService.PassedSaveKeepsConsistent | src/main/java/com/library/library_system/service/BookLoanService.java:65-110 | writing a loan that passed the checks keeps the store invariant |
| BookLoanService.SaveLoan | src/main/java/com/library/library_system/service/BookLoanService.java:65-111 | fails exactly with the first failed check, and then the loans are unchanged; on success only the one loan is written under its key; the store invariant is kept, and the loan invariant on the paths above |
| BookLoanService.ReopeningReturnedLoanUnchecked | src/main/java/com/library/library_system/service/BookLoanService.java:98-108 | an edit that clears the return date of a returned loan on a book that is out again passes every check and leaves that book on two outstanding loans |
| BookLoanService.DeleteLoanById | src/main/java/com/library/library_system/service/BookLoanService.java:132-141 | not-found for an absent loan, a conflict exactly when it is outstanding; success exactly when `canDeleteLoan` is true, and then only that loan is removed |
| BookLoanService.ReturnBook | src/main/java/com/library/library_system/service/BookLoanService.java:150-157 | not-found, then a conflict for a returned loan, so a second return always fails; otherwise it succeeds exactly when the loan date is not after today, and then only that loan's return date changes, to today; both invariants are kept |
| BookLoanService.CanDeleteLoan | src/main/java/com/library/library_system/service/BookLoanService.java:192-195 | not-found for an absent loan, otherwise exactly `isReturned` |
| BookLoanService.GetActiveLoans | src/main/java/com/library/library_system/service/BookLoanService.java:44-46 | exactly the stored loans without a return date |
| BookLoanService.GetOverdueLoans | src/main/java/com/library/library_system/service/BookLoanService.java:53-55 | exactly the outstanding loans with a due date before today, which are the ones the record calls overdue, and all of them active |
| Scenario.LendReturnLendAgain | src/main/java/com/library/library_system/service/BookLoanService.java:91-157 | lending a book, lending it again (conflict), returning it, returning it again (conflict), deleting its reader (conflict: history) and lending it again (success), on a fresh store |
| Scenario.DuplicateInventoryNumber | src/main/java/com/library/library_system/service/BookService.java:41-56 | a second book with the same inventory number is refused, while the stored book saves again unchanged |

## Left out

- The controllers, the application bootstrap, view models and message texts: they are outside the rule layer. `toString` is left out too.
- Case-insensitive substring search: the database performs it. The searches take the match as a parameter (`titleContains`, `nameContains`); only the blank-keyword branch is fixed.
- The `getAll*` listings: each returns a whole table, which here is the map itself.
- The repository queries the services never call (`findByLoanDateBetween`, `findByAuthorContainingIgnoreCase`, `findByPublicationYear`, `findByRegistrationDate`): nothing in the rule layer depends on them.
- The librarian repository source is not part of this model. Its lookup by staff number is modelled from its use in the librarian service.
- Identity generation: a create takes the fresh identifier `newId` as a parameter, required to be absent from the table.
- BookService.SaveBook: an update whose identifier is absent from the table is modelled as a write under that identifier. The store's own merge behaviour there is not modelled. The same holds for ReaderService.SaveReader and LibrarianService.SaveLibrarian.
- Null strings are modelled as strings (null as empty) and null references in a loan as identifiers. The model does not distinguish a null reference from a dangling one.
- Bean-validation annotations are modelled as the predicates `ValidBook`, `ValidReader` and `ValidLibrarian`. The services do not require them, since the source's services do not check them either.
- The transient counters on books, readers and librarians are stored as given. The lemmas relate them to the queries when they are filled from the store.
- The wall clock: "today" is a parameter, and dates are epoch days.
- Concurrency and transactions: the model is sequential, so the check-then-write race on the one-outstanding-loan rule is not modelled.
- BookLoanService.ReturnBook: the source sets the return date on the managed record before saving it, so the nested save sees the already-returned record as the stored one. The model passes the changed copy to the save, which sees the stored outstanding record. The outcome is the same because the book does not change, but aliasing of the managed record is not modelled.
- BookLoanService.SaveLoan: the loan invariant is not claimed for an update of a returned loan that clears its return date, because the source performs no check there (see `ReopeningReturnedLoanUnchecked`).
- BookLoanEntity.IsOverdue: it requires a due date on an outstanding loan, because the source dereferences null otherwise.
- BookLoanEntity.DaysOverdue: the source's `long` is unbounded here. Epoch-day differences fit in it.
