/**
 * The librarian record, its default position and field constraints.
 */
module LibrarianEntity {
  import opened Common
  import opened Text

  /** `loansCount` is transient. */
  datatype Librarian = Librarian(
    librarianId: Option<int>,
    librarianNumber: string,
    fullName: string,
    position: string,
    loansCount: int)

  /** The position a librarian gets unless one is given. */
  const DefaultPosition: string := "Библиотекарь"

  /**
   * The no-argument constructor. The staff number and name are unset (Java `null`),
   * written here as empty strings; both fail the not-blank constraint either way.
   */
  function DefaultLibrarian(): (l: Librarian)
    ensures l.librarianId.None? && l.position == DefaultPosition
    ensures l.loansCount == 0 && !HasLoans(l)
    ensures !ValidLibrarian(l)
  {
    Librarian(None, "", "", DefaultPosition, 0)
  }

  /** The three-argument constructor: exactly the given number, name and position. */
  function NewLibrarian(librarianNumber: string, fullName: string, position: string): (l: Librarian)
    ensures l.librarianId.None?
    ensures l.librarianNumber == librarianNumber && l.fullName == fullName && l.position == position
    ensures l.loansCount == 0 && !HasLoans(l)
  {
    Librarian(None, librarianNumber, fullName, position, 0)
  }

  /** The field constraints: staff number and name not blank. */
  predicate ValidLibrarian(l: Librarian)
  {
    NotBlank(l.librarianNumber) && NotBlank(l.fullName)
  }

  /** A valid librarian has a visible character in both the staff number and the name. */
  lemma ValidLibrarianMeaning(l: Librarian)
    ensures ValidLibrarian(l) <==> !IsBlank(l.librarianNumber) && !IsBlank(l.fullName)
  {
    TrimEmptyIffBlank(l.librarianNumber);
    TrimEmptyIffBlank(l.fullName);
  }

  /** `hasLoans`: the loan counter is positive. */
  predicate HasLoans(l: Librarian)
  {
    l.loansCount > 0
  }
}
