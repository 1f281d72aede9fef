/**
 * The book record: persisted fields, the field constraints checked before a save,
 * and the two transient loan counters the list views fill in.
 */
module BookEntity {
  import opened Common
  import opened Text

  /**
   * `bookId` is `None` until the store assigns one. `publicationYear` is a nullable
   * `Integer`. The two counters are transient: never persisted, default 0.
   */
  datatype Book = Book(
    bookId: Option<int>,
    bookNumber: string,
    title: string,
    author: string,
    publicationYear: Option<int>,
    activeLoansCount: int,
    totalLoansCount: int)

  /** The smallest publication year the constraint admits. */
  const MinPublicationYear := 1500

  /** The four-argument constructor: the given fields, no identifier, zero counters. */
  function NewBook(bookNumber: string, title: string, author: string, publicationYear: Option<int>): (b: Book)
    ensures b.bookId.None?
    ensures b.bookNumber == bookNumber && b.title == title && b.author == author
    ensures b.publicationYear == publicationYear
    ensures b.activeLoansCount == 0 && b.totalLoansCount == 0 && IsAvailable(b)
  {
    Book(None, bookNumber, title, author, publicationYear, 0, 0)
  }

  /** The field constraints: three not-blank strings and a present year of at least 1500. */
  predicate ValidBook(b: Book)
  {
    && NotBlank(b.bookNumber)
    && NotBlank(b.title)
    && NotBlank(b.author)
    && b.publicationYear.Some?
    && b.publicationYear.value >= MinPublicationYear
  }

  /** A valid book has a year of 1500 or later and a visible character in each text field. */
  lemma ValidBookMeaning(b: Book)
    ensures ValidBook(b) <==>
      && !IsBlank(b.bookNumber) && !IsBlank(b.title) && !IsBlank(b.author)
      && b.publicationYear.Some? && b.publicationYear.value >= 1500
  {
    TrimEmptyIffBlank(b.bookNumber);
    TrimEmptyIffBlank(b.title);
    TrimEmptyIffBlank(b.author);
  }

  /** `isAvailable`: the active-loan counter is zero. */
  predicate IsAvailable(b: Book)
  {
    b.activeLoansCount == 0
  }
}
