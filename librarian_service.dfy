/**
 * The librarian rules: staff-number uniqueness on save, lookup by identifier, and the
 * deletion guard that keeps every librarian who recorded a loan.
 */
module LibrarianService {
  import opened Common
  import opened Text
  import opened LibrarianEntity
  import opened BookLoanEntity
  import opened Repositories
  import opened Store

  /** `getLibrarianById`: the stored librarian, or not-found. */
  function GetLibrarianById(librarians: map<int, Librarian>, id: int): (r: Result<Librarian>)
    ensures r.Ok? <==> id in librarians
    ensures r.Ok? ==> r.value == librarians[id]
    ensures r.Err? ==> r.error == NotFound(LibrarianRecord)
  {
    if id in librarians then Ok(librarians[id]) else Err(NotFound(LibrarianRecord))
  }

  /** Another stored librarian (any, on a create) holds the staff number. */
  ghost predicate StaffNumberTaken(librarians: map<int, Librarian>, librarian: Librarian)
  {
    exists k :: k in librarians && librarians[k].librarianNumber == librarian.librarianNumber
      && librarian.librarianId != Some(k)
  }

  /**
   * `saveLibrarian`. A create fails on any holder of the staff number, an update only
   * on a holder with another identifier. A failure writes nothing.
   */
  method SaveLibrarian(lib: Library, librarian: Librarian, newId: int) returns (r: Outcome)
    requires lib.Valid()
    requires librarian.librarianId.None? ==> newId !in lib.librarians
    modifies lib`librarians
    ensures lib.Valid()
    ensures r.Failed? <==> StaffNumberTaken(old(lib.librarians), librarian)
    ensures r.Failed? ==> r.error == Duplicate(StaffNumber) && lib.librarians == old(lib.librarians)
    ensures r.Done? ==>
      var key := SaveKey(librarian.librarianId, newId);
      lib.librarians == old(lib.librarians)[key := librarian.(librarianId := Some(key))]
  {
    var existing := FindByLibrarianNumber(lib.librarians, librarian.librarianNumber);
    if librarian.librarianId.None? {
      if existing.Some? {
        return Failed(Duplicate(StaffNumber));
      }
    } else if existing.Some? && existing.value != librarian.librarianId.value {
      return Failed(Duplicate(StaffNumber));
    }
    assert !StaffNumberTaken(lib.librarians, librarian);
    var key := SaveKey(librarian.librarianId, newId);
    lib.librarians := lib.librarians[key := librarian.(librarianId := Some(key))];
    r := Done;
  }

  /** `canDeleteLibrarian`: the librarian's loan query is empty. */
  function CanDeleteLibrarian(loans: map<int, BookLoan>, id: int): (ok: bool)
    ensures ok <==> forall k :: k in loans ==> loans[k].librarianId != id
    ensures ok <==> LoansOfLibrarian(loans, id) == map[]
  {
    EmptyQueries(loans, id);
    LoansOfLibrarian(loans, id) == map[]
  }

  /**
   * `deleteLibrarianById`: not-found, then a conflict if any loan, returned or not,
   * was recorded by the librarian. Only a success removes the librarian.
   */
  method DeleteLibrarianById(lib: Library, id: int) returns (r: Outcome)
    requires lib.Valid()
    modifies lib`librarians
    ensures lib.Valid()
    ensures id !in old(lib.librarians) ==> r == Failed(NotFound(LibrarianRecord))
    ensures id in old(lib.librarians) && !CanDeleteLibrarian(lib.loans, id) ==>
      r == Failed(Conflict(LoanHistoryExists))
    ensures r.Done? <==> id in old(lib.librarians) && CanDeleteLibrarian(lib.loans, id)
    ensures r.Done? ==> lib.librarians == old(lib.librarians) - {id}
    ensures r.Failed? ==> lib.librarians == old(lib.librarians)
  {
    var found := GetLibrarianById(lib.librarians, id);
    if found.Err? {
      return Failed(found.error);
    }
    if LoansOfLibrarian(lib.loans, id) != map[] {
      return Failed(Conflict(LoanHistoryExists));
    }
    lib.librarians := lib.librarians - {id};
    r := Done;
  }

  /**
   * `searchLibrarians`. A missing or blank keyword lists every librarian; otherwise the
   * store's case-insensitive name match, `nameContains(fullName, keyword)`, decides.
   */
  function SearchLibrarians(librarians: map<int, Librarian>, keyword: Option<string>,
                            nameContains: (string, string) -> bool): (r: map<int, Librarian>)
    ensures keyword.None? || IsBlank(keyword.value) ==> r == librarians
    ensures keyword.Some? && !IsBlank(keyword.value) ==>
      forall k :: k in r <==> k in librarians && nameContains(librarians[k].fullName, keyword.value)
    ensures forall k :: k in r ==> k in librarians && r[k] == librarians[k]
  {
    if keyword.None? then
      librarians
    else
      TrimEmptyIffBlank(keyword.value);
      if Trim(keyword.value) == [] then
        librarians
      else
        map k | k in librarians && nameContains(librarians[k].fullName, keyword.value) :: librarians[k]
  }

  /** `existsByLibrarianNumber`: some stored librarian holds the staff number. */
  function ExistsByLibrarianNumber(librarians: map<int, Librarian>, librarianNumber: string): (b: bool)
    requires UniqueStaffNumbers(librarians)
    ensures b <==> exists k :: k in librarians && librarians[k].librarianNumber == librarianNumber
  {
    FindByLibrarianNumber(librarians, librarianNumber) != None
  }

  /**
   * The list view sets a librarian's counter to the size of the librarian's loan
   * query; then `hasLoans` is exactly the negation of `canDeleteLibrarian`.
   */
  lemma HasLoansIffUndeletable(loans: map<int, BookLoan>, librarian: Librarian, id: int)
    requires librarian.loansCount == |LoansOfLibrarian(loans, id)|
    ensures HasLoans(librarian) <==> !CanDeleteLibrarian(loans, id)
  {
    var recorded := LoansOfLibrarian(loans, id);
    assert |recorded| == |recorded.Keys|;
    if recorded.Keys == {} {
      assert recorded == map[];
    }
  }
}
