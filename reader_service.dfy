/**
 * The reader rules: ticket- and phone-number uniqueness on save (ticket first), lookup
 * by identifier, and the deletion guard that keeps every reader a loan refers to.
 */
module ReaderService {
  import opened Common
  import opened Text
  import opened ReaderEntity
  import opened BookLoanEntity
  import opened Repositories
  import opened Store

  /** `getReaderById`: the stored reader, or not-found. */
  function GetReaderById(readers: map<int, Reader>, id: int): (r: Result<Reader>)
    ensures r.Ok? <==> id in readers
    ensures r.Ok? ==> r.value == readers[id]
    ensures r.Err? ==> r.error == NotFound(ReaderRecord)
  {
    if id in readers then Ok(readers[id]) else Err(NotFound(ReaderRecord))
  }

  /** Another stored reader (any, on a create) holds the ticket number of `reader`. */
  ghost predicate TicketTaken(readers: map<int, Reader>, reader: Reader)
  {
    exists k :: k in readers && readers[k].ticketNumber == reader.ticketNumber && reader.readerId != Some(k)
  }

  /** Another stored reader (any, on a create) holds the phone number of `reader`. */
  ghost predicate PhoneTaken(readers: map<int, Reader>, reader: Reader)
  {
    exists k :: k in readers && readers[k].phoneNumber == reader.phoneNumber && reader.readerId != Some(k)
  }

  /** The holder found by a unique-field lookup blocks the save of `id`. */
  function Blocks(holder: Option<int>, id: Option<int>): bool
  {
    holder.Some? && (id.None? || holder.value != id.value)
  }

  /**
   * `saveReader`. The ticket number is checked before the phone number; on an update
   * only a holder with another identifier counts. A failure writes nothing; a success
   * stores the record under its key.
   */
  method SaveReader(lib: Library, reader: Reader, newId: int) returns (r: Outcome)
    requires lib.Valid()
    requires reader.readerId.None? ==> newId !in lib.readers
    modifies lib`readers
    ensures lib.Valid()
    ensures r == Failed(Duplicate(TicketNumber)) <==> TicketTaken(old(lib.readers), reader)
    ensures r == Failed(Duplicate(PhoneNumber)) <==>
      !TicketTaken(old(lib.readers), reader) && PhoneTaken(old(lib.readers), reader)
    ensures r.Failed? <==> TicketTaken(old(lib.readers), reader) || PhoneTaken(old(lib.readers), reader)
    ensures r.Failed? ==> lib.readers == old(lib.readers)
    ensures r.Done? ==>
      var key := SaveKey(reader.readerId, newId);
      lib.readers == old(lib.readers)[key := reader.(readerId := Some(key))]
  {
    var byTicket := FindByTicketNumber(lib.readers, reader.ticketNumber);
    if Blocks(byTicket, reader.readerId) {
      return Failed(Duplicate(TicketNumber));
    }
    var byPhone := FindByPhoneNumber(lib.readers, reader.phoneNumber);
    if Blocks(byPhone, reader.readerId) {
      assert !TicketTaken(lib.readers, reader);
      return Failed(Duplicate(PhoneNumber));
    }
    assert !TicketTaken(lib.readers, reader) && !PhoneTaken(lib.readers, reader);
    var key := SaveKey(reader.readerId, newId);
    lib.readers := lib.readers[key := reader.(readerId := Some(key))];
    r := Done;
  }

  /**
   * `canDeleteReader`: neither an outstanding loan nor any loan at all refers to the
   * reader, so a returned loan blocks deletion too.
   */
  function CanDeleteReader(loans: map<int, BookLoan>, id: int): (ok: bool)
    ensures ok <==> forall k :: k in loans ==> loans[k].readerId != id
    ensures ok <==> LoansOfReader(loans, id) == map[]
  {
    EmptyQueries(loans, id);
    ActiveWithinAll(loans, id, id, 0);
    ActiveLoansOfReader(loans, id) == map[] && LoansOfReader(loans, id) == map[]
  }

  /**
   * `deleteReaderById`: not-found, then a conflict for an outstanding loan, then a
   * conflict for any loan on record. Only a success removes the reader.
   */
  method DeleteReaderById(lib: Library, id: int) returns (r: Outcome)
    requires lib.Valid()
    modifies lib`readers
    ensures lib.Valid()
    ensures id !in old(lib.readers) ==> r == Failed(NotFound(ReaderRecord))
    ensures id in old(lib.readers) && ActiveLoansOfReader(lib.loans, id) != map[] ==>
      r == Failed(Conflict(ActiveLoansExist))
    ensures id in old(lib.readers) && ActiveLoansOfReader(lib.loans, id) == map[] && LoansOfReader(lib.loans, id) != map[] ==>
      r == Failed(Conflict(LoanHistoryExists))
    ensures r.Done? <==> id in old(lib.readers) && CanDeleteReader(lib.loans, id)
    ensures r.Done? ==> lib.readers == old(lib.readers) - {id}
    ensures r.Failed? ==> lib.readers == old(lib.readers)
  {
    var found := GetReaderById(lib.readers, id);
    if found.Err? {
      return Failed(found.error);
    }
    if ActiveLoansOfReader(lib.loans, id) != map[] {
      return Failed(Conflict(ActiveLoansExist));
    }
    if LoansOfReader(lib.loans, id) != map[] {
      return Failed(Conflict(LoanHistoryExists));
    }
    assert CanDeleteReader(lib.loans, id);
    lib.readers := lib.readers - {id};
    r := Done;
  }

  /**
   * `searchReaders`. A missing or blank keyword lists every reader; otherwise the
   * store's case-insensitive name match, `nameContains(fullName, keyword)`, decides.
   */
  function SearchReaders(readers: map<int, Reader>, keyword: Option<string>,
                         nameContains: (string, string) -> bool): (r: map<int, Reader>)
    ensures keyword.None? || IsBlank(keyword.value) ==> r == readers
    ensures keyword.Some? && !IsBlank(keyword.value) ==>
      forall k :: k in r <==> k in readers && nameContains(readers[k].fullName, keyword.value)
    ensures forall k :: k in r ==> k in readers && r[k] == readers[k]
  {
    if keyword.None? then
      readers
    else
      TrimEmptyIffBlank(keyword.value);
      if Trim(keyword.value) == [] then
        readers
      else
        map k | k in readers && nameContains(readers[k].fullName, keyword.value) :: readers[k]
  }

  /** `existsByTicketNumber`: some stored reader holds the ticket number. */
  function ExistsByTicketNumber(readers: map<int, Reader>, ticketNumber: string): (b: bool)
    requires UniqueReaderKeys(readers)
    ensures b <==> exists k :: k in readers && readers[k].ticketNumber == ticketNumber
  {
    FindByTicketNumber(readers, ticketNumber) != None
  }

  /** `existsByPhoneNumber`: some stored reader holds the phone number. */
  function ExistsByPhoneNumber(readers: map<int, Reader>, phoneNumber: string): (b: bool)
    requires UniqueReaderKeys(readers)
    ensures b <==> exists k :: k in readers && readers[k].phoneNumber == phoneNumber
  {
    FindByPhoneNumber(readers, phoneNumber) != None
  }

  /**
   * The list view sets a reader's active counter to the size of the reader's
   * outstanding-loan query; then `hasActiveLoans` holds exactly when one is out.
   */
  lemma HasActiveLoansIffOut(loans: map<int, BookLoan>, reader: Reader, id: int)
    requires reader.activeLoansCount == |ActiveLoansOfReader(loans, id)|
    ensures HasActiveLoans(reader) <==> exists k :: k in loans && loans[k].readerId == id && !IsReturned(loans[k])
  {
    EmptyQueries(loans, id);
    var active := ActiveLoansOfReader(loans, id);
    assert |active| == |active.Keys|;
    if active.Keys == {} {
      assert active == map[];
    }
  }
}
