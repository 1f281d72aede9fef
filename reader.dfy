/**
 * The reader record, its field constraints and the phone-number pattern
 * `^\+?[0-9\s\-\(\)]+$`, written as a recursive predicate over the string.
 */
module ReaderEntity {
  import opened Common
  import opened Text

  /**
   * `registrationDate` defaults to the creation day; the two counters are transient.
   */
  datatype Reader = Reader(
    readerId: Option<int>,
    ticketNumber: string,
    fullName: string,
    phoneNumber: string,
    registrationDate: Option<int>,
    activeLoansCount: int,
    totalLoansCount: int)

  /**
   * The three-argument constructor run on day `today`: the field initialisers give the
   * registration date and zero counters.
   */
  function NewReader(ticketNumber: string, fullName: string, phoneNumber: string, today: int): (r: Reader)
    ensures r.readerId.None?
    ensures r.ticketNumber == ticketNumber && r.fullName == fullName && r.phoneNumber == phoneNumber
    ensures r.registrationDate == Some(today)
    ensures r.activeLoansCount == 0 && r.totalLoansCount == 0 && !HasActiveLoans(r)
  {
    Reader(None, ticketNumber, fullName, phoneNumber, Some(today), 0, 0)
  }

  /** `\s` in a Java regular expression: space, tab, newline, vertical tab, form feed, return. */
  predicate RegexSpace(c: char) {
    c == ' ' || c == '\t' || c == '\n' || c == '\U{000B}' || c == '\U{000C}' || c == '\r'
  }

  /** The character class `[0-9\s\-\(\)]`. */
  predicate PhoneChar(c: char) {
    ('0' <= c <= '9') || RegexSpace(c) || c == '-' || c == '(' || c == ')'
  }

  /** `[0-9\s\-\(\)]+`: one or more characters of the class, consumed left to right. */
  predicate PhoneBody(s: string)
    decreases |s|
  {
    |s| > 0 && PhoneChar(s[0]) && (|s| == 1 || PhoneBody(s[1..]))
  }

  /**
   * The whole pattern. `+` is outside the class, so a leading `+` can only be the
   * optional prefix, and the rest must be the body.
   */
  predicate PhonePattern(s: string)
  {
    if |s| > 0 && s[0] == '+' then PhoneBody(s[1..]) else PhoneBody(s)
  }

  /** The body is exactly a non-empty run of class characters. */
  lemma {:induction false} PhoneBodyIsRun(s: string)
    ensures PhoneBody(s) <==> |s| > 0 && forall i :: 0 <= i < |s| ==> PhoneChar(s[i])
    decreases |s|
  {
    if |s| > 1 {
      PhoneBodyIsRun(s[1..]);
      if forall i :: 0 <= i < |s| ==> PhoneChar(s[i]) {
        assert forall i :: 0 <= i < |s[1..]| ==> PhoneChar(s[1..][i]) by {
          forall i | 0 <= i < |s[1..]| ensures PhoneChar(s[1..][i]) {
            assert s[1..][i] == s[i + 1];
          }
        }
      }
      if PhoneBody(s) {
        forall i | 0 <= i < |s| ensures PhoneChar(s[i]) {
          if i > 0 { assert s[i] == s[1..][i - 1]; }
        }
      }
    }
  }

  /**
   * Pattern, restated without recursion: a non-empty string that is not a lone `+`,
   * whose characters are all in the class except possibly a `+` at position 0.
   */
  lemma PhonePatternMeaning(s: string)
    ensures PhonePattern(s) <==>
      && |s| > 0 && s != "+"
      && forall i :: 0 <= i < |s| ==> PhoneChar(s[i]) || (i == 0 && s[i] == '+')
  {
    if |s| > 0 && s[0] == '+' {
      PhoneBodyIsRun(s[1..]);
      assert forall i :: 1 <= i < |s| ==> s[i] == s[1..][i - 1];
      if s != "+" { assert |s| > 1; }
    } else {
      PhoneBodyIsRun(s);
    }
  }

  /** A `+` is accepted at position 0 only. */
  lemma PlusOnlyFirst(s: string, i: int)
    requires PhonePattern(s) && 0 < i < |s|
    ensures s[i] != '+'
  {
    PhonePatternMeaning(s);
    assert PhoneChar(s[i]);
  }

  /** The empty string and a lone `+` are rejected. */
  lemma PhonePatternRejects()
    ensures !PhonePattern("") && !PhonePattern("+")
  {
  }

  /** `+1234567` is accepted. */
  lemma PhonePatternAcceptsInternational()
    ensures PhonePattern("+1234567")
  {
    var body := "1234567";
    assert "+1234567"[1..] == body;
    PhoneBodyIsRun(body);
    forall i | 0 <= i < |body| ensures PhoneChar(body[i]) {
      assert '0' <= body[i] <= '9';
    }
  }

  /** `(8) 912-34`, with brackets, a space and a dash, is accepted. */
  lemma PhonePatternAcceptsLocal()
    ensures PhonePattern("(8) 912-34")
  {
    var s := "(8) 912-34";
    PhoneBodyIsRun(s);
    forall i | 0 <= i < |s| ensures PhoneChar(s[i]) {
      assert s[i] in {'(', '8', ')', ' ', '9', '1', '2', '-', '3', '4'};
    }
  }

  /** The field constraints: ticket, name and phone not blank, and the phone matches the pattern. */
  predicate ValidReader(r: Reader)
  {
    NotBlank(r.ticketNumber) && NotBlank(r.fullName) && NotBlank(r.phoneNumber) && PhonePattern(r.phoneNumber)
  }

  /** A valid reader's phone is neither empty nor a lone `+`, and holds a character `trim()` keeps. */
  lemma ValidReaderPhone(r: Reader)
    requires ValidReader(r)
    ensures |r.phoneNumber| > 0 && r.phoneNumber != "+"
    ensures exists i :: 0 <= i < |r.phoneNumber| && !Trimmable(r.phoneNumber[i])
  {
    PhonePatternMeaning(r.phoneNumber);
    NotBlankMeaning(r.phoneNumber);
  }

  /** `hasActiveLoans`: the active-loan counter is positive. */
  predicate HasActiveLoans(r: Reader)
  {
    r.activeLoansCount > 0
  }
}
