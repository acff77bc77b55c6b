/**
 * The issue and return screen: the two workflows that look up the member
 * by student id and the copy by barcode, check that the loan may proceed,
 * run the issue or return transaction and, on a late return, record a
 * fine. Each outcome stands for the message the screen shows.
 */
module IssueReturnUI {
  import opened Wrappers
  import opened Strings
  import opened Rows
  import opened Models
  import opened Store
  import opened MemberController
  import opened BookCopyController
  import opened IssueController
  import opened FineController

  /** The daily fine rate the return screen charges. */
  const FineDailyRate: int := 10

  datatype IssueOutcome =
    | MemberNotFound
    | CopyNotFound
    | CopyNotAvailable(copyId: int)
    | AlreadyHasLoan(memberId: int)
    | IssueFailed(memberId: int, copyId: int)
    | IssueSucceeded(memberId: int, copyId: int)

  datatype ReturnOutcome =
    | MemberNotFound
    | CopyNotFound
    | NotIssued(copyId: int)
    | IssuedToOther(copyId: int, holderId: int)
    | ReturnFailed(issueId: int)
    | ReturnedNoFine(issueId: int)
    | ReturnedWithFine(issueId: int, amount: int)

  /** `memberId` keys a member whose student id is `studentId`. */
  ghost predicate HasStudentId(members: map<int, Member>, memberId: int, studentId: string)
  {
    memberId in members && members[memberId].studentId == studentId
  }

  /** `copyId` keys a copy whose barcode is `barcode`. */
  ghost predicate HasBarcode(copies: map<int, BookCopy>, copyId: int, barcode: string)
  {
    copyId in copies && copies[copyId].barcode == barcode
  }

  /** Some member has student id `studentId`. */
  ghost predicate MemberExists(members: map<int, Member>, studentId: string)
  {
    exists m :: HasStudentId(members, m, studentId)
  }

  /**
   * The issue checks pass for member `memberId` and copy `copyId`: the
   * member has the student id, the copy has the barcode and is available,
   * and the member holds no open loan.
   */
  ghost predicate IssueAllowed(t: Tables, studentId: string, barcode: string, memberId: int, copyId: int)
  {
    && HasStudentId(t.members, memberId, studentId)
    && HasBarcode(t.copies, copyId, barcode)
    && IsAvailableStatus(t.copies[copyId].status)
    && OpenLoansOfMember(t.loans, memberId) == {}
  }

  /** `outcome` is the first issue check that fails, in the screen's order. */
  ghost predicate IssueRefused(t: Tables, studentId: string, barcode: string, outcome: IssueOutcome)
  {
    match outcome
    case MemberNotFound =>
      forall m :: m in t.members.Values ==> m.studentId != studentId
    case CopyNotFound =>
      MemberExists(t.members, studentId) && forall c :: c in t.copies.Values ==> c.barcode != barcode
    case CopyNotAvailable(copyId) =>
      MemberExists(t.members, studentId) && HasBarcode(t.copies, copyId, barcode) &&
      !IsAvailableStatus(t.copies[copyId].status)
    case AlreadyHasLoan(memberId) =>
      HasStudentId(t.members, memberId, studentId) && OpenLoansOfMember(t.loans, memberId) != {} &&
      exists c :: HasBarcode(t.copies, c, barcode) && IsAvailableStatus(t.copies[c].status)
    case IssueFailed(_, _) => false
    case IssueSucceeded(_, _) => false
  }

  /** What the issue checks decide: a refusal, or the member, copy and book to lend. */
  datatype IssueCheck =
    | IssueRefusal(refusal: IssueOutcome)
    | IssueClear(memberId: int, copyId: int, bookId: int)

  /**
   * Runs the issue screen's checks in its order: the member by student id,
   * the copy by barcode, the copy's availability, and the member's open
   * loans. Reads the database and changes nothing.
   */
  method CheckIssue(t: Tables, studentId: string, barcode: string) returns (r: IssueCheck)
    requires WellFormed(t)
    ensures r.IssueRefusal? ==> IssueRefused(t, studentId, barcode, r.refusal)
    ensures r.IssueClear? ==>
      IssueAllowed(t, studentId, barcode, r.memberId, r.copyId) && t.copies[r.copyId].bookId == r.bookId
  {
    var member := GetMemberByStudentId(t.members, studentId);
    if member.None? {
      return IssueRefusal(IssueOutcome.MemberNotFound);
    }
    KeyedValue(t.members, MemberKey, member.value);
    var memberId := member.value.memberId;
    assert HasStudentId(t.members, memberId, studentId);

    var copy := GetCopyByBarcode(t.copies, barcode);
    if copy.None? {
      return IssueRefusal(IssueOutcome.CopyNotFound);
    }
    KeyedValue(t.copies, CopyKey, copy.value);
    var copyId := copy.value.copyId;
    assert HasBarcode(t.copies, copyId, barcode);

    if !IsCopyAvailable(t.copies, copyId) {
      return IssueRefusal(CopyNotAvailable(copyId));
    }
    if MemberHasIssuedBook(t.loans, memberId) {
      return IssueRefusal(AlreadyHasLoan(memberId));
    }
    r := IssueClear(memberId, copyId, copy.value.bookId);
  }

  /**
   * Issues the copy with barcode `barcodeText` to the member with student
   * id `studentIdText` (both trimmed) on `today`. Refused, in this order,
   * when the member or the copy is unknown, the copy is not available, or
   * the member already holds a loan; `fault` is where the transaction
   * fails, if it does. Only a successful issue changes the database, and it
   * keeps the circulation invariants.
   */
  method IssueBook(db: Database, studentIdText: string, barcodeText: string, today: int, fault: Fault)
    returns (outcome: IssueOutcome)
    requires db.Valid()
    modifies db
    ensures db.Valid()
    ensures Consistent(old(db.Snapshot())) ==> Consistent(db.Snapshot())
    ensures !outcome.IssueFailed? && !outcome.IssueSucceeded? ==>
      IssueRefused(old(db.Snapshot()), Trim(studentIdText), Trim(barcodeText), outcome) &&
      db.Snapshot() == old(db.Snapshot())
    ensures outcome.IssueFailed? ==>
      IssueAllowed(old(db.Snapshot()), Trim(studentIdText), Trim(barcodeText), outcome.memberId, outcome.copyId) &&
      fault != NoFault && db.Snapshot() == old(db.Snapshot())
    ensures outcome.IssueSucceeded? ==>
      && IssueAllowed(old(db.Snapshot()), Trim(studentIdText), Trim(barcodeText), outcome.memberId, outcome.copyId)
      && fault == NoFault
      && db.Snapshot() == AfterIssue(old(db.Snapshot()), outcome.memberId, outcome.copyId,
                                     old(db.copies)[outcome.copyId].bookId, today)
      && OpenLoansOfMember(db.loans, outcome.memberId) == {old(db.nextIssueId)}
      && db.loans[old(db.nextIssueId)].dueDate == today + LoanPeriodDays
  {
    ghost var before := db.Snapshot();
    var check := CheckIssue(db.Snapshot(), Trim(studentIdText), Trim(barcodeText));
    if check.IssueRefusal? {
      return check.refusal;
    }
    var memberId, copyId, bookId := check.memberId, check.copyId, check.bookId;
    var ok := IssueController.IssueBook(db, memberId, copyId, bookId, today, fault);
    if !ok {
      return IssueFailed(memberId, copyId);
    }
    IssueOutcomeHolds(before, memberId, copyId, bookId, today);
    outcome := IssueSucceeded(memberId, copyId);
  }

  /** What a committed issue leaves behind, whether or not the invariants held before. */
  lemma IssueOutcomeHolds(t: Tables, memberId: int, copyId: int, bookId: int, today: int)
    requires WellFormed(t)
    requires copyId in t.copies && t.copies[copyId].bookId == bookId && IsAvailableStatus(t.copies[copyId].status)
    requires OpenLoansOfMember(t.loans, memberId) == {}
    ensures Consistent(t) ==> Consistent(AfterIssue(t, memberId, copyId, bookId, today))
    ensures OpenLoansOfMember(AfterIssue(t, memberId, copyId, bookId, today).loans, memberId) == {t.nextIssueId}
  {
    if Consistent(t) {
      IssuePreservesConsistency(t, memberId, copyId, bookId, today);
    } else {
      OpenLoansAfterInsert(t.loans, t.nextIssueId, NewLoan(t.nextIssueId, memberId, copyId, today), copyId, memberId);
    }
  }

  /** `issueId` is an open loan of `copyId` issued no earlier than any other open loan of it. */
  ghost predicate NewestOpenLoanOf(t: Tables, copyId: int, issueId: int)
  {
    && issueId in OpenLoansOfCopy(t.loans, copyId)
    && forall j :: j in OpenLoansOfCopy(t.loans, copyId) ==> t.loans[j].issueDate <= t.loans[issueId].issueDate
  }

  /**
   * The return checks pass for loan `issueId`: it is open, it is the newest
   * open loan of a copy with the barcode, and its holder has the student id.
   */
  ghost predicate ReturnAllowed(t: Tables, studentId: string, barcode: string, issueId: int)
  {
    && issueId in t.loans
    && t.loans[issueId].status == Issued
    && HasStudentId(t.members, t.loans[issueId].memberId, studentId)
    && HasBarcode(t.copies, t.loans[issueId].copyId, barcode)
    && NewestOpenLoanOf(t, t.loans[issueId].copyId, issueId)
  }

  /** `outcome` is the first return check that fails, in the screen's order. */
  ghost predicate ReturnRefused(t: Tables, studentId: string, barcode: string, outcome: ReturnOutcome)
  {
    match outcome
    case MemberNotFound =>
      forall m :: m in t.members.Values ==> m.studentId != studentId
    case CopyNotFound =>
      MemberExists(t.members, studentId) && forall c :: c in t.copies.Values ==> c.barcode != barcode
    case NotIssued(copyId) =>
      MemberExists(t.members, studentId) && HasBarcode(t.copies, copyId, barcode) &&
      OpenLoansOfCopy(t.loans, copyId) == {}
    case IssuedToOther(copyId, holderId) =>
      (exists m :: HasStudentId(t.members, m, studentId) && m != holderId) &&
      HasBarcode(t.copies, copyId, barcode) &&
      exists i :: NewestOpenLoanOf(t, copyId, i) && t.loans[i].memberId == holderId
    case ReturnFailed(_) => false
    case ReturnedNoFine(_) => false
    case ReturnedWithFine(_, _) => false
  }

  /** The database after the return of loan `issueId`, of the copy and book it names, on `today`. */
  function ReturnOf(t: Tables, issueId: int, today: int): Tables
    requires issueId in t.loans && t.loans[issueId].copyId in t.copies
  {
    var copyId := t.loans[issueId].copyId;
    AfterReturn(t, issueId, copyId, t.copies[copyId].bookId, today)
  }

  /** What the return checks decide: a refusal, or the loan, copy and book to take back. */
  datatype ReturnCheck =
    | ReturnRefusal(refusal: ReturnOutcome)
    | ReturnClear(issueId: int, copyId: int, bookId: int)

  /**
   * Runs the return screen's checks in its order: the member by student
   * id, the copy by barcode, the copy's newest open loan, and that loan's
   * holder. Reads the database and changes nothing.
   */
  method CheckReturn(t: Tables, studentId: string, barcode: string) returns (r: ReturnCheck)
    requires WellFormed(t)
    ensures r.ReturnRefusal? ==> ReturnRefused(t, studentId, barcode, r.refusal)
    ensures r.ReturnClear? ==>
      && ReturnAllowed(t, studentId, barcode, r.issueId)
      && t.loans[r.issueId].copyId == r.copyId && t.copies[r.copyId].bookId == r.bookId
  {
    var member := GetMemberByStudentId(t.members, studentId);
    if member.None? {
      return ReturnRefusal(ReturnOutcome.MemberNotFound);
    }
    KeyedValue(t.members, MemberKey, member.value);
    assert HasStudentId(t.members, member.value.memberId, studentId);

    var copy := GetCopyByBarcode(t.copies, barcode);
    if copy.None? {
      return ReturnRefusal(ReturnOutcome.CopyNotFound);
    }
    KeyedValue(t.copies, CopyKey, copy.value);
    var copyId := copy.value.copyId;
    assert HasBarcode(t.copies, copyId, barcode);

    var active := GetActiveIssueByCopyId(t.loans, copyId);
    if active.None? {
      return ReturnRefusal(NotIssued(copyId));
    }
    assert NewestOpenLoanOf(t, copyId, active.value.issueId);
    if active.value.memberId != member.value.memberId {
      return ReturnRefusal(IssuedToOther(copyId, active.value.memberId));
    }
    // The row was just read under this key, so reading it again finds it.
    var issue := GetIssueById(t.loans, active.value.issueId).value;
    r := ReturnClear(issue.issueId, copyId, copy.value.bookId);
  }

  /**
   * Takes back the copy with barcode `barcodeText` from the member with
   * student id `studentIdText` (both trimmed) on `today`. Refused, in this
   * order, when the member or the copy is unknown, the copy has no open
   * loan, or its open loan belongs to another member; `fault` is where the
   * return transaction fails, if it does. After a return, a fine of
   * FineDailyRate per day late is recorded when it is positive;
   * `fineFault` is the database refusing that insert, which the screen
   * ignores. Only a return changes the database, and it keeps the
   * circulation invariants.
   */
  method ReturnBook(db: Database, studentIdText: string, barcodeText: string, today: int, fault: Fault, fineFault: bool)
    returns (outcome: ReturnOutcome)
    requires db.Valid()
    modifies db
    ensures db.Valid()
    ensures Consistent(old(db.Snapshot())) ==> Consistent(db.Snapshot())
    ensures !outcome.ReturnFailed? && !outcome.ReturnedNoFine? && !outcome.ReturnedWithFine? ==>
      ReturnRefused(old(db.Snapshot()), Trim(studentIdText), Trim(barcodeText), outcome) &&
      db.Snapshot() == old(db.Snapshot())
    ensures outcome.ReturnFailed? ==>
      ReturnAllowed(old(db.Snapshot()), Trim(studentIdText), Trim(barcodeText), outcome.issueId) &&
      fault != NoFault && db.Snapshot() == old(db.Snapshot())
    ensures outcome.ReturnedNoFine? ==>
      && ReturnAllowed(old(db.Snapshot()), Trim(studentIdText), Trim(barcodeText), outcome.issueId)
      && fault == NoFault
      && today <= old(db.loans)[outcome.issueId].dueDate
      && db.Snapshot() == ReturnOf(old(db.Snapshot()), outcome.issueId, today)
    ensures outcome.ReturnedWithFine? ==>
      && ReturnAllowed(old(db.Snapshot()), Trim(studentIdText), Trim(barcodeText), outcome.issueId)
      && fault == NoFault
      && var t := old(db.loans)[outcome.issueId];
         && today > t.dueDate
         && outcome.amount == (today - t.dueDate) * FineDailyRate
         && db.Snapshot() ==
            if fineFault then ReturnOf(old(db.Snapshot()), outcome.issueId, today)
            else WithFine(ReturnOf(old(db.Snapshot()), outcome.issueId, today),
                          Fine(0, outcome.issueId, t.memberId, outcome.amount, FineDailyRate,
                               today - t.dueDate, UnpaidStatus))
  {
    ghost var before := db.Snapshot();
    var check := CheckReturn(db.Snapshot(), Trim(studentIdText), Trim(barcodeText));
    if check.ReturnRefusal? {
      return check.refusal;
    }
    var issueId, copyId, bookId := check.issueId, check.copyId, check.bookId;
    var ok := IssueController.ReturnBook(db, issueId, copyId, bookId, today, fault);
    if !ok {
      return ReturnFailed(issueId);
    }
    ghost var returned := db.Snapshot();
    assert returned == ReturnOf(before, issueId, today);
    assert returned.loans[issueId] == before.loans[issueId].(returnDate := Some(today), status := Returned);
    if Consistent(before) {
      ReturnPreservesConsistency(before, issueId, copyId, bookId, today);
    }
    outcome := RecordLateFine(db, issueId, today, fineFault);
  }

  /**
   * The last step of a return: computes the fine for the just-closed loan
   * `issueId` at FineDailyRate and records it when it is positive;
   * `fineFault` is the database refusing the insert.
   */
  method RecordLateFine(db: Database, issueId: int, today: int, fineFault: bool) returns (outcome: ReturnOutcome)
    requires db.Valid() && issueId in db.loans && db.loans[issueId].returnDate == Some(today)
    modifies db
    ensures db.Valid()
    ensures Consistent(old(db.Snapshot())) ==> Consistent(db.Snapshot())
    ensures outcome.ReturnedNoFine? || outcome.ReturnedWithFine?
    ensures outcome.issueId == issueId
    ensures outcome.ReturnedNoFine? ==>
      today <= old(db.loans)[issueId].dueDate && db.Snapshot() == old(db.Snapshot())
    ensures outcome.ReturnedWithFine? ==>
      && var t := old(db.loans)[issueId];
         && today > t.dueDate
         && outcome.amount == (today - t.dueDate) * FineDailyRate
         && db.Snapshot() ==
            if fineFault then old(db.Snapshot())
            else WithFine(old(db.Snapshot()),
                          Fine(0, issueId, t.memberId, outcome.amount, FineDailyRate,
                               today - t.dueDate, UnpaidStatus))
  {
    var fine := CalculateFine(db.loans, issueId, FineDailyRate);
    if fine.Some? && fine.value.amount > 0 {
      ghost var fineId;
      var created;
      created, fineId := CreateFine(db, fine.value, fineFault);
      outcome := ReturnedWithFine(issueId, fine.value.amount);
    } else {
      outcome := ReturnedNoFine(issueId);
    }
  }

  /** The library of the end-to-end scenario: one book with two available copies and one member. */
  function ScenarioStart(): Tables
  {
    var book := Book(7, "Title", "Author", "ISBN-7", "Category", 2, 2, "ACTIVE");
    var c := BookCopy(3, 7, 1, "B1", "Shelf", AvailableStatus);
    var other := BookCopy(4, 7, 2, "B2", "Shelf", AvailableStatus);
    var m := Member(1, "S1", "First", "Last", "s1@example.org", "Dept", "ACTIVE");
    Tables(map[7 := book], map[3 := c, 4 := other], map[1 := m], map[], map[], map[], 1, 1)
  }

  lemma ScenarioStartIsConsistent()
    ensures WellFormed(ScenarioStart()) && Consistent(ScenarioStart())
  {
    var t0 := ScenarioStart();
    AvailableIsNotIssued();
    assert AvailableCopiesOf(t0.copies, 7) == {3, 4};
    forall k ensures OpenLoansOfCopy(t0.loans, k) == {} && OpenLoansOfMember(t0.loans, k) == {} {
    }
  }

  /**
   * A copy lent and brought back twenty days later: the book's available
   * quantity goes from 2 to 1 and back to 2, the invariants hold at every
   * step, and the return is five days late, so the fine is 5 days at the
   * daily rate.
   */
  lemma EndToEndScenario(day: int)
    ensures
      var t1 := AfterIssue(ScenarioStart(), 1, 3, 7, day);
      var t2 := AfterReturn(t1, 1, 3, 7, day + 20);
      && Consistent(t1) && Consistent(t2)
      && t1.books[7].availableQuantity == 1 && t1.copies[3].status == IssuedStatus
      && t1.loans[1].dueDate == day + 15 && t1.loans[1].status == Issued
      && t2.books[7].availableQuantity == 2 && t2.copies[3].status == AvailableStatus
      && t2.loans[1].status == Returned && t2.loans[1].returnDate == Some(day + 20)
      && CalculateFine(t2.loans, 1, FineDailyRate) == Some(Fine(0, 1, 1, 5 * FineDailyRate, FineDailyRate, 5, UnpaidStatus))
  {
    var t0 := ScenarioStart();
    ScenarioStartIsConsistent();
    IssuePreservesConsistency(t0, 1, 3, 7, day);
    var t1 := AfterIssue(t0, 1, 3, 7, day);
    ReturnPreservesConsistency(t1, 1, 3, 7, day + 20);
  }
}
