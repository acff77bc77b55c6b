/**
 * Circulation: lending a copy to a member and taking it back, each as one
 * database transaction of three writes, plus the lookups the issue and
 * return screen relies on.
 */
module IssueController {
  import opened Wrappers
  import opened Rows
  import opened Models
  import opened Store

  /** Days from the issue date to the due date. */
  const LoanPeriodDays: int := 15

  /**
   * Where, if anywhere, the database raises an error during a transaction:
   * at the loan write, the copy write, the quantity write or the commit.
   */
  datatype Fault = NoFault | AtLoanWrite | AtCopyWrite | AtQuantityWrite | AtCommit

  /** Sets the status of copy `copyId`; a missing copy matches no row and nothing changes. */
  function SetCopyStatus(copies: map<int, BookCopy>, copyId: int, status: string): (r: map<int, BookCopy>)
    ensures r.Keys == copies.Keys
    ensures forall c :: c in copies && c != copyId ==> r[c] == copies[c]
    ensures copyId in copies ==> r[copyId] == copies[copyId].(status := status)
  {
    if copyId in copies then copies[copyId := copies[copyId].(status := status)] else copies
  }

  /** Adds `delta` to the available quantity of book `bookId`; a missing book matches no row. */
  function AdjustQuantity(books: map<int, Book>, bookId: int, delta: int): (r: map<int, Book>)
    ensures r.Keys == books.Keys
    ensures forall b :: b in books && b != bookId ==> r[b] == books[b]
    ensures bookId in books ==>
      r[bookId] == books[bookId].(availableQuantity := books[bookId].availableQuantity + delta)
  {
    if bookId in books then books[bookId := books[bookId].(availableQuantity := books[bookId].availableQuantity + delta)]
    else books
  }

  /** Marks loan `issueId` returned on `today`, whatever its status was; a missing loan matches no row. */
  function CloseLoan(loans: map<int, IssueTransaction>, issueId: int, today: int): (r: map<int, IssueTransaction>)
    ensures r.Keys == loans.Keys
    ensures forall i :: i in loans && i != issueId ==> r[i] == loans[i]
    ensures issueId in loans ==> r[issueId] == loans[issueId].(returnDate := Some(today), status := Returned)
  {
    if issueId in loans then loans[issueId := loans[issueId].(returnDate := Some(today), status := Returned)]
    else loans
  }

  /** The loan row an issue on `today` inserts under AutoNumber key `issueId`. */
  function NewLoan(issueId: int, memberId: int, copyId: int, today: int): IssueTransaction
  {
    IssueTransaction(issueId, memberId, copyId, today, today + LoanPeriodDays, None, Issued)
  }

  /** The database after a committed issue of copy `copyId` of book `bookId` to `memberId`. */
  function AfterIssue(t: Tables, memberId: int, copyId: int, bookId: int, today: int): (r: Tables)
    ensures WellFormed(t) ==> WellFormed(r) && t.nextIssueId !in t.loans
    ensures r.members == t.members && r.fines == t.fines && r.logs == t.logs && r.nextFineId == t.nextFineId
  {
    var id := t.nextIssueId;
    t.(loans := t.loans[id := NewLoan(id, memberId, copyId, today)],
       copies := SetCopyStatus(t.copies, copyId, IssuedStatus),
       books := AdjustQuantity(t.books, bookId, -1),
       nextIssueId := id + 1)
  }

  /** The database after a committed return of loan `issueId` of copy `copyId` of book `bookId`. */
  function AfterReturn(t: Tables, issueId: int, copyId: int, bookId: int, today: int): (r: Tables)
    ensures WellFormed(t) ==> WellFormed(r)
    ensures r.members == t.members && r.fines == t.fines && r.logs == t.logs
    ensures r.nextIssueId == t.nextIssueId && r.nextFineId == t.nextFineId
  {
    t.(loans := CloseLoan(t.loans, issueId, today),
       copies := SetCopyStatus(t.copies, copyId, AvailableStatus),
       books := AdjustQuantity(t.books, bookId, 1))
  }

  /**
   * Lends copy `copyId` of book `bookId` to `memberId` on `today`: inserts
   * an ISSUED loan due after the loan period, sets the copy ISSUED and takes
   * one from the book's available quantity. Nothing is checked here; the
   * three writes commit together, or, when the database raises an error at
   * the point `fault`, are rolled back.
   */
  method IssueBook(db: Database, memberId: int, copyId: int, bookId: int, today: int, fault: Fault)
    returns (ok: bool)
    requires db.Valid()
    modifies db
    ensures db.Valid()
    ensures ok <==> fault == NoFault
    ensures db.Snapshot() ==
      if ok then AfterIssue(old(db.Snapshot()), memberId, copyId, bookId, today) else old(db.Snapshot())
  {
    var saved := db.Snapshot();
    if fault == AtLoanWrite {
      return false;
    }
    var id := db.nextIssueId;
    db.loans := db.loans[id := NewLoan(id, memberId, copyId, today)];
    db.nextIssueId := id + 1;
    if fault == AtCopyWrite {
      db.Restore(saved);
      return false;
    }
    db.copies := SetCopyStatus(db.copies, copyId, IssuedStatus);
    if fault == AtQuantityWrite {
      db.Restore(saved);
      return false;
    }
    db.books := AdjustQuantity(db.books, bookId, -1);
    if fault == AtCommit {
      db.Restore(saved);
      return false;
    }
    assert db.Snapshot() == AfterIssue(saved, memberId, copyId, bookId, today);
    ok := true;
  }

  /**
   * Takes back copy `copyId` of book `bookId` under loan `issueId` on
   * `today`: marks the loan RETURNED with that return date, sets the copy
   * AVAILABLE and adds one to the book's available quantity. The loan's
   * current status is not checked. All or nothing, as for IssueBook.
   */
  method ReturnBook(db: Database, issueId: int, copyId: int, bookId: int, today: int, fault: Fault)
    returns (ok: bool)
    requires db.Valid()
    modifies db
    ensures db.Valid()
    ensures ok <==> fault == NoFault
    ensures db.Snapshot() ==
      if ok then AfterReturn(old(db.Snapshot()), issueId, copyId, bookId, today) else old(db.Snapshot())
  {
    var saved := db.Snapshot();
    if fault == AtLoanWrite {
      return false;
    }
    db.loans := CloseLoan(db.loans, issueId, today);
    if fault == AtCopyWrite {
      db.Restore(saved);
      return false;
    }
    db.copies := SetCopyStatus(db.copies, copyId, AvailableStatus);
    if fault == AtQuantityWrite {
      db.Restore(saved);
      return false;
    }
    db.books := AdjustQuantity(db.books, bookId, 1);
    if fault == AtCommit {
      db.Restore(saved);
      return false;
    }
    assert db.Snapshot() == AfterReturn(saved, issueId, copyId, bookId, today);
    ok := true;
  }

  /** The loan keyed `issueId`, or None. */
  function GetIssueById(loans: map<int, IssueTransaction>, issueId: int): (r: Option<IssueTransaction>)
    requires Keyed(loans, LoanKey)
    ensures r.Some? <==> issueId in loans
    ensures r.Some? ==> r.value in loans.Values && r.value.issueId == issueId
  {
    if issueId in loans then Some(loans[issueId]) else None
  }

  /** Latest issue date first. */
  predicate NewestIssueFirst(a: IssueTransaction, b: IssueTransaction)
  {
    a.issueDate >= b.issueDate
  }

  /**
   * The open (ISSUED) loan of copy `copyId` with the latest issue date, or
   * None when the copy has no open loan.
   */
  method GetActiveIssueByCopyId(loans: map<int, IssueTransaction>, copyId: int) returns (r: Option<IssueTransaction>)
    requires Keyed(loans, LoanKey)
    ensures r.None? <==> OpenLoansOfCopy(loans, copyId) == {}
    ensures r.Some? ==> r.value.issueId in OpenLoansOfCopy(loans, copyId) && loans[r.value.issueId] == r.value
    ensures r.Some? ==> forall i :: i in OpenLoansOfCopy(loans, copyId) ==> loans[i].issueDate <= r.value.issueDate
  {
    var open := CollectSorted(loans, LoanKey, (t: IssueTransaction) => t.copyId == copyId && t.status == Issued,
                              NewestIssueFirst);
    forall i | i in OpenLoansOfCopy(loans, copyId) ensures loans[i] in open {
      assert loans[i] in loans.Values;
    }
    if open == [] {
      r := None;
    } else {
      r := Some(open[0]);
      assert open[0] in open;
      KeyedValue(loans, LoanKey, open[0]);
      assert open[0].issueId in OpenLoansOfCopy(loans, copyId);
      forall i | i in OpenLoansOfCopy(loans, copyId) ensures loans[i].issueDate <= open[0].issueDate {
        assert loans[i] in loans.Values;
        var j := IndexOf(open, loans[i]);
      }
    }
  }

  /** Whether `memberId` holds at least one open loan (a count of ISSUED loans above zero). */
  function MemberHasIssuedBook(loans: map<int, IssueTransaction>, memberId: int): (r: bool)
    ensures r <==> OpenLoansOfMember(loans, memberId) != {}
  {
    |OpenLoansOfMember(loans, memberId)| > 0
  }

  // ---------------------------------------------------------------------
  // How each write moves the sets the circulation invariants count.
  // ---------------------------------------------------------------------

  /** Setting a copy's status moves it into or out of its book's available set, and touches no other book's. */
  lemma AvailableCopiesAfterSetStatus(copies: map<int, BookCopy>, copyId: int, status: string, bookId: int)
    ensures AvailableCopiesOf(SetCopyStatus(copies, copyId, status), bookId) ==
      if copyId in copies && copies[copyId].bookId == bookId then
        (if IsAvailableStatus(status) then AvailableCopiesOf(copies, bookId) + {copyId}
         else AvailableCopiesOf(copies, bookId) - {copyId})
      else AvailableCopiesOf(copies, bookId)
  {
  }

  /** Inserting an open loan under a fresh key adds it to its copy's and its member's open sets only. */
  lemma OpenLoansAfterInsert(loans: map<int, IssueTransaction>, id: int, loan: IssueTransaction, copyId: int, memberId: int)
    requires id !in loans && loan.status == Issued
    ensures OpenLoansOfCopy(loans[id := loan], copyId) ==
      if loan.copyId == copyId then OpenLoansOfCopy(loans, copyId) + {id} else OpenLoansOfCopy(loans, copyId)
    ensures OpenLoansOfMember(loans[id := loan], memberId) ==
      if loan.memberId == memberId then OpenLoansOfMember(loans, memberId) + {id} else OpenLoansOfMember(loans, memberId)
  {
  }

  /** Closing a loan removes it from every open set. */
  lemma OpenLoansAfterClose(loans: map<int, IssueTransaction>, issueId: int, today: int, copyId: int, memberId: int)
    ensures OpenLoansOfCopy(CloseLoan(loans, issueId, today), copyId) == OpenLoansOfCopy(loans, copyId) - {issueId}
    ensures OpenLoansOfMember(CloseLoan(loans, issueId, today), memberId) == OpenLoansOfMember(loans, memberId) - {issueId}
  {
  }

  lemma AvailableIsNotIssued()
    ensures !IsAvailableStatus(IssuedStatus) && IsAvailableStatus(AvailableStatus)
  {
  }

  /**
   * Lending an available copy to a member with no open loan keeps the
   * circulation invariants; afterwards the member holds exactly the new
   * loan, the copy is ISSUED and its book has one copy fewer available.
   */
  lemma IssuePreservesConsistency(t: Tables, memberId: int, copyId: int, bookId: int, today: int)
    requires WellFormed(t) && Consistent(t)
    requires copyId in t.copies && t.copies[copyId].bookId == bookId && IsAvailableStatus(t.copies[copyId].status)
    requires OpenLoansOfMember(t.loans, memberId) == {}
    ensures Consistent(AfterIssue(t, memberId, copyId, bookId, today))
    ensures OpenLoansOfMember(AfterIssue(t, memberId, copyId, bookId, today).loans, memberId) == {t.nextIssueId}
    ensures OpenLoansOfCopy(AfterIssue(t, memberId, copyId, bookId, today).loans, copyId) == {t.nextIssueId}
    ensures AfterIssue(t, memberId, copyId, bookId, today).copies[copyId].status == IssuedStatus
    ensures bookId in t.books ==>
      AfterIssue(t, memberId, copyId, bookId, today).books[bookId].availableQuantity ==
      t.books[bookId].availableQuantity - 1
  {
    var r := AfterIssue(t, memberId, copyId, bookId, today);
    var id := t.nextIssueId;
    var loan := NewLoan(id, memberId, copyId, today);
    AvailableIsNotIssued();
    forall c | c in r.copies ensures |OpenLoansOfCopy(r.loans, c)| == if r.copies[c].status == IssuedStatus then 1 else 0 {
      OpenLoansAfterInsert(t.loans, id, loan, c, memberId);
      if c == copyId {
        assert |OpenLoansOfCopy(t.loans, c)| == 0;
        assert OpenLoansOfCopy(r.loans, c) == {id};
      }
    }
    forall b | b in r.books ensures r.books[b].availableQuantity == |AvailableCopiesOf(r.copies, b)| {
      AvailableCopiesAfterSetStatus(t.copies, copyId, IssuedStatus, b);
      if b == bookId {
        var a := AvailableCopiesOf(t.copies, b);
        assert a == (a - {copyId}) + {copyId};
      }
    }
    forall m ensures |OpenLoansOfMember(r.loans, m)| <= 1 {
      OpenLoansAfterInsert(t.loans, id, loan, copyId, m);
    }
    OpenLoansAfterInsert(t.loans, id, loan, copyId, memberId);
    assert |OpenLoansOfCopy(t.loans, copyId)| == 0;
  }

  /**
   * Taking back a copy under its open loan keeps the circulation
   * invariants; afterwards the loan is closed with today's date, the copy
   * has no open loan and its book has one copy more available.
   */
  lemma ReturnPreservesConsistency(t: Tables, issueId: int, copyId: int, bookId: int, today: int)
    requires WellFormed(t) && Consistent(t)
    requires issueId in t.loans && t.loans[issueId].status == Issued && t.loans[issueId].copyId == copyId
    requires copyId in t.copies && t.copies[copyId].bookId == bookId
    ensures Consistent(AfterReturn(t, issueId, copyId, bookId, today))
    ensures AfterReturn(t, issueId, copyId, bookId, today).loans[issueId].status == Returned
    ensures AfterReturn(t, issueId, copyId, bookId, today).loans[issueId].returnDate == Some(today)
    ensures OpenLoansOfCopy(AfterReturn(t, issueId, copyId, bookId, today).loans, copyId) == {}
    ensures OpenLoansOfMember(AfterReturn(t, issueId, copyId, bookId, today).loans, t.loans[issueId].memberId) == {}
    ensures bookId in t.books ==>
      AfterReturn(t, issueId, copyId, bookId, today).books[bookId].availableQuantity ==
      t.books[bookId].availableQuantity + 1
  {
    var r := AfterReturn(t, issueId, copyId, bookId, today);
    AvailableIsNotIssued();
    var holder := t.loans[issueId].memberId;
    assert issueId in OpenLoansOfCopy(t.loans, copyId);
    assert issueId in OpenLoansOfMember(t.loans, holder);
    // The copy was ISSUED under exactly this loan.
    assert t.copies[copyId].status == IssuedStatus;
    assert OpenLoansOfCopy(t.loans, copyId) == {issueId} by {
      var s := OpenLoansOfCopy(t.loans, copyId);
      assert |s - {issueId}| == 0;
    }
    assert OpenLoansOfMember(t.loans, holder) == {issueId} by {
      var s := OpenLoansOfMember(t.loans, holder);
      assert |s - {issueId}| == 0;
    }
    forall c | c in r.copies ensures |OpenLoansOfCopy(r.loans, c)| == if r.copies[c].status == IssuedStatus then 1 else 0 {
      OpenLoansAfterClose(t.loans, issueId, today, c, holder);
    }
    forall b | b in r.books ensures r.books[b].availableQuantity == |AvailableCopiesOf(r.copies, b)| {
      AvailableCopiesAfterSetStatus(t.copies, copyId, AvailableStatus, b);
    }
    forall m ensures |OpenLoansOfMember(r.loans, m)| <= 1 {
      OpenLoansAfterClose(t.loans, issueId, today, copyId, m);
    }
    OpenLoansAfterClose(t.loans, issueId, today, copyId, holder);
  }

  /**
   * The return transaction does not look at the loan's status: applied
   * twice to the same loan it adds two to the book's available quantity
   * although only one copy came back.
   */
  lemma ReturnTwiceCountsTwice(t: Tables, issueId: int, copyId: int, bookId: int, today: int)
    requires bookId in t.books
    ensures var twice := AfterReturn(AfterReturn(t, issueId, copyId, bookId, today), issueId, copyId, bookId, today);
      twice.books[bookId].availableQuantity == t.books[bookId].availableQuantity + 2
  {
  }
}
