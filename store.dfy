/**
 * The database the controllers share: six tables held as maps from primary
 * key to row, and the AutoNumber counters that give IssueTransactions and
 * Fines their keys. Also the circulation invariants the issue and return
 * workflows are meant to keep.
 */
module Store {
  import opened Wrappers
  import opened Strings
  import opened Rows
  import opened Models

  /** The content of the database at one moment. */
  datatype Tables = Tables(
    books: map<int, Book>,
    copies: map<int, BookCopy>,
    members: map<int, Member>,
    loans: map<int, IssueTransaction>,
    fines: map<int, Fine>,
    logs: map<int, AuditLog>,
    nextIssueId: int,
    nextFineId: int)

  /** Rows sit under their own keys and the AutoNumber counters are ahead of every key. */
  ghost predicate WellFormed(t: Tables)
  {
    && Keyed(t.books, BookKey)
    && Keyed(t.copies, CopyKey)
    && Keyed(t.members, MemberKey)
    && Keyed(t.loans, LoanKey)
    && Keyed(t.fines, FineKey)
    && Keyed(t.logs, LogKey)
    && (forall i :: i in t.loans ==> i < t.nextIssueId)
    && (forall i :: i in t.fines ==> i < t.nextFineId)
  }

  /** A copy status counts as available when it equals "AVAILABLE" ignoring case. */
  predicate IsAvailableStatus(status: string)
  {
    EqualsIgnoreCase(status, AvailableStatus)
  }

  /** Keys of the loans of `copyId` still in status ISSUED. */
  function OpenLoansOfCopy(loans: map<int, IssueTransaction>, copyId: int): set<int>
  {
    set i | i in loans && loans[i].copyId == copyId && loans[i].status == Issued
  }

  /** Keys of the loans of `memberId` still in status ISSUED. */
  function OpenLoansOfMember(loans: map<int, IssueTransaction>, memberId: int): set<int>
  {
    set i | i in loans && loans[i].memberId == memberId && loans[i].status == Issued
  }

  /** Keys of the copies of `bookId` whose status counts as available. */
  function AvailableCopiesOf(copies: map<int, BookCopy>, bookId: int): set<int>
  {
    set k | k in copies && copies[k].bookId == bookId && IsAvailableStatus(copies[k].status)
  }

  /** A copy is ISSUED exactly when one open loan references it, and otherwise none does. */
  ghost predicate CopyStatusMatchesLoans(t: Tables)
  {
    forall c :: c in t.copies ==>
      |OpenLoansOfCopy(t.loans, c)| == if t.copies[c].status == IssuedStatus then 1 else 0
  }

  /** Each book's availableQuantity counts its available copies. */
  ghost predicate QuantityMatchesCopies(t: Tables)
  {
    forall b :: b in t.books ==> t.books[b].availableQuantity == |AvailableCopiesOf(t.copies, b)|
  }

  /** No member holds two open loans. */
  ghost predicate AtMostOneLoanPerMember(t: Tables)
  {
    forall m :: |OpenLoansOfMember(t.loans, m)| <= 1
  }

  ghost predicate Consistent(t: Tables)
  {
    CopyStatusMatchesLoans(t) && QuantityMatchesCopies(t) && AtMostOneLoanPerMember(t)
  }

  /** The database: one field per table, updated in place by the controllers. */
  class Database {
    var books: map<int, Book>
    var copies: map<int, BookCopy>
    var members: map<int, Member>
    var loans: map<int, IssueTransaction>
    var fines: map<int, Fine>
    var logs: map<int, AuditLog>
    var nextIssueId: int
    var nextFineId: int

    constructor ()
      ensures Valid()
      ensures Snapshot() == Tables(map[], map[], map[], map[], map[], map[], 1, 1)
    {
      books, copies, members := map[], map[], map[];
      loans, fines, logs := map[], map[], map[];
      nextIssueId, nextFineId := 1, 1;
    }

    function Snapshot(): Tables
      reads this
    {
      Tables(books, copies, members, loans, fines, logs, nextIssueId, nextFineId)
    }

    ghost predicate Valid()
      reads this
    {
      WellFormed(Snapshot())
    }

    /** Puts every table and counter back as they were in `t`: the rollback of a transaction. */
    method Restore(t: Tables)
      modifies this
      ensures Snapshot() == t
    {
      books, copies, members := t.books, t.copies, t.members;
      loans, fines, logs := t.loans, t.fines, t.logs;
      nextIssueId, nextFineId := t.nextIssueId, t.nextFineId;
    }
  }
}
