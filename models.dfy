/**
 * The rows of the library database, one datatype per table. Dates are day
 * numbers, log times are instants in one integer unit, money is an integer
 * amount in the currency's smallest unit.
 */
module Models {
  import opened Wrappers

  /** A catalogue title (table Books). */
  datatype Book = Book(
    bookId: int, title: string, author: string, isbn: string, category: string,
    totalQuantity: int, availableQuantity: int, status: string)

  /** One physical copy of a book (table BookCopies). */
  datatype BookCopy = BookCopy(
    copyId: int, bookId: int, copyNumber: int, barcode: string, location: string, status: string)

  /** A library member (table Members). */
  datatype Member = Member(
    memberId: int, studentId: string, firstName: string, lastName: string,
    email: string, department: string, status: string)

  /** The two values the circulation code writes into IssueTransactions.status. */
  datatype LoanStatus = Issued | Returned

  /** A loan of one copy to one member (table IssueTransactions). */
  datatype IssueTransaction = IssueTransaction(
    issueId: int, memberId: int, copyId: int, issueDate: int, dueDate: int,
    returnDate: Option<int>, status: LoanStatus)

  /** An overdue fine (table Fines). */
  datatype Fine = Fine(
    fineId: int, issueId: int, memberId: int, amount: int, dailyRate: int,
    overdueDays: int, status: string)

  /** One entry of the audit trail (table AuditLog). */
  datatype AuditLog = AuditLog(logId: int, userId: int, action: string, targetType: string, logTime: int)

  /** Copy status values written by the circulation code. */
  const AvailableStatus: string := "AVAILABLE"
  const IssuedStatus: string := "ISSUED"

  /** Fine status values written by the fine code. */
  const UnpaidStatus: string := "UNPAID"
  const PaidStatus: string := "PAID"
  const WaivedStatus: string := "WAIVED"

  // Primary keys, for the generic table operations.
  function BookKey(b: Book): int { b.bookId }
  function CopyKey(c: BookCopy): int { c.copyId }
  function MemberKey(m: Member): int { m.memberId }
  function LoanKey(t: IssueTransaction): int { t.issueId }
  function FineKey(f: Fine): int { f.fineId }
  function LogKey(l: AuditLog): int { l.logId }
}
