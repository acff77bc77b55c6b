# Library circulation and fines, modelled in Dafny

This project models the circulation and fines core of a small library
management system written in Java over an Access database reached through
UCanAccess. Six tables hold the library's state:

- **Books**: catalogue titles with a total and an available quantity.
- **BookCopies**: physical copies, each with a barcode and a status.
- **Members**: library members, each with a student id.
- **IssueTransactions**: loans.
- **Fines**: overdue fines.
- **AuditLog**: the audit trail.

The controllers create, update, delete, look up and list rows. The
issue/return screen lends and takes back copies:

- **Issue.** The screen looks the member up by student id and the copy by
  barcode, and refuses when the copy is not available or the member already
  holds a loan. Otherwise it runs a three-write transaction: insert the loan,
  mark the copy ISSUED, and take one from the book's available quantity.
- **Return.** The screen checks that the copy's open loan belongs to the
  member presenting it. It then runs the mirror transaction: close the loan,
  mark the copy AVAILABLE, and add one to the quantity. On a late return it
  records a fine of 10 per day.

Layout of the model:

- `Models` has one datatype per row.
- `Store` holds:
  - the `Tables` value: every table as a map from primary key to row, plus the AutoNumber counters that key loans and fines;
  - the `Database` class, whose map fields the controller methods update in place;
  - the circulation invariants.
- One module per controller:
  - `BookController`
  - `BookCopyController`
  - `MemberController`
  - `AuditLogController`
  - `FineController`
  - `IssueController`
- `IssueReturnUI` holds the two workflows of the issue/return screen.
- `Rows` holds the generic table scans:
  - the "largest key plus one" id allocation;
  - the result-list loops, with and without ORDER BY.
- `Strings` holds the text operations the code relies on:
  - a code-point order on text, standing in for the database engine's collation in ORDER BY;
  - `equalsIgnoreCase`;
  - `trim`;
  - the substring test behind `LIKE '%q%'`.

The circulation invariants (`Store.Consistent`) are:

- A copy's status is ISSUED exactly when one open loan references it; otherwise no open loan does.
- Every book's available quantity equals the number of its copies whose status is AVAILABLE (ignoring case).
- No member holds more than one open loan.

Provided the read queries succeed, both workflows keep these invariants. So does every sequence of them, since each call keeps them.

Where a statement fails with an SQLException, the model takes a failure
parameter instead:

- a `fault` flag on single statements;
- a `Fault` value on the issue and return transactions, saying which write or the commit fails.

The model follows the code where the code and its design notes differ:

- `markFineAsPaid` and `waiveFine` overwrite the status whatever it was. There is no "already settled" refusal, so a paid fine can still be waived (`FineController.LaterSettlementWins`).
- `createFine` records a second fine for a loan that already has one.
- A member's fines are ordered by the status text, so PAID fines come first, then UNPAID, then WAIVED. They are not ordered "unpaid first".
- The `returnBook` transaction does not reject a loan that is already returned. Only the screen's guard stops that (`IssueController.ReturnTwiceCountsTwice`).
- Lookups by a non-key column return some matching row, and the open-loan lookup returns the newest. Neither reports that more than one row matched.

## Model

| member | source | states |
|---|---|---|
| `Rows.NextId` | src/controllers/BookController.java:28-34 | The new key is 1 for an empty table and otherwise one above the largest key, so it is fresh (shared by createBook, createCopy, createMember, logAction) |
| `Rows.Collect` | src/controllers/BookController.java:164-166 | The result-list loop yields exactly the rows the WHERE clause selects, each once |
| `Rows.CollectSorted` | src/controllers/BookController.java:215-223 | As Collect, and the list is in ORDER BY order |
| `Rows.InsertSorted` | src/controllers/BookController.java:215 | Placing a row into an ordered list keeps it ordered and loses or adds nothing else |
| `Strings.StrLeqTotal` | src/controllers/BookController.java:215 | The text order used for ORDER BY compares any two strings |
| `Strings.StrLeqTransitive` | src/controllers/BookController.java:215 | The text order is transitive |
| `Strings.StrLeqAntisymmetric` | src/controllers/FineController.java:127 | Two strings that sort no later than each other are equal |
| `Strings.EqualsIgnoreCaseExamples` | src/controllers/BookCopyController.java:186 | "available" and "Available" count as AVAILABLE, "ISSUED" does not |
| `Strings.ContainsAt` | src/controllers/BookController.java:161 | A query occurring at any position of the text matches `LIKE '%q%'` |
| `Strings.ContainsWitness` | src/controllers/BookController.java:191 | A text matching `LIKE '%q%'` holds the query at some position |
| `Strings.TrimStart` | src/UI/IssueReturnUI.java:161 | Leading characters up to U+0020 are dropped and nothing else |
| `Strings.TrimEnd` | src/UI/IssueReturnUI.java:167 | Trailing characters up to U+0020 are dropped and nothing else |
| `Strings.Trim` | src/UI/IssueReturnUI.java:209 | The result is a contiguous slice of the input with no blank at either end, and every character outside the slice is blank (up to U+0020). Every non-blank character is kept, and an already trimmed input is unchanged |
| `BookController.CreateBook` | src/controllers/BookController.java:19-54 | The book is stored under a fresh key, with its quantities as given, and is found by that key; nothing else changes; a database error changes nothing |
| `BookController.UpdateBook` | src/controllers/BookController.java:59-82 | True exactly when the key exists; then that row, quantities included, is overwritten and no other row changes |
| `BookController.DeleteBook` | src/controllers/BookController.java:87-101 | True exactly when the key existed; then only that row is gone |
| `BookController.GetBookById` | src/controllers/BookController.java:106-125 | A book is returned exactly when the key exists, and it is the row with that key |
| `BookController.GetBookByIsbn` | src/controllers/BookController.java:130-149 | None exactly when no book has that ISBN; otherwise a book with that ISBN |
| `BookController.SearchBooksByTitle` | src/controllers/BookController.java:154-174 | Exactly the books whose title contains the text, each once |
| `BookController.TitleOrderIsTotalPreorder` | src/controllers/BookController.java:186 | Ordering books by title is a total preorder |
| `BookController.SearchBooks` | src/controllers/BookController.java:179-208 | Exactly the books whose title, author or ISBN contains the query, ordered by title; a missing query lists every book |
| `BookController.GetAllBooks` | src/controllers/BookController.java:213-231 | Every book once, ordered by title |
| `BookCopyController.CreateCopy` | src/controllers/BookCopyController.java:20-53 | The copy is stored under a fresh key with the given fields and found by that key; nothing else changes |
| `BookCopyController.UpdateCopy` | src/controllers/BookCopyController.java:59-80 | True exactly when the key exists; then that row is overwritten and no other row changes |
| `BookCopyController.DeleteCopy` | src/controllers/BookCopyController.java:86-100 | True exactly when the key existed; then only that row is gone |
| `BookCopyController.GetCopyById` | src/controllers/BookCopyController.java:106-123 | A copy is returned exactly when the key exists, and it is the row with that key |
| `BookCopyController.GetCopyByBarcode` | src/controllers/BookCopyController.java:129-146 | None exactly when no copy has that barcode; otherwise a copy with that barcode |
| `BookCopyController.GetCopiesOfBook` | src/controllers/BookCopyController.java:152-170 | Exactly the copies of the book, each once, by ascending copy number |
| `BookCopyController.IsCopyAvailable` | src/controllers/BookCopyController.java:176-194 | True only for an existing copy, and for one exactly when it counts among its book's available copies (status AVAILABLE ignoring case); the same check as src/controllers/IssueController.java:205-224 |
| `BookCopyController.GetAvailableCopies` | src/controllers/BookCopyController.java:200-218 | Exactly the copies of the book whose status is AVAILABLE, each once, and every one of them passes the lending check |
| `MemberController.CreateMember` | src/controllers/MemberController.java:20-54 | The member is stored under a fresh key with the given fields and found by that key; nothing else changes |
| `MemberController.UpdateMember` | src/controllers/MemberController.java:60-82 | True exactly when the key exists; then that row is overwritten and no other row changes |
| `MemberController.DeleteMember` | src/controllers/MemberController.java:88-102 | True exactly when the key existed; then only that row is gone |
| `MemberController.GetMemberById` | src/controllers/MemberController.java:108-127 | A member is returned exactly when the key exists, and it is the row with that key |
| `MemberController.GetMemberByStudentId` | src/controllers/MemberController.java:133-151 | None exactly when no member has that student id; otherwise a member with it |
| `MemberController.FirstNameOrderIsTotalPreorder` | src/controllers/MemberController.java:159 | Ordering members by first name is a total preorder |
| `MemberController.GetAllMembers` | src/controllers/MemberController.java:157-175 | Every member once, ordered by first name |
| `AuditLogController.LogAction` | src/controllers/AuditLogController.java:21-54 | Exactly one entry is appended, under a fresh key, with the given user, action, target and the current time; existing entries are untouched |
| `AuditLogController.GetAllLogs` | src/controllers/AuditLogController.java:60-76 | Every entry once, newest first |
| `AuditLogController.GetLogsByUser` | src/controllers/AuditLogController.java:82-100 | Exactly the entries of that user, newest first |
| `AuditLogController.GetLogsByAction` | src/controllers/AuditLogController.java:106-124 | Exactly the entries with that action, newest first |
| `AuditLogController.GetLogsBetween` | src/controllers/AuditLogController.java:130-151 | Exactly the entries stamped within the window, both bounds included, newest first; an inverted window gives none |
| `FineController.OverdueDays` | src/controllers/FineController.java:40-43 | Never negative, at least the days past the due date, and either 0 or exactly those days |
| `FineController.FinePolicyExamples` | src/controllers/FineController.java:40-45 | A return on the due date gives 0 days; three days late gives 3 days and 30 at rate 10 |
| `FineController.OverdueDaysMonotonic` | src/controllers/FineController.java:40-43 | A later return or an earlier due date never gives fewer days |
| `FineController.ProductPositive` | src/controllers/FineController.java:45 | Days times rate is positive exactly when both are, and never negative for a non-negative rate |
| `FineController.CalculateFine` | src/controllers/FineController.java:21-62 | None exactly when the loan is missing or not returned; otherwise an UNPAID fine for the loan's member with days late times the rate, never negative for a non-negative rate, and positive exactly when the rate is positive and the return was late |
| `FineController.WithFine` | src/controllers/FineController.java:69-90 | Recording a fine adds exactly one row under the next key and keeps the circulation invariants |
| `FineController.CreateFine` | src/controllers/FineController.java:69-90 | The fine is stored under the next AutoNumber key, with no check against other fines of the same loan; a database error changes nothing |
| `FineController.GetFineByIssue` | src/controllers/FineController.java:97-117 | None exactly when no fine names that loan; otherwise a fine of that loan |
| `FineController.FineOrderIsTotalPreorder` | src/controllers/FineController.java:127 | Status text ascending, then fineId descending, is a total preorder |
| `FineController.StatusTextOrder` | src/controllers/FineController.java:127 | As text, PAID sorts before UNPAID, which sorts before WAIVED |
| `FineController.GetFinesForMember` | src/controllers/FineController.java:124-146 | Exactly the member's fines, each once, by status text and then newest first; no UNPAID or WAIVED fine precedes a PAID one, and no WAIVED fine precedes an UNPAID one |
| `FineController.SetFineStatus` | src/controllers/FineController.java:155 | Settling changes only that fine's status, and only when the fine exists |
| `FineController.LaterSettlementWins` | src/controllers/FineController.java:153-190 | Settling twice is the same as settling once with the later status |
| `FineController.MarkFineAsPaid` | src/controllers/FineController.java:153-168 | True exactly when the fine exists; its status becomes PAID whatever it was, and no other fine changes |
| `FineController.WaiveFine` | src/controllers/FineController.java:175-190 | True exactly when the fine exists; its status becomes WAIVED whatever it was, and no other fine changes |
| `IssueController.SetCopyStatus` | src/controllers/IssueController.java:25-26 | Only that copy's status changes, and only if the copy exists |
| `IssueController.AdjustQuantity` | src/controllers/IssueController.java:28-29 | Only that book's available quantity moves, by exactly the delta, and only if the book exists |
| `IssueController.CloseLoan` | src/controllers/IssueController.java:83-84 | Only that loan changes: it gets today's return date and status RETURNED |
| `IssueController.AfterIssue` | src/controllers/IssueController.java:19-73 | The issue's effect keeps rows under their keys and the counters ahead; members, fines and the audit trail are untouched |
| `IssueController.AfterReturn` | src/controllers/IssueController.java:81-127 | The return's effect keeps rows under their keys; members, fines, the audit trail and the counters are untouched |
| `IssueController.IssueBook` | src/controllers/IssueController.java:19-73 | On commit the database is the issue's effect: one new ISSUED loan with no return date, due 15 days after issue; the copy ISSUED; one fewer available. On an error at any write or at the commit, false and nothing changed |
| `IssueController.ReturnBook` | src/controllers/IssueController.java:81-127 | On commit the database is the return's effect: the loan RETURNED with today's date, the copy AVAILABLE, one more available. On any error, false and nothing changed |
| `IssueController.GetIssueById` | src/controllers/IssueController.java:135-163 | A loan is returned exactly when the key exists, and it is the row with that key |
| `IssueController.GetActiveIssueByCopyId` | src/controllers/IssueController.java:170-197 | None exactly when the copy has no open loan; otherwise one of its open loans with the latest issue date |
| `IssueController.MemberHasIssuedBook` | src/controllers/IssueController.java:232-252 | True exactly when the member has an open loan |
| `IssueController.AvailableCopiesAfterSetStatus` | src/controllers/IssueController.java:53-57 | Setting a copy's status moves it into or out of its own book's available set and touches no other book's |
| `IssueController.OpenLoansAfterInsert` | src/controllers/IssueController.java:35-51 | A new open loan joins only its own copy's and member's open sets |
| `IssueController.OpenLoansAfterClose` | src/controllers/IssueController.java:96-105 | Closing a loan removes it from every open set and adds nothing |
| `IssueController.AvailableIsNotIssued` | src/controllers/IssueController.java:25-26 | The status ISSUED does not count as available, and AVAILABLE does |
| `IssueController.IssuePreservesConsistency` | src/controllers/IssueController.java:19-73 | Lending an available copy to a member with no open loan keeps all three invariants; the member then holds exactly the new loan, the copy exactly that open loan, and the book one fewer available |
| `IssueController.ReturnPreservesConsistency` | src/controllers/IssueController.java:81-127 | Returning a copy under its open loan keeps all three invariants; the loan is closed with today's date, neither copy nor holder has an open loan left, and the book has one more available |
| `IssueController.ReturnTwiceCountsTwice` | src/controllers/IssueController.java:81-127 | The return transaction does not look at the loan's status: run twice it adds two to the available quantity |
| `IssueReturnUI.CheckIssue` | src/UI/IssueReturnUI.java:161-181 | The issue checks run in the screen's order. A refusal names the first check that fails: no member with the trimmed student id; then no copy with the barcode; then that copy is not available; then that member already has an open loan. Going ahead means the member and copy match the inputs, the copy is available and the member has no open loan |
| `IssueReturnUI.IssueBook` | src/UI/IssueReturnUI.java:158-204 | A refusal or a failed transaction changes nothing. Going ahead requires every issue check to pass. A success means the transaction committed: that copy of its own book is lent to that member, due after the loan period, and the member then holds exactly one open loan. The invariants are kept in every case |
| `IssueReturnUI.IssueOutcomeHolds` | src/UI/IssueReturnUI.java:183-190 | After a committed issue the member holds exactly the new loan, and the invariants are kept when they held before |
| `IssueReturnUI.CheckReturn` | src/UI/IssueReturnUI.java:209-238 | The return checks run in the screen's order. A refusal names the first check that fails: no member with the student id; then no copy with the barcode; then the copy has no open loan; then the copy's newest open loan belongs to another member, and the refusal names that holder. Going ahead names an open loan that is the copy's newest, whose holder has the student id and whose copy has the barcode |
| `IssueReturnUI.ReturnBook` | src/UI/IssueReturnUI.java:206-262 | A refusal or a failed transaction changes nothing. A return closes exactly the loan the checks found, frees its copy and gives back one to its book. An on-time return records no fine. A late return records an UNPAID fine of 10 per day late unless the fine insert fails, which the screen ignores. The invariants are kept in every case |
| `IssueReturnUI.RecordLateFine` | src/UI/IssueReturnUI.java:251-262 | On a closed loan, records a fine exactly when the return is late. The amount is the days late times 10. The database changes only by that fine row |
| `IssueReturnUI.ScenarioStartIsConsistent` | src/UI/IssueReturnUI.java:158-204 | The scenario's starting library, one book with two available copies and one member without loans, satisfies the invariants |
| `IssueReturnUI.EndToEndScenario` | src/UI/IssueReturnUI.java:158-262 | A copy issued and returned twenty days later: quantity 2, then 1, then 2 again; invariants at every step; fine of 5 days at rate 10 |

## Left out

- Swing widgets, messages and the detail panes of the issue/return screen are not modelled; each refusal or result is an outcome value instead.
- The audit calls the screen makes after an issue, a fine or a return (src/UI/IssueReturnUI.java:198-200, 257-259, 275-277) are not modelled. They only append to the audit trail, which `AuditLogController.LogAction` models.
- JDBC plumbing and the `build*` row mappers are not modelled; tables are maps from key to row. src/DBConnection.java is not part of this model.
- Errors raised by read-only queries are not modelled. In the source they print a trace and yield null, an empty list or false. So the invariants are proved only for runs where the read queries succeed. For example, when `memberHasIssuedBook` fails it answers false (src/controllers/IssueController.java:246-251), and the issue screen then lends a second copy to a member who already holds one (src/UI/IssueReturnUI.java:178-187).
- The time of day and the time zone are not modelled. Dates are day numbers and the clock is a parameter.
- `FineController.OverdueDays` counts calendar days. The source divides a millisecond difference by a day's length. A time-of-day or time-zone offset between the stored due and return dates could lower that count by one, which the model does not capture.
- Money and rates are integers, not `double`, so floating-point rounding is not captured.
- Java `int` overflow of keys, quantities and amounts is not modelled.
- Text comparison is exact code-point comparison in the model:
  - `=`, `LIKE` and `ORDER BY` on text are taken case-sensitively;
  - `ORDER BY` uses code-point order;
  - `%` and `_` inside a search query are taken literally.
  The Access engine may instead ignore case and use its own collation. `equalsIgnoreCase` is modelled for ASCII only.
- Null strings are not modelled, except for the null query of `searchBooks`, which is an `Option`.
- `IssueController.IssueBook`: a rolled-back issue restores the AutoNumber counter, whereas the database may have used up that number.
- `IssueController.IssueBook` and `IssueController.ReturnBook`: neither source method rolls back explicitly when a write fails (src/controllers/IssueController.java:65-72, 119-127). The model takes the transaction to be rolled back when its connection closes.
- Concurrency is not modelled: the MAX+1 id race and concurrent issues of one copy or by one member. The model is sequential.
- Deleting a book, copy or member does not cascade to the rows that reference it, and the model does not either. The circulation invariants are proved for the issue and return workflows only. Catalogue edits can set any status or quantity.
- `isCopyAvailable` in src/controllers/IssueController.java:205-224 repeats the one in BookCopyController. It is modelled once, as `BookCopyController.IsCopyAvailable`.
- In the return workflow, the "record could not be loaded" branch (src/UI/IssueReturnUI.java:235-238) cannot be taken provided the read queries succeed: the loan was just read under that key. A failing `getIssueById` returns null (src/controllers/IssueController.java:157-162) and would reach it. The model reads it with `IssueController.GetIssueById` and does not repeat the dead branch.
- The return workflow ignores whether recording the fine succeeded; `IssueReturnUI.ReturnBook` does the same.
- UserController, the Reservation and PaymentTransaction records, and the other screens are not modelled.
