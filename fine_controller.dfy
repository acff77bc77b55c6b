/**
 * Overdue fines: compute a fine for a returned loan, record it, look fines
 * up by loan or member, and settle them by payment or waiver.
 */
module FineController {
  import opened Wrappers
  import opened Strings
  import opened Rows
  import opened Models
  import opened Store

  /** Whole days between the due date and the return date, never negative. */
  function OverdueDays(dueDate: int, returnDate: int): (d: int)
    ensures d >= 0 && d >= returnDate - dueDate
    ensures d == 0 || d == returnDate - dueDate
  {
    if returnDate - dueDate < 0 then 0 else returnDate - dueDate
  }

  /** A return on the due date costs nothing; three days late at 10 a day costs 30. */
  lemma FinePolicyExamples(issueDate: int)
    ensures OverdueDays(issueDate + 15, issueDate + 15) == 0
    ensures OverdueDays(issueDate + 15, issueDate + 18) == 3 && OverdueDays(issueDate + 15, issueDate + 18) * 10 == 30
  {
  }

  /** Returning later never lowers the count, and a later due date never raises it. */
  lemma OverdueDaysMonotonic(due1: int, due2: int, ret1: int, ret2: int)
    requires due2 <= due1 && ret1 <= ret2
    ensures OverdueDays(due1, ret1) <= OverdueDays(due2, ret2)
  {
  }

  lemma ProductPositive(days: int, rate: int)
    requires days >= 0
    ensures days * rate >= 0 <== rate >= 0
    ensures days * rate > 0 <==> days > 0 && rate > 0
  {
  }

  /**
   * The fine a loan has earned: None when the loan does not exist or has not
   * been returned; otherwise an UNPAID fine for the loan's member, not yet
   * keyed (fineId 0), of `dailyRate` per whole day past the due date.
   */
  function CalculateFine(loans: map<int, IssueTransaction>, issueId: int, dailyRate: int): (r: Option<Fine>)
    requires Keyed(loans, LoanKey)
    ensures r.None? <==> issueId !in loans || loans[issueId].returnDate.None?
    ensures r.Some? ==>
      var t := loans[issueId];
      && r.value.fineId == 0
      && r.value.issueId == issueId == t.issueId
      && r.value.memberId == t.memberId
      && r.value.dailyRate == dailyRate
      && r.value.overdueDays == OverdueDays(t.dueDate, t.returnDate.value)
      && r.value.amount == r.value.overdueDays * dailyRate
      && r.value.status == UnpaidStatus
    ensures r.Some? && dailyRate >= 0 ==> r.value.amount >= 0
    ensures r.Some? ==>
      (r.value.amount > 0 <==> dailyRate > 0 && loans[issueId].returnDate.value > loans[issueId].dueDate)
  {
    if issueId !in loans then None
    else
      var t := loans[issueId];
      if t.returnDate.None? then None
      else
        var days := OverdueDays(t.dueDate, t.returnDate.value);
        ProductPositive(days, dailyRate);
        Some(Fine(0, issueId, t.memberId, days * dailyRate, dailyRate, days, UnpaidStatus))
  }

  /**
   * The database after `f` is recorded under the next AutoNumber key of
   * Fines. Fines play no part in the circulation invariants.
   */
  function WithFine(t: Tables, f: Fine): (r: Tables)
    ensures WellFormed(t) ==> WellFormed(r) && t.nextFineId !in t.fines
    ensures Consistent(t) ==> Consistent(r)
    ensures r.fines.Keys == t.fines.Keys + {t.nextFineId} && r.fines[t.nextFineId] == f.(fineId := t.nextFineId)
    ensures forall i :: i in t.fines && i != t.nextFineId ==> r.fines[i] == t.fines[i]
    ensures r.nextFineId == t.nextFineId + 1
  {
    t.(fines := t.fines[t.nextFineId := f.(fineId := t.nextFineId)], nextFineId := t.nextFineId + 1)
  }

  /**
   * Records `f` under the next AutoNumber key of Fines. No check is made
   * that the loan has no fine yet.
   */
  method CreateFine(db: Database, f: Fine, fault: bool) returns (ok: bool, ghost newId: int)
    requires db.Valid()
    modifies db
    ensures db.Valid()
    ensures newId == old(db.nextFineId) && newId !in old(db.fines)
    ensures ok == !fault
    ensures ok ==> newId in db.fines && db.fines[newId] == f.(fineId := newId)
    ensures db.Snapshot() == if ok then WithFine(old(db.Snapshot()), f) else old(db.Snapshot())
  {
    newId := db.nextFineId;
    if fault {
      return false, newId;
    }
    var id := db.nextFineId;
    db.fines := db.fines[id := f.(fineId := id)];
    db.nextFineId := id + 1;
    ok := true;
  }

  /** Some fine recorded for loan `issueId`, or None when there is none. */
  method GetFineByIssue(fines: map<int, Fine>, issueId: int) returns (r: Option<Fine>)
    ensures r.None? <==> forall f :: f in fines.Values ==> f.issueId != issueId
    ensures r.Some? ==> r.value in fines.Values && r.value.issueId == issueId
  {
    if exists f :: f in fines.Values && f.issueId == issueId {
      var f :| f in fines.Values && f.issueId == issueId;
      r := Some(f);
    } else {
      r := None;
    }
  }

  /** Status ascending as text, then the newest fine (largest fineId) first. */
  predicate FineOrder(a: Fine, b: Fine)
  {
    StrLt(a.status, b.status) || (a.status == b.status && a.fineId >= b.fineId)
  }

  lemma FineOrderIsTotalPreorder()
    ensures TotalPreorder(FineOrder)
  {
    forall a: Fine, b: Fine ensures FineOrder(a, b) || FineOrder(b, a) {
      StrLeqTotal(a.status, b.status);
    }
    forall a: Fine, b: Fine, c: Fine | FineOrder(a, b) && FineOrder(b, c) ensures FineOrder(a, c) {
      if a.status != b.status && b.status != c.status {
        StrLeqTransitive(a.status, b.status, c.status);
        if a.status == c.status {
          StrLeqAntisymmetric(a.status, b.status);
        }
      }
    }
  }

  /** As text, "PAID" < "UNPAID" < "WAIVED". */
  lemma StatusTextOrder()
    ensures StrLt(PaidStatus, UnpaidStatus) && StrLt(UnpaidStatus, WaivedStatus) && StrLt(PaidStatus, WaivedStatus)
    ensures !StrLeq(UnpaidStatus, PaidStatus) && !StrLeq(WaivedStatus, UnpaidStatus) && !StrLeq(WaivedStatus, PaidStatus)
  {
  }

  /**
   * Every fine of `memberId` once, ordered by status text and then newest
   * first; so PAID fines come before UNPAID ones, and WAIVED ones last.
   */
  method GetFinesForMember(fines: map<int, Fine>, memberId: int) returns (list: seq<Fine>)
    requires Keyed(fines, FineKey)
    ensures Distinct(list)
    ensures forall f :: f in list <==> f in fines.Values && f.memberId == memberId
    ensures forall i, j :: 0 <= i < j < |list| ==>
      StrLeq(list[i].status, list[j].status) &&
      (list[i].status == list[j].status ==> list[i].fineId >= list[j].fineId)
    ensures forall i, j :: 0 <= i < j < |list| && list[j].status == PaidStatus ==>
      list[i].status != UnpaidStatus && list[i].status != WaivedStatus
    ensures forall i, j :: 0 <= i < j < |list| && list[j].status == UnpaidStatus ==>
      list[i].status != WaivedStatus
  {
    FineOrderIsTotalPreorder();
    list := CollectSorted(fines, FineKey, (f: Fine) => f.memberId == memberId, FineOrder);
    StatusTextOrder();
    forall i, j | 0 <= i < j < |list| ensures StrLeq(list[i].status, list[j].status) {
      StrLeqTotal(list[i].status, list[j].status);
    }
  }

  /** Overwrites the status of fine `fineId`; a missing fine matches no row and nothing changes. */
  function SetFineStatus(fines: map<int, Fine>, fineId: int, status: string): (r: map<int, Fine>)
    ensures r.Keys == fines.Keys
    ensures forall i :: i in fines && i != fineId ==> r[i] == fines[i]
    ensures fineId in fines ==> r[fineId] == fines[fineId].(status := status)
  {
    if fineId in fines then fines[fineId := fines[fineId].(status := status)] else fines
  }

  /**
   * Settling a fine overwrites its status whatever it was: the later
   * settlement wins, so paying twice is paying once and a paid fine can
   * still be waived.
   */
  lemma LaterSettlementWins(fines: map<int, Fine>, fineId: int, first: string, second: string)
    ensures SetFineStatus(SetFineStatus(fines, fineId, first), fineId, second) == SetFineStatus(fines, fineId, second)
  {
  }

  /** Sets the status of fine `fineId` to PAID, whatever it was; reports whether the fine exists. */
  method MarkFineAsPaid(db: Database, fineId: int, fault: bool) returns (ok: bool)
    requires db.Valid()
    modifies db
    ensures db.Valid()
    ensures ok <==> !fault && fineId in old(db.fines)
    ensures ok ==> fineId in db.fines && db.fines[fineId].status == PaidStatus
    ensures db.Snapshot() ==
      if ok then old(db.Snapshot()).(fines := SetFineStatus(old(db.fines), fineId, PaidStatus))
      else old(db.Snapshot())
  {
    if fault || fineId !in db.fines {
      return false;
    }
    db.fines := db.fines[fineId := db.fines[fineId].(status := PaidStatus)];
    ok := true;
  }

  /** Sets the status of fine `fineId` to WAIVED, whatever it was; reports whether the fine exists. */
  method WaiveFine(db: Database, fineId: int, fault: bool) returns (ok: bool)
    requires db.Valid()
    modifies db
    ensures db.Valid()
    ensures ok <==> !fault && fineId in old(db.fines)
    ensures ok ==> fineId in db.fines && db.fines[fineId].status == WaivedStatus
    ensures db.Snapshot() ==
      if ok then old(db.Snapshot()).(fines := SetFineStatus(old(db.fines), fineId, WaivedStatus))
      else old(db.Snapshot())
  {
    if fault || fineId !in db.fines {
      return false;
    }
    db.fines := db.fines[fineId := db.fines[fineId].(status := WaivedStatus)];
    ok := true;
  }
}
