/**
 * The audit trail: append an entry stamped with the current time, and list
 * entries newest first, optionally restricted to one user, one action or a
 * time window.
 */
module AuditLogController {
  import opened Wrappers
  import opened Rows
  import opened Models
  import opened Store

  /**
   * Appends an entry under the key one above the largest logId (1 for an
   * empty trail), stamped with `now`, the clock reading at the call.
   */
  method LogAction(db: Database, userId: int, action: string, targetType: string, now: int, fault: bool)
    returns (ok: bool, ghost newId: int)
    requires db.Valid()
    modifies db
    ensures db.Valid()
    ensures IsNextId(old(db.logs.Keys), newId) && newId !in old(db.logs)
    ensures ok == !fault
    ensures ok ==> newId in db.logs && db.logs[newId] == AuditLog(newId, userId, action, targetType, now)
    ensures db.Snapshot() ==
      if ok then old(db.Snapshot()).(logs := old(db.logs)[newId := AuditLog(newId, userId, action, targetType, now)])
      else old(db.Snapshot())
  {
    var id := NextId(db.logs.Keys);
    newId := id;
    if fault {
      return false, newId;
    }
    db.logs := db.logs[id := AuditLog(id, userId, action, targetType, now)];
    ok := true;
  }

  /** Descending order of log times: newest first. */
  predicate NewestFirst(a: AuditLog, b: AuditLog)
  {
    a.logTime >= b.logTime
  }

  /** Every entry once, newest first. */
  method GetAllLogs(logs: map<int, AuditLog>) returns (list: seq<AuditLog>)
    requires Keyed(logs, LogKey)
    ensures Distinct(list)
    ensures forall i, j :: 0 <= i < j < |list| ==> list[i].logTime >= list[j].logTime
    ensures forall l :: l in list <==> l in logs.Values
  {
    list := CollectSorted(logs, LogKey, (l: AuditLog) => true, NewestFirst);
  }

  /** Every entry made by `userId`, newest first. */
  method GetLogsByUser(logs: map<int, AuditLog>, userId: int) returns (list: seq<AuditLog>)
    requires Keyed(logs, LogKey)
    ensures Distinct(list)
    ensures forall i, j :: 0 <= i < j < |list| ==> list[i].logTime >= list[j].logTime
    ensures forall l :: l in list <==> l in logs.Values && l.userId == userId
  {
    list := CollectSorted(logs, LogKey, (l: AuditLog) => l.userId == userId, NewestFirst);
  }

  /** Every entry whose action equals `action` exactly, newest first. */
  method GetLogsByAction(logs: map<int, AuditLog>, action: string) returns (list: seq<AuditLog>)
    requires Keyed(logs, LogKey)
    ensures Distinct(list)
    ensures forall i, j :: 0 <= i < j < |list| ==> list[i].logTime >= list[j].logTime
    ensures forall l :: l in list <==> l in logs.Values && l.action == action
  {
    list := CollectSorted(logs, LogKey, (l: AuditLog) => l.action == action, NewestFirst);
  }

  /** Every entry stamped between `start` and `end`, both included, newest first; none when `start > end`. */
  method GetLogsBetween(logs: map<int, AuditLog>, start: int, end: int) returns (list: seq<AuditLog>)
    requires Keyed(logs, LogKey)
    ensures Distinct(list)
    ensures forall i, j :: 0 <= i < j < |list| ==> list[i].logTime >= list[j].logTime
    ensures forall l :: l in list <==> l in logs.Values && start <= l.logTime <= end
    ensures start > end ==> list == []
  {
    list := CollectSorted(logs, LogKey, (l: AuditLog) => start <= l.logTime <= end, NewestFirst);
    if list != [] {
      assert list[0] in list;
    }
  }
}
