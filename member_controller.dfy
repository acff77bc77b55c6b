/**
 * Library members: create, update and delete rows of Members, look them up
 * by key or student id, and list them by first name.
 */
module MemberController {
  import opened Wrappers
  import opened Strings
  import opened Rows
  import opened Models
  import opened Store

  /** Inserts `m` under the key one above the largest memberId (1 for an empty table). */
  method CreateMember(db: Database, m: Member, fault: bool) returns (ok: bool, ghost newId: int)
    requires db.Valid()
    modifies db
    ensures db.Valid()
    ensures IsNextId(old(db.members.Keys), newId) && newId !in old(db.members)
    ensures ok == !fault
    ensures ok ==> GetMemberById(db.members, newId) == Some(m.(memberId := newId))
    ensures db.Snapshot() ==
      if ok then old(db.Snapshot()).(members := old(db.members)[newId := m.(memberId := newId)])
      else old(db.Snapshot())
  {
    var id := NextId(db.members.Keys);
    newId := id;
    if fault {
      return false, newId;
    }
    db.members := db.members[id := m.(memberId := id)];
    ok := true;
  }

  /** Overwrites every column of the row keyed `m.memberId`; reports whether exactly one row changed. */
  method UpdateMember(db: Database, m: Member, fault: bool) returns (ok: bool)
    requires db.Valid()
    modifies db
    ensures db.Valid()
    ensures ok <==> !fault && m.memberId in old(db.members)
    ensures ok ==> GetMemberById(db.members, m.memberId) == Some(m)
    ensures db.Snapshot() ==
      if ok then old(db.Snapshot()).(members := old(db.members)[m.memberId := m]) else old(db.Snapshot())
  {
    if fault || m.memberId !in db.members {
      return false;
    }
    db.members := db.members[m.memberId := m];
    ok := true;
  }

  /** Removes the row keyed `memberId`; loans and fines that reference it are left in place. */
  method DeleteMember(db: Database, memberId: int, fault: bool) returns (ok: bool)
    requires db.Valid()
    modifies db
    ensures db.Valid()
    ensures ok <==> !fault && memberId in old(db.members)
    ensures GetMemberById(db.members, memberId).None? || !ok
    ensures db.Snapshot() ==
      if ok then old(db.Snapshot()).(members := old(db.members) - {memberId}) else old(db.Snapshot())
  {
    if fault || memberId !in db.members {
      return false;
    }
    db.members := db.members - {memberId};
    ok := true;
  }

  /** The row keyed `memberId`, or None. */
  function GetMemberById(members: map<int, Member>, memberId: int): (r: Option<Member>)
    requires Keyed(members, MemberKey)
    ensures r.Some? <==> memberId in members
    ensures r.Some? ==> r.value in members.Values && r.value.memberId == memberId
  {
    if memberId in members then Some(members[memberId]) else None
  }

  /** Some member whose student id equals `studentId` exactly, or None when there is none. */
  method GetMemberByStudentId(members: map<int, Member>, studentId: string) returns (r: Option<Member>)
    ensures r.None? <==> forall m :: m in members.Values ==> m.studentId != studentId
    ensures r.Some? ==> r.value in members.Values && r.value.studentId == studentId
  {
    if exists m :: m in members.Values && m.studentId == studentId {
      var m :| m in members.Values && m.studentId == studentId;
      r := Some(m);
    } else {
      r := None;
    }
  }

  /** Ascending order of first names. */
  predicate FirstNameOrder(a: Member, b: Member)
  {
    StrLeq(a.firstName, b.firstName)
  }

  lemma FirstNameOrderIsTotalPreorder()
    ensures TotalPreorder(FirstNameOrder)
  {
    forall a: Member, b: Member ensures FirstNameOrder(a, b) || FirstNameOrder(b, a) {
      StrLeqTotal(a.firstName, b.firstName);
    }
    forall a: Member, b: Member, c: Member | FirstNameOrder(a, b) && FirstNameOrder(b, c)
      ensures FirstNameOrder(a, c)
    {
      StrLeqTransitive(a.firstName, b.firstName, c.firstName);
    }
  }

  /** Every member once, ordered by first name. */
  method GetAllMembers(members: map<int, Member>) returns (list: seq<Member>)
    requires Keyed(members, MemberKey)
    ensures Distinct(list)
    ensures forall i, j :: 0 <= i < j < |list| ==> StrLeq(list[i].firstName, list[j].firstName)
    ensures forall m :: m in list <==> m in members.Values
  {
    FirstNameOrderIsTotalPreorder();
    list := CollectSorted(members, MemberKey, (m: Member) => true, FirstNameOrder);
  }
}
