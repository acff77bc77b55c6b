/**
 * Physical copies: create, update and delete rows of BookCopies, look them
 * up by key or barcode, list the copies of a title and decide whether a
 * copy may be lent.
 */
module BookCopyController {
  import opened Wrappers
  import opened Rows
  import opened Models
  import opened Store

  /**
   * Inserts `copy` under the key one above the largest copyId (1 for an
   * empty table). The book's quantities are not touched.
   */
  method CreateCopy(db: Database, copy: BookCopy, fault: bool) returns (ok: bool, ghost newId: int)
    requires db.Valid()
    modifies db
    ensures db.Valid()
    ensures IsNextId(old(db.copies.Keys), newId) && newId !in old(db.copies)
    ensures ok == !fault
    ensures ok ==> GetCopyById(db.copies, newId) == Some(copy.(copyId := newId))
    ensures db.Snapshot() ==
      if ok then old(db.Snapshot()).(copies := old(db.copies)[newId := copy.(copyId := newId)])
      else old(db.Snapshot())
  {
    var id := NextId(db.copies.Keys);
    newId := id;
    if fault {
      return false, newId;
    }
    db.copies := db.copies[id := copy.(copyId := id)];
    ok := true;
  }

  /** Overwrites every column of the row keyed `copy.copyId`; reports whether exactly one row changed. */
  method UpdateCopy(db: Database, copy: BookCopy, fault: bool) returns (ok: bool)
    requires db.Valid()
    modifies db
    ensures db.Valid()
    ensures ok <==> !fault && copy.copyId in old(db.copies)
    ensures ok ==> GetCopyById(db.copies, copy.copyId) == Some(copy)
    ensures db.Snapshot() ==
      if ok then old(db.Snapshot()).(copies := old(db.copies)[copy.copyId := copy]) else old(db.Snapshot())
  {
    if fault || copy.copyId !in db.copies {
      return false;
    }
    db.copies := db.copies[copy.copyId := copy];
    ok := true;
  }

  /** Removes the row keyed `copyId`; loans that reference it are left in place. */
  method DeleteCopy(db: Database, copyId: int, fault: bool) returns (ok: bool)
    requires db.Valid()
    modifies db
    ensures db.Valid()
    ensures ok <==> !fault && copyId in old(db.copies)
    ensures GetCopyById(db.copies, copyId).None? || !ok
    ensures db.Snapshot() ==
      if ok then old(db.Snapshot()).(copies := old(db.copies) - {copyId}) else old(db.Snapshot())
  {
    if fault || copyId !in db.copies {
      return false;
    }
    db.copies := db.copies - {copyId};
    ok := true;
  }

  /** The row keyed `copyId`, or None. */
  function GetCopyById(copies: map<int, BookCopy>, copyId: int): (r: Option<BookCopy>)
    requires Keyed(copies, CopyKey)
    ensures r.Some? <==> copyId in copies
    ensures r.Some? ==> r.value in copies.Values && r.value.copyId == copyId
  {
    if copyId in copies then Some(copies[copyId]) else None
  }

  /** Some copy whose barcode equals `barcode` exactly, or None when there is none. */
  method GetCopyByBarcode(copies: map<int, BookCopy>, barcode: string) returns (r: Option<BookCopy>)
    ensures r.None? <==> forall c :: c in copies.Values ==> c.barcode != barcode
    ensures r.Some? ==> r.value in copies.Values && r.value.barcode == barcode
  {
    if exists c :: c in copies.Values && c.barcode == barcode {
      var c :| c in copies.Values && c.barcode == barcode;
      r := Some(c);
    } else {
      r := None;
    }
  }

  /** Ascending order of copy numbers. */
  predicate CopyNumberOrder(a: BookCopy, b: BookCopy)
  {
    a.copyNumber <= b.copyNumber
  }

  /** Every copy of `bookId` once, ordered by copy number. */
  method GetCopiesOfBook(copies: map<int, BookCopy>, bookId: int) returns (list: seq<BookCopy>)
    requires Keyed(copies, CopyKey)
    ensures Distinct(list)
    ensures forall i, j :: 0 <= i < j < |list| ==> list[i].copyNumber <= list[j].copyNumber
    ensures forall c :: c in list <==> c in copies.Values && c.bookId == bookId
  {
    list := CollectSorted(copies, CopyKey, (c: BookCopy) => c.bookId == bookId, CopyNumberOrder);
  }

  /**
   * Whether the copy exists and its status is AVAILABLE ignoring case: for
   * an existing copy, exactly when it is counted among its book's available
   * copies.
   */
  function IsCopyAvailable(copies: map<int, BookCopy>, copyId: int): (r: bool)
    ensures r ==> copyId in copies
    ensures copyId in copies ==> (r <==> copyId in AvailableCopiesOf(copies, copies[copyId].bookId))
  {
    copyId in copies && IsAvailableStatus(copies[copyId].status)
  }

  /** The row filter of the available-copies list: status exactly "AVAILABLE". */
  predicate ListedAsAvailable(c: BookCopy, bookId: int)
  {
    c.bookId == bookId && c.status == AvailableStatus
  }

  /** Every copy of `bookId` whose status is exactly "AVAILABLE", once each, in no particular order. */
  method GetAvailableCopies(copies: map<int, BookCopy>, bookId: int) returns (list: seq<BookCopy>)
    requires Keyed(copies, CopyKey)
    ensures Distinct(list)
    ensures forall c :: c in list <==> c in copies.Values && ListedAsAvailable(c, bookId)
    ensures forall c :: c in list ==> IsCopyAvailable(copies, c.copyId)
  {
    list := Collect(copies, CopyKey, (c: BookCopy) => ListedAsAvailable(c, bookId));
    forall c | c in list ensures IsCopyAvailable(copies, c.copyId) {
      KeyedValue(copies, CopyKey, c);
    }
  }
}
