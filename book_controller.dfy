/**
 * Catalogue titles: create, update and delete rows of Books, look them up
 * by key or by ISBN, and search them by title, author or ISBN.
 */
module BookController {
  import opened Wrappers
  import opened Strings
  import opened Rows
  import opened Models
  import opened Store

  /**
   * Inserts `b` under the key one above the largest bookId (1 for an empty
   * table); the bookId carried by `b` is ignored. `fault` stands for the
   * database raising an error, in which case nothing is written.
   */
  method CreateBook(db: Database, b: Book, fault: bool) returns (ok: bool, ghost newId: int)
    requires db.Valid()
    modifies db
    ensures db.Valid()
    ensures IsNextId(old(db.books.Keys), newId) && newId !in old(db.books)
    ensures ok == !fault
    ensures ok ==> GetBookById(db.books, newId) == Some(b.(bookId := newId))
    ensures db.Snapshot() ==
      if ok then old(db.Snapshot()).(books := old(db.books)[newId := b.(bookId := newId)])
      else old(db.Snapshot())
  {
    var id := NextId(db.books.Keys);
    newId := id;
    if fault {
      return false, newId;
    }
    db.books := db.books[id := b.(bookId := id)];
    ok := true;
  }

  /** Overwrites every column of the row keyed `b.bookId`; reports whether exactly one row changed. */
  method UpdateBook(db: Database, b: Book, fault: bool) returns (ok: bool)
    requires db.Valid()
    modifies db
    ensures db.Valid()
    ensures ok <==> !fault && b.bookId in old(db.books)
    ensures ok ==> GetBookById(db.books, b.bookId) == Some(b)
    ensures db.Snapshot() ==
      if ok then old(db.Snapshot()).(books := old(db.books)[b.bookId := b]) else old(db.Snapshot())
  {
    if fault || b.bookId !in db.books {
      return false;
    }
    db.books := db.books[b.bookId := b];
    ok := true;
  }

  /** Removes the row keyed `bookId`; copies and loans that reference it are left in place. */
  method DeleteBook(db: Database, bookId: int, fault: bool) returns (ok: bool)
    requires db.Valid()
    modifies db
    ensures db.Valid()
    ensures ok <==> !fault && bookId in old(db.books)
    ensures GetBookById(db.books, bookId).None? || !ok
    ensures db.Snapshot() ==
      if ok then old(db.Snapshot()).(books := old(db.books) - {bookId}) else old(db.Snapshot())
  {
    if fault || bookId !in db.books {
      return false;
    }
    db.books := db.books - {bookId};
    ok := true;
  }

  /** The row keyed `bookId`, or None. */
  function GetBookById(books: map<int, Book>, bookId: int): (r: Option<Book>)
    requires Keyed(books, BookKey)
    ensures r.Some? <==> bookId in books
    ensures r.Some? ==> r.value in books.Values && r.value.bookId == bookId
  {
    if bookId in books then Some(books[bookId]) else None
  }

  /** Some book whose ISBN equals `isbn` exactly, or None when there is none. */
  method GetBookByIsbn(books: map<int, Book>, isbn: string) returns (r: Option<Book>)
    ensures r.None? <==> forall b :: b in books.Values ==> b.isbn != isbn
    ensures r.Some? ==> r.value in books.Values && r.value.isbn == isbn
  {
    if exists b :: b in books.Values && b.isbn == isbn {
      var b :| b in books.Values && b.isbn == isbn;
      r := Some(b);
    } else {
      r := None;
    }
  }

  /** Every book whose title contains `title`, once each, in no particular order. */
  method SearchBooksByTitle(books: map<int, Book>, title: string) returns (list: seq<Book>)
    requires Keyed(books, BookKey)
    ensures Distinct(list)
    ensures forall b :: b in list <==> b in books.Values && Contains(b.title, title)
  {
    list := Collect(books, BookKey, (b: Book) => Contains(b.title, title));
  }

  /** The row filter of the combined search: the query occurs in the title, the author or the ISBN. */
  predicate MatchesQuery(b: Book, q: string)
  {
    Contains(b.title, q) || Contains(b.author, q) || Contains(b.isbn, q)
  }

  /** Ascending order of titles. */
  predicate TitleOrder(a: Book, b: Book)
  {
    StrLeq(a.title, b.title)
  }

  lemma TitleOrderIsTotalPreorder()
    ensures TotalPreorder(TitleOrder)
  {
    forall a: Book, b: Book ensures TitleOrder(a, b) || TitleOrder(b, a) {
      StrLeqTotal(a.title, b.title);
    }
    forall a: Book, b: Book, c: Book | TitleOrder(a, b) && TitleOrder(b, c) ensures TitleOrder(a, c) {
      StrLeqTransitive(a.title, b.title, c.title);
    }
  }

  /**
   * Every book whose title, author or ISBN contains the query, once each,
   * ordered by title. A missing query matches every book.
   */
  method SearchBooks(books: map<int, Book>, query: Option<string>) returns (list: seq<Book>)
    requires Keyed(books, BookKey)
    ensures Distinct(list)
    ensures forall i, j :: 0 <= i < j < |list| ==> StrLeq(list[i].title, list[j].title)
    ensures forall b :: b in list <==>
      b in books.Values && MatchesQuery(b, if query.Some? then query.value else "")
    ensures query.None? ==> forall b :: b in books.Values ==> b in list
  {
    var q := if query.Some? then query.value else "";
    TitleOrderIsTotalPreorder();
    list := CollectSorted(books, BookKey, (b: Book) => MatchesQuery(b, q), TitleOrder);
  }

  /** Every book once, ordered by title. */
  method GetAllBooks(books: map<int, Book>) returns (list: seq<Book>)
    requires Keyed(books, BookKey)
    ensures Distinct(list)
    ensures forall i, j :: 0 <= i < j < |list| ==> StrLeq(list[i].title, list[j].title)
    ensures forall b :: b in list <==> b in books.Values
  {
    TitleOrderIsTotalPreorder();
    list := CollectSorted(books, BookKey, (b: Book) => true, TitleOrder);
  }
}
