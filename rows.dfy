/**
 * Generic operations on a database table held as a map from primary key to
 * row: the SELECT ... WHERE ... [ORDER BY ...] scans together with the loops
 * that collect their rows into a list, and the "MAX(id)+1, or 1" allocation
 * of a new primary key.
 */
module Rows {
  import opened Wrappers

  /** Every row is stored under its own primary key. */
  ghost predicate Keyed<T>(table: map<int, T>, id: T -> int)
  {
    forall k :: k in table ==> id(table[k]) == k
  }

  /** A row found among the values of a keyed table sits under its own key. */
  lemma KeyedValue<T>(table: map<int, T>, id: T -> int, x: T)
    requires Keyed(table, id) && x in table.Values
    ensures id(x) in table && table[id(x)] == x
  {
    if forall k :: k in table ==> table[k] != x {
      assert false;
    }
  }

  /** Some element of a non-empty set of keys. */
  lemma Pick(s: set<int>) returns (k: int)
    requires s != {}
    ensures k in s
  {
    if forall x :: x !in s {
      assert false;
    }
    k :| k in s;
  }

  /** A position at which `x` occurs in `s`. */
  lemma IndexOf<T>(s: seq<T>, x: T) returns (i: int)
    requires x in s
    ensures 0 <= i < |s| && s[i] == x
  {
    if forall j :: 0 <= j < |s| ==> s[j] != x {
      assert false;
    }
    i :| 0 <= i < |s| && s[i] == x;
  }

  /** No value occurs twice. */
  ghost predicate Distinct<T(!new)>(s: seq<T>)
  {
    forall y :: multiset(s)[y] <= 1
  }

  /** `leq` is total and transitive, as the row order of an ORDER BY is. */
  ghost predicate TotalPreorder<T(!new)>(leq: (T, T) -> bool)
  {
    && (forall x, y :: leq(x, y) || leq(y, x))
    && (forall x, y, z :: leq(x, y) && leq(y, z) ==> leq(x, z))
  }

  ghost predicate Sorted<T>(s: seq<T>, leq: (T, T) -> bool)
  {
    forall i, j :: 0 <= i < j < |s| ==> leq(s[i], s[j])
  }

  /** `b` sorts no later than any element of `s`. */
  ghost predicate LowerBound<T>(b: T, s: seq<T>, leq: (T, T) -> bool)
  {
    forall i :: 0 <= i < |s| ==> leq(b, s[i])
  }

  lemma SortedCons<T>(a: T, s: seq<T>, leq: (T, T) -> bool)
    requires Sorted(s, leq) && LowerBound(a, s, leq)
    ensures Sorted([a] + s, leq)
  {
    forall i, j | 0 <= i < j < |[a] + s|
      ensures leq(([a] + s)[i], ([a] + s)[j])
    {
      assert ([a] + s)[j] == s[j - 1];
      if i > 0 {
        assert ([a] + s)[i] == s[i - 1];
      }
    }
  }

  lemma LowerBoundCons<T>(b: T, a: T, s: seq<T>, leq: (T, T) -> bool)
    requires leq(b, a) && LowerBound(b, s, leq)
    ensures LowerBound(b, [a] + s, leq)
  {
    forall i | 0 <= i < |[a] + s| ensures leq(b, ([a] + s)[i]) {
      if i > 0 {
        assert ([a] + s)[i] == s[i - 1];
      }
    }
  }

  lemma LowerBoundTail<T>(b: T, s: seq<T>, leq: (T, T) -> bool)
    requires s != [] && LowerBound(b, s, leq)
    ensures LowerBound(b, s[1..], leq)
  {
    forall i | 0 <= i < |s[1..]| ensures leq(b, s[1..][i]) {
      assert s[1..][i] == s[i + 1];
    }
  }

  /** The head of a sorted list sorts no later than its tail. */
  lemma HeadIsLowerBound<T>(s: seq<T>, leq: (T, T) -> bool)
    requires s != [] && Sorted(s, leq)
    ensures LowerBound(s[0], s[1..], leq)
  {
    forall i | 0 <= i < |s[1..]| ensures leq(s[0], s[1..][i]) {
      assert s[1..][i] == s[i + 1];
    }
  }

  /** Anything sorting no later than the head of a sorted list sorts no later than all of it. */
  lemma BelowHead<T(!new)>(x: T, s: seq<T>, leq: (T, T) -> bool)
    requires TotalPreorder(leq) && Sorted(s, leq) && s != [] && leq(x, s[0])
    ensures LowerBound(x, s, leq)
  {
    forall i | 0 <= i < |s| ensures leq(x, s[i]) {
      if i > 0 {
        assert leq(s[0], s[i]);
      }
    }
  }

  /** Places `x` into the sorted list `s` after every element that sorts before it. */
  function InsertSorted<T(!new)>(x: T, s: seq<T>, leq: (T, T) -> bool): (r: seq<T>)
    requires TotalPreorder(leq) && Sorted(s, leq)
    ensures Sorted(r, leq)
    ensures multiset(r) == multiset(s) + multiset{x}
    ensures forall b :: LowerBound(b, s, leq) && leq(b, x) ==> LowerBound(b, r, leq)
  {
    if s == [] || leq(x, s[0]) then
      assert LowerBound(x, s, leq) by {
        if s != [] {
          BelowHead(x, s, leq);
        }
      }
      SortedCons(x, s, leq);
      assert forall b :: LowerBound(b, s, leq) && leq(b, x) ==> LowerBound(b, [x] + s, leq) by {
        forall b | LowerBound(b, s, leq) && leq(b, x) ensures LowerBound(b, [x] + s, leq) {
          LowerBoundCons(b, x, s, leq);
        }
      }
      [x] + s
    else
      assert s == [s[0]] + s[1..];
      var rest := InsertSorted(x, s[1..], leq);
      HeadIsLowerBound(s, leq);
      SortedCons(s[0], rest, leq);
      assert forall b :: LowerBound(b, s, leq) && leq(b, x) ==> LowerBound(b, [s[0]] + rest, leq) by {
        forall b | LowerBound(b, s, leq) && leq(b, x) ensures LowerBound(b, [s[0]] + rest, leq) {
          LowerBoundTail(b, s, leq);
          LowerBoundCons(b, s[0], rest, leq);
        }
      }
      [s[0]] + rest
  }

  /** One step of a table scan: row `k` is visited and, when kept, added to the list. */
  lemma ScanStep<T(!new)>(table: map<int, T>, id: T -> int, keep: T -> bool, todo: set<int>, k: int,
                          list: seq<T>, list': seq<T>)
    requires Keyed(table, id) && k in todo && todo <= table.Keys
    requires Distinct(list)
    requires forall x :: x in list <==> x in table.Values && keep(x) && id(x) !in todo
    requires multiset(list') == if keep(table[k]) then multiset(list) + multiset{table[k]} else multiset(list)
    ensures Distinct(list')
    ensures forall x :: x in list' <==> x in table.Values && keep(x) && id(x) !in todo - {k}
  {
    var x := table[k];
    assert x !in list;
    forall y | y in table.Values && id(y) == k
      ensures y == x
    {
      KeyedValue(table, id, y);
    }
    forall y
      ensures y in list' <==> y in table.Values && keep(y) && id(y) !in todo - {k}
    {
      assert y in list' <==> multiset(list')[y] > 0;
      assert y in list <==> multiset(list)[y] > 0;
    }
  }

  /**
   * The rows of `table` that satisfy `keep`, each exactly once, in the order
   * the scan meets them (a query without ORDER BY).
   */
  method Collect<T(==,!new)>(table: map<int, T>, id: T -> int, keep: T -> bool) returns (list: seq<T>)
    requires Keyed(table, id)
    ensures Distinct(list)
    ensures forall x :: x in list <==> x in table.Values && keep(x)
  {
    list := [];
    var todo := table.Keys;
    forall x | x in table.Values
      ensures id(x) in todo
    {
      KeyedValue(table, id, x);
    }
    while todo != {}
      invariant todo <= table.Keys
      invariant Distinct(list)
      invariant forall x :: x in list <==> x in table.Values && keep(x) && id(x) !in todo
      decreases todo
    {
      ghost var w := Pick(todo);
      var k :| k in todo;
      var x := table[k];
      ghost var before := list;
      if keep(x) {
        list := list + [x];
      }
      ScanStep(table, id, keep, todo, k, before, list);
      todo := todo - {k};
    }
  }

  /**
   * The rows of `table` that satisfy `keep`, each exactly once, ordered by
   * `leq` (a query with ORDER BY; rows that tie may come in any order).
   */
  method CollectSorted<T(==,!new)>(table: map<int, T>, id: T -> int, keep: T -> bool, leq: (T, T) -> bool)
    returns (list: seq<T>)
    requires Keyed(table, id) && TotalPreorder(leq)
    ensures Distinct(list) && Sorted(list, leq)
    ensures forall x :: x in list <==> x in table.Values && keep(x)
  {
    list := [];
    var todo := table.Keys;
    forall x | x in table.Values
      ensures id(x) in todo
    {
      KeyedValue(table, id, x);
    }
    while todo != {}
      invariant todo <= table.Keys
      invariant Distinct(list) && Sorted(list, leq)
      invariant forall x :: x in list <==> x in table.Values && keep(x) && id(x) !in todo
      decreases todo
    {
      ghost var w := Pick(todo);
      var k :| k in todo;
      var x := table[k];
      ghost var before := list;
      if keep(x) {
        list := InsertSorted(x, list, leq);
      }
      ScanStep(table, id, keep, todo, k, before, list);
      todo := todo - {k};
    }
  }

  /** The key "SELECT MAX(id)" plus one yields, or 1 when the table is empty. */
  ghost predicate IsNextId(keys: set<int>, id: int)
  {
    if keys == {} then id == 1 else id - 1 in keys && forall k :: k in keys ==> k < id
  }

  method NextId(keys: set<int>) returns (id: int)
    ensures IsNextId(keys, id)
    ensures id !in keys
  {
    var max: Option<int> := None;
    var todo := keys;
    while todo != {}
      invariant todo <= keys
      invariant max.None? ==> todo == keys
      invariant max.Some? ==> max.value in keys && forall k :: k in keys && k !in todo ==> k <= max.value
      decreases todo
    {
      ghost var w := Pick(todo);
      var k :| k in todo;
      if max.None? || max.value < k {
        max := Some(k);
      }
      todo := todo - {k};
    }
    id := 1;
    if max.Some? {
      id := max.value + 1;
    }
  }
}
