/** Keyset pagination in descending (time, id) order. */
module Pagination {
  import opened Prelude
  import opened Ordering

  /** What an item is ordered and found by: its time, its id as the sort compares it, and its id as text. */
  datatype Row = Row(time: int, id: seq<int>, text: string)

  datatype PageCursor = PageCursor(lastId: string, lastSortValue: int)

  datatype Page<T> = Page(items: seq<T>, next: Option<PageCursor>)

  function FetchLimit(limit: nat): nat {
    limit + 1
  }

  predicate IsAfterCursor(r: Row, c: PageCursor) {
    r.time < c.lastSortValue || (r.time == c.lastSortValue && LexLess(Codes(r.text), Codes(c.lastId)))
  }

  /** Newest first, and by descending id among equals. */
  predicate Leq(a: Row, b: Row) {
    b.time < a.time || (b.time == a.time && !LexLess(a.id, b.id))
  }

  function RowLeq<T>(row: T -> Row): (T, T) -> bool {
    (x, y) => Leq(row(x), row(y))
  }

  function AfterAll<T>(row: T -> Row, cursor: Option<PageCursor>): T -> bool {
    x => cursor.None? || IsAfterCursor(row(x), cursor.value)
  }

  /** The store's side: filter by the cursor, sort, over-fetch by one. */
  function Fetch<T>(row: T -> Row, items: seq<T>, cursor: Option<PageCursor>, limit: nat): seq<T> {
    var found := Sort(RowLeq(row), Filter(AfterAll(row, cursor), items));
    if |found| <= FetchLimit(limit) then found else found[..FetchLimit(limit)]
  }

  function CursorOf(r: Row): PageCursor {
    PageCursor(r.text, r.time)
  }

  /** The caller's side: keep `limit` items, and go on from the last one if there were more. */
  function BuildPage<T>(row: T -> Row, items: seq<T>, limit: nat): Page<T>
    requires limit >= 1
  {
    if |items| > limit then Page(items[..limit], Some(CursorOf(row(items[limit - 1])))) else Page(items, None)
  }

  // ---------------------------------------------------------------- the orders

  lemma LeqPreorder<T(!new)>(row: T -> Row)
    ensures Preorder(RowLeq(row))
  {
    var leq := RowLeq(row);
    forall x, y ensures leq(x, y) || leq(y, x) {
      LexTotal(row(x).id, row(y).id);
    }
    forall x, y, z | leq(x, y) && leq(y, z) ensures leq(x, z) {
      var a, b, c := row(x).id, row(y).id, row(z).id;
      LexTotal(a, b);
      LexTotal(b, c);
      LexTotal(a, c);
      if LexLess(a, c) && row(x).time == row(y).time == row(z).time {
        if LexLess(b, a) {
          LexTransitive(b, a, c);
        }
      }
    }
  }

  lemma AfterTransitive(r: Row, s: Row, c: PageCursor)
    requires IsAfterCursor(r, CursorOf(s)) && IsAfterCursor(s, c)
    ensures IsAfterCursor(r, c)
  {
    if r.time == s.time == c.lastSortValue {
      LexTransitive(Codes(r.text), Codes(s.text), Codes(c.lastId));
    }
  }

  // ---------------------------------------------------------------- following the cursors

  lemma {:induction false} FilterShrinks<T>(p: T -> bool, q: T -> bool, s: seq<T>, x: T)
    requires forall y :: y in s && q(y) ==> p(y)
    requires x in s && p(x) && !q(x)
    ensures |Filter(q, s)| < |Filter(p, s)|
  {
    FilterLeq(p, q, s[1..]);
    if s[0] != x {
      assert x in s[1..];
      FilterShrinks(p, q, s[1..], x);
    }
  }

  lemma {:induction false} FilterLeq<T>(p: T -> bool, q: T -> bool, s: seq<T>)
    requires forall y :: y in s && q(y) ==> p(y)
    ensures |Filter(q, s)| <= |Filter(p, s)|
  {
    if s != [] {
      assert s[0] in s;
      FilterLeq(p, q, s[1..]);
    }
  }

  lemma FetchMembers<T(!new)>(row: T -> Row, items: seq<T>, cursor: Option<PageCursor>, limit: nat, x: T)
    requires x in Fetch(row, items, cursor, limit)
    ensures x in items && AfterAll(row, cursor)(x)
  {
    var kept := Filter(AfterAll(row, cursor), items);
    LeqPreorder(row);
    SortSorts(RowLeq(row), kept);
    assert x in multiset(Sort(RowLeq(row), kept));
    assert x in kept;
    FilterMembers(AfterAll(row, cursor), items);
  }

  /** Each next page has fewer items left to come from. */
  lemma NextPageShrinks<T(!new)>(row: T -> Row, items: seq<T>, cursor: Option<PageCursor>, limit: nat)
    requires limit >= 1
    ensures var page := BuildPage(row, Fetch(row, items, cursor, limit), limit);
            page.next.Some? ==>
              |Filter(AfterAll(row, page.next), items)| < |Filter(AfterAll(row, cursor), items)|
  {
    var page := BuildPage(row, Fetch(row, items, cursor, limit), limit);
    if page.next.Some? {
      var x := Fetch(row, items, cursor, limit)[limit - 1];
      FetchMembers(row, items, cursor, limit, x);
      LexTotal(Codes(row(x).text), Codes(row(x).text));
      forall y | y in items && AfterAll(row, page.next)(y) ensures AfterAll(row, cursor)(y) {
        if cursor.Some? {
          AfterTransitive(row(y), row(x), cursor.value);
        }
      }
      FilterShrinks(AfterAll(row, cursor), AfterAll(row, page.next), items, x);
    }
  }

  /** All items a client sees that follows the cursors from `cursor` until there is none. */
  ghost function Collect<T(!new)>(row: T -> Row, items: seq<T>, cursor: Option<PageCursor>, limit: nat): seq<T>
    requires limit >= 1
    decreases |Filter(AfterAll(row, cursor), items)|
  {
    var page := BuildPage(row, Fetch(row, items, cursor, limit), limit);
    NextPageShrinks(row, items, cursor, limit);
    if page.next.None? then page.items else page.items + Collect(row, items, page.next, limit)
  }

  // ---------------------------------------------------------------- exactly once

  /** The text a cursor compares orders as the id the sort compares. */
  ghost predicate TextAgrees<T>(row: T -> Row, items: seq<T>) {
    forall x, y :: x in items && y in items ==>
      (LexLess(Codes(row(x).text), Codes(row(y).text)) <==> LexLess(row(x).id, row(y).id))
  }

  function KeyOf<T>(row: T -> Row, x: T): (int, seq<int>) {
    (row(x).time, row(x).id)
  }

  ghost predicate Fresh<T>(row: T -> Row, x: T, s: seq<T>) {
    forall j :: 0 <= j < |s| ==> KeyOf(row, s[j]) != KeyOf(row, x)
  }

  /** No two positions hold items with the same time and id. */
  ghost predicate DistinctRows<T>(row: T -> Row, s: seq<T>) {
    s == [] || (Fresh(row, s[0], s[1..]) && DistinctRows(row, s[1..]))
  }

  lemma {:induction false} InsertFresh<T>(row: T -> Row, leq: (T, T) -> bool, x: T, s: seq<T>, z: T)
    ensures Fresh(row, z, Insert(leq, x, s)) <==> Fresh(row, z, s) && KeyOf(row, x) != KeyOf(row, z)
  {
    if s == [] || leq(x, s[0]) {
      FreshCons(row, z, x, s);
    } else {
      InsertFresh(row, leq, x, s[1..], z);
      FreshCons(row, z, s[0], Insert(leq, x, s[1..]));
      FreshCons(row, z, s[0], s[1..]);
      assert s == [s[0]] + s[1..];
    }
  }

  lemma FreshCons<T>(row: T -> Row, z: T, x: T, s: seq<T>)
    ensures Fresh(row, z, [x] + s) <==> Fresh(row, z, s) && KeyOf(row, x) != KeyOf(row, z)
  {
    var t := [x] + s;
    assert forall j :: 0 <= j < |s| ==> t[j + 1] == s[j];
    assert t[0] == x;
    if Fresh(row, z, t) {
      forall j | 0 <= j < |s| ensures KeyOf(row, s[j]) != KeyOf(row, z) {
        assert t[j + 1] == s[j];
      }
    }
  }

  lemma {:induction false} InsertDistinct<T>(row: T -> Row, leq: (T, T) -> bool, x: T, s: seq<T>)
    ensures DistinctRows(row, Insert(leq, x, s)) <==> Fresh(row, x, s) && DistinctRows(row, s)
  {
    if s == [] || leq(x, s[0]) {
      assert ([x] + s)[1..] == s;
    } else {
      InsertDistinct(row, leq, x, s[1..]);
      InsertFresh(row, leq, x, s[1..], s[0]);
      FreshCons(row, x, s[0], s[1..]);
      assert s == [s[0]] + s[1..];
      assert Insert(leq, x, s)[1..] == Insert(leq, x, s[1..]);
    }
  }

  lemma {:induction false} SortFresh<T>(row: T -> Row, leq: (T, T) -> bool, s: seq<T>, z: T)
    ensures Fresh(row, z, Sort(leq, s)) <==> Fresh(row, z, s)
  {
    if s != [] {
      SortFresh(row, leq, s[1..], z);
      InsertFresh(row, leq, s[0], Sort(leq, s[1..]), z);
      FreshCons(row, z, s[0], s[1..]);
      assert s == [s[0]] + s[1..];
    }
  }

  lemma {:induction false} SortDistinct<T>(row: T -> Row, leq: (T, T) -> bool, s: seq<T>)
    ensures DistinctRows(row, Sort(leq, s)) <==> DistinctRows(row, s)
  {
    if s != [] {
      SortDistinct(row, leq, s[1..]);
      SortFresh(row, leq, s[1..], s[0]);
      InsertDistinct(row, leq, s[0], Sort(leq, s[1..]));
    }
  }

  /** Each item lies strictly behind the cursor of every earlier one. */
  ghost predicate Descends<T>(row: T -> Row, s: seq<T>) {
    s == [] ||
    ((forall j :: 0 <= j < |s[1..]| ==> IsAfterCursor(row(s[1..][j]), CursorOf(row(s[0]))))
     && Descends(row, s[1..]))
  }

  lemma BehindIffDistinct<T>(row: T -> Row, x: T, y: T)
    requires LexLess(Codes(row(x).text), Codes(row(y).text)) <==> LexLess(row(x).id, row(y).id)
    requires LexLess(Codes(row(y).text), Codes(row(x).text)) <==> LexLess(row(y).id, row(x).id)
    requires Leq(row(x), row(y))
    ensures IsAfterCursor(row(y), CursorOf(row(x))) <==> KeyOf(row, x) != KeyOf(row, y)
    ensures !IsAfterCursor(row(x), CursorOf(row(y)))
  {
    LexTotal(row(x).id, row(y).id);
  }

  /** In a sorted list, lying strictly behind one another and having distinct keys are the same. */
  lemma {:induction false} DescendsIffDistinct<T(!new)>(row: T -> Row, s: seq<T>)
    requires TextAgrees(row, s) && Sorted(RowLeq(row), s)
    ensures Descends(row, s) <==> DistinctRows(row, s)
  {
    if s != [] {
      var t := s[1..];
      assert forall j :: 0 <= j < |t| ==> t[j] == s[j + 1];
      DescendsIffDistinct(row, t);
      forall j | 0 <= j < |t|
        ensures IsAfterCursor(row(t[j]), CursorOf(row(s[0]))) <==> KeyOf(row, t[j]) != KeyOf(row, s[0])
      {
        assert RowLeq(row)(s[0], s[j + 1]);
        BehindIffDistinct(row, s[0], t[j]);
      }
    }
  }

  lemma {:induction false} DescendsAt<T>(row: T -> Row, s: seq<T>, i: nat, j: nat)
    requires Descends(row, s) && i < j < |s|
    ensures IsAfterCursor(row(s[j]), CursorOf(row(s[i])))
  {
    if i == 0 {
      assert s[1..][j - 1] == s[j];
    } else {
      DescendsAt(row, s[1..], i - 1, j - 1);
    }
  }

  lemma AfterAsymmetric(r: Row, s: Row)
    requires IsAfterCursor(r, CursorOf(s))
    ensures !IsAfterCursor(s, CursorOf(r)) && r != s
  {
    LexTotal(Codes(r.text), Codes(s.text));
  }

  lemma NotAfterItself(r: Row)
    ensures !IsAfterCursor(r, CursorOf(r))
  {
    LexTotal(Codes(r.text), Codes(r.text));
  }

  lemma {:induction false} FilterDrops<T>(p: T -> bool, s: seq<T>, n: nat)
    requires n <= |s| && (forall i :: 0 <= i < n ==> !p(s[i])) && (forall i :: n <= i < |s| ==> p(s[i]))
    ensures Filter(p, s) == s[n..]
  {
    if s != [] {
      FilterDrops(p, s[1..], if n == 0 then 0 else n - 1);
      assert n > 0 ==> s[1..][n - 1..] == s[n..];
      assert n == 0 ==> s == [s[0]] + s[1..];
    }
  }

  /** The cursor in front of position `n` of the complete list. */
  function CursorAt<T>(row: T -> Row, all: seq<T>, n: nat): Option<PageCursor>
    requires n <= |all|
  {
    if n == 0 then None else Some(CursorOf(row(all[n - 1])))
  }

  /** A fetch behind position `n` finds exactly the next items of the complete list. */
  lemma FetchFrom<T(!new)>(row: T -> Row, items: seq<T>, n: nat, limit: nat)
    requires var all := Sort(RowLeq(row), items); Descends(row, all) && n <= |all|
    ensures var all := Sort(RowLeq(row), items);
            Fetch(row, items, CursorAt(row, all, n), limit)
            == if |all| - n <= limit + 1 then all[n..] else all[n..n + limit + 1]
  {
    var all := Sort(RowLeq(row), items);
    var after := AfterAll(row, CursorAt(row, all, n));
    hide Sort;
    hide Filter;
    LeqPreorder(row);
    FilterSort(RowLeq(row), after, items);
    BehindCursor(row, all, n);
    FilterDrops(after, all, n);
    hide Descends;
    Window(all, n, limit + 1);
  }

  lemma Window<T>(all: seq<T>, n: nat, k: nat)
    requires n <= |all|
    ensures |all[n..]| == |all| - n
    ensures k < |all| - n ==> all[n..][..k] == all[n..n + k]
  {
  }

  lemma BehindCursor<T>(row: T -> Row, all: seq<T>, n: nat)
    requires Descends(row, all) && n <= |all|
    ensures forall i :: 0 <= i < |all| ==> (AfterAll(row, CursorAt(row, all, n))(all[i]) <==> n <= i)
  {
    hide Descends;
    forall i | 0 <= i < |all| ensures AfterAll(row, CursorAt(row, all, n))(all[i]) <==> n <= i {
      if n > 0 {
        if i < n - 1 {
          DescendsAt(row, all, i, n - 1);
          AfterAsymmetric(row(all[n - 1]), row(all[i]));
        } else if i == n - 1 {
          NotAfterItself(row(all[i]));
        } else {
          DescendsAt(row, all, n - 1, i);
        }
      }
    }
  }

  /** A full page taken at `n` holds the next `limit` items. */
  lemma PageOf<T>(all: seq<T>, n: nat, limit: nat, found: seq<T>)
    requires limit >= 1 && n <= |all| && |found| > limit
    requires found == if |all| - n <= limit + 1 then all[n..] else all[n..n + limit + 1]
    ensures n + limit < |all| && found[limit - 1] == all[n + limit - 1] && found[..limit] == all[n..n + limit]
    ensures all[n..n + limit] + all[n + limit..] == all[n..]
  {
  }

  lemma {:induction false} CollectFrom<T(!new)>(row: T -> Row, items: seq<T>, n: nat, limit: nat)
    requires limit >= 1 && n <= |Sort(RowLeq(row), items)| && Descends(row, Sort(RowLeq(row), items))
    ensures var all := Sort(RowLeq(row), items); Collect(row, items, CursorAt(row, all, n), limit) == all[n..]
    decreases |Sort(RowLeq(row), items)| - n
  {
    hide Sort;
    hide Filter;
    hide Fetch;
    hide Descends;
    var all := Sort(RowLeq(row), items);
    var cursor := CursorAt(row, all, n);
    FetchFrom(row, items, n, limit);
    var found := Fetch(row, items, cursor, limit);
    if |found| > limit {
      PageOf(all, n, limit, found);
      CollectFrom(row, items, n + limit, limit);
    }
  }

  /** One more item in front of what lies behind its cursor. */
  lemma DescendsCons<T>(row: T -> Row, x: T, rest: seq<T>, cursor: Option<PageCursor>)
    requires Descends(row, rest) && AfterAll(row, cursor)(x)
    requires forall j :: 0 <= j < |rest| ==> IsAfterCursor(row(rest[j]), CursorOf(row(x)))
    ensures var seen := [x] + rest;
            Descends(row, seen) && forall j :: 0 <= j < |seen| ==> AfterAll(row, cursor)(seen[j])
  {
    var seen := [x] + rest;
    assert seen[1..] == rest;
    forall j | 0 <= j < |seen| ensures AfterAll(row, cursor)(seen[j]) {
      if j > 0 && cursor.Some? {
        AfterTransitive(row(rest[j - 1]), row(x), cursor.value);
      }
    }
  }

  lemma AllFetched<T(!new)>(row: T -> Row, items: seq<T>, cursor: Option<PageCursor>, limit: nat)
    ensures var found := Fetch(row, items, cursor, limit);
            forall j :: 0 <= j < |found| ==> AfterAll(row, cursor)(found[j])
  {
    hide Fetch;
    var found := Fetch(row, items, cursor, limit);
    forall j | 0 <= j < |found| ensures AfterAll(row, cursor)(found[j]) {
      FetchMembers(row, items, cursor, limit, found[j]);
    }
  }

  /** Pages of one: what a client sees never repeats a key. */
  lemma {:induction false} OneByOneDescends<T(!new)>(row: T -> Row, items: seq<T>, cursor: Option<PageCursor>)
    ensures var seen := Collect(row, items, cursor, 1);
            && Descends(row, seen)
            && forall j :: 0 <= j < |seen| ==> AfterAll(row, cursor)(seen[j])
    decreases |Filter(AfterAll(row, cursor), items)|
  {
    hide Fetch;
    hide Filter;
    var found := Fetch(row, items, cursor, 1);
    var page := BuildPage(row, found, 1);
    AllFetched(row, items, cursor, 1);
    if page.next.Some? {
      NextPageShrinks(row, items, cursor, 1);
      OneByOneDescends(row, items, page.next);
      assert page.items == [found[0]] && page.next == Some(CursorOf(row(found[0])));
      var rest := Collect(row, items, page.next, 1);
      assert Collect(row, items, cursor, 1) == [found[0]] + rest;
      hide Collect;
      hide Descends;
      DescendsCons(row, found[0], rest, cursor);
    } else if |found| == 1 {
      assert found[1..] == [];
    }
  }

  /** Whether the complete list is strictly descending depends on its keys alone. */
  lemma SortDescends<T(!new)>(row: T -> Row, items: seq<T>)
    requires TextAgrees(row, items)
    ensures Descends(row, Sort(RowLeq(row), items)) <==> DistinctRows(row, items)
  {
    var all := Sort(RowLeq(row), items);
    LeqPreorder(row);
    SortSorts(RowLeq(row), items);
    SortDistinct(row, RowLeq(row), items);
    forall x | x in all ensures x in items {
      assert x in multiset(all);
    }
    DescendsIffDistinct(row, all);
  }

  /** Following the cursors yields the complete list in order, every item once, for every page size up to `most`
      exactly when no two items share time and id. */
  lemma ExactlyOnce<T(!new)>(row: T -> Row, items: seq<T>, most: nat)
    requires TextAgrees(row, items) && most >= 1
    ensures (forall limit: nat :: 1 <= limit <= most ==> Collect(row, items, None, limit) == Sort(RowLeq(row), items))
            <==> DistinctRows(row, items)
  {
    var all := Sort(RowLeq(row), items);
    SortDescends(row, items);
    if DistinctRows(row, items) {
      forall limit: nat | 1 <= limit <= most ensures Collect(row, items, None, limit) == all {
        CollectFrom(row, items, 0, limit);
        assert all[0..] == all;
      }
    } else {
      OneByOneDescends(row, items, None);
    }
  }

  // ---------------------------------------------------------------- the order of the input does not matter

  lemma HeadsAgree<T(!new)>(row: T -> Row, a: seq<T>, b: seq<T>)
    requires Descends(row, a) && Descends(row, b) && multiset(a) == multiset(b) && a != [] && b != []
    ensures a[0] == b[0]
  {
    hide Descends;
    assert a[0] in multiset(a) && b[0] in multiset(b);
    var i :| 0 <= i < |b| && b[i] == a[0];
    var j :| 0 <= j < |a| && a[j] == b[0];
    if i > 0 && j > 0 {
      DescendsAt(row, b, 0, i);
      DescendsAt(row, a, 0, j);
      AfterAsymmetric(row(a[0]), row(b[0]));
    }
  }

  lemma {:induction false} DescendingUnique<T(!new)>(row: T -> Row, a: seq<T>, b: seq<T>)
    requires Descends(row, a) && Descends(row, b) && multiset(a) == multiset(b)
    ensures a == b
  {
    if a == [] || b == [] {
      assert |multiset(a)| == |a| && |multiset(b)| == |b|;
    } else {
      HeadsAgree(row, a, b);
      assert a == [a[0]] + a[1..] && b == [b[0]] + b[1..];
      assert multiset(a[1..]) == multiset(a) - multiset{a[0]};
      assert multiset(b[1..]) == multiset(b) - multiset{b[0]};
      DescendingUnique(row, a[1..], b[1..]);
    }
  }

  /** Items with distinct keys sort the same from whatever order they were found in. */
  lemma SortUnique<T(!new)>(row: T -> Row, a: seq<T>, b: seq<T>)
    requires multiset(a) == multiset(b) && TextAgrees(row, a) && DistinctRows(row, a) && DistinctRows(row, b)
    ensures Sort(RowLeq(row), a) == Sort(RowLeq(row), b)
  {
    var leq := RowLeq(row);
    LeqPreorder(row);
    SortSorts(leq, a);
    SortSorts(leq, b);
    SortDistinct(row, leq, a);
    SortDistinct(row, leq, b);
    forall x | x in Sort(leq, a) || x in Sort(leq, b) ensures x in a {
      assert x in multiset(a);
    }
    DescendsIffDistinct(row, Sort(leq, a));
    DescendsIffDistinct(row, Sort(leq, b));
    DescendingUnique(row, Sort(leq, a), Sort(leq, b));
  }
}
