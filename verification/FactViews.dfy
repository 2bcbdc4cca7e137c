/** What the fact store's views guarantee: exactly-once pages and aggregates that agree. */
module FactViews {
  import opened Prelude
  import opened Ordering
  import opened Pagination
  import opened FactSteps

  // ---------------------------------------------------------------- rows

  lemma FactTextAgrees(l: seq<Fact>)
    ensures TextAgrees(FactRow, l)
  {
    forall x, y | x in l && y in l
      ensures LexLess(Codes(FactRow(x).text), Codes(FactRow(y).text)) <==> LexLess(FactRow(x).id, FactRow(y).id)
    {
      TextOrder(x.id, y.id);
    }
  }

  /** A list of different items with different keys has distinct rows. */
  lemma {:induction false} DifferentKeys<T(!new)>(row: T -> Row, l: seq<T>)
    requires forall i, j :: 0 <= i < j < |l| ==> KeyOf(row, l[i]) != KeyOf(row, l[j])
    ensures DistinctRows(row, l)
  {
    if l != [] {
      var t := l[1..];
      assert forall j :: 0 <= j < |t| ==> t[j] == l[j + 1];
      DifferentKeys(row, t);
    }
  }

  lemma FactsDistinct(s: State, fs: set<Fact>, l: seq<Fact>)
    requires Valid(s) && fs <= s.facts.Values && Lists(l, fs)
    ensures DistinctRows(FactRow, l)
  {
    ListsMembers(l, fs);
    forall i, j | 0 <= i < j < |l| ensures KeyOf(FactRow, l[i]) != KeyOf(FactRow, l[j]) {
      assert l[i] in s.facts.Values && l[j] in s.facts.Values;
    }
    DifferentKeys(FactRow, l);
  }

  lemma {:induction false} FilterMultiset<T>(p: T -> bool, l: seq<T>, x: T)
    ensures multiset(Filter(p, l))[x] == if p(x) then multiset(l)[x] else 0
  {
    if l != [] {
      FilterMultiset(p, l[1..], x);
      assert l == [l[0]] + l[1..];
    }
  }

  lemma FilterLists<T(!new)>(p: T -> bool, l: seq<T>, s: set<T>)
    requires Lists(l, s)
    ensures Lists(Filter(p, l), set x | x in s && p(x))
  {
    var t := set x | x in s && p(x);
    forall x ensures multiset(Filter(p, l))[x] == multiset(t)[x] {
      FilterMultiset(p, l, x);
    }
  }

  /** Whatever order the items were found in, sorting those behind the cursor and over-fetching is the fetch. */
  lemma FoundIsFetch<T(!new)>(row: T -> Row, all: seq<T>, items: set<T>, found: seq<T>, cursor: Option<PageCursor>,
      limit: nat)
    requires Lists(all, items) && Lists(found, set x | x in items && AfterAll(row, cursor)(x))
    requires DistinctRows(row, found) && TextAgrees(row, found)
    requires DistinctRows(row, Filter(AfterAll(row, cursor), all))
    ensures var sorted := Sort(RowLeq(row), found);
            Fetch(row, all, cursor, limit)
            == if |sorted| <= FetchLimit(limit) then sorted else sorted[..FetchLimit(limit)]
  {
    FilterLists(AfterAll(row, cursor), all, items);
    SortUnique(row, found, Filter(AfterAll(row, cursor), all));
  }

  lemma {:induction false} FilterFresh<T>(row: T -> Row, p: T -> bool, l: seq<T>, z: T)
    requires Fresh(row, z, l)
    ensures Fresh(row, z, Filter(p, l))
  {
    if l != [] {
      assert forall j :: 0 <= j < |l[1..]| ==> l[1..][j] == l[j + 1];
      FilterFresh(row, p, l[1..], z);
    }
  }

  lemma {:induction false} FilterDistinct<T>(row: T -> Row, p: T -> bool, l: seq<T>)
    requires DistinctRows(row, l)
    ensures DistinctRows(row, Filter(p, l))
  {
    if l != [] {
      FilterDistinct(row, p, l[1..]);
      FilterFresh(row, p, l[1..], l[0]);
      assert p(l[0]) ==> Filter(p, l)[1..] == Filter(p, l[1..]);
    }
  }

  // ---------------------------------------------------------------- exactly-once pages

  lemma SelectedStored(s: State, q: Query)
    ensures Selected(s, q) <= s.facts.Values
  {
  }

  /** A page of a search depends on the selected facts and the cursor alone. */
  lemma SearchIsFetch(s: State, q: Query, c: Option<PageCursor>, limit: nat)
    ensures SearchFacts(s, q.(cursor := c, limit := limit)) == Fetch(FactRow, Listed(Selected(s, q)), c, limit)
  {
    hide Fetch;
    hide Listed;
    assert Selected(s, q.(cursor := c, limit := limit)) == Selected(s, q);
  }

  /** All facts a client sees that searches page by page from `c` until there is no next cursor. */
  ghost function SearchAll(s: State, q: Query, c: Option<PageCursor>, limit: nat): seq<Fact>
    requires limit >= 1
    decreases |Filter(AfterAll(FactRow, c), Listed(Selected(s, q)))|
  {
    var page := BuildPage(FactRow, SearchFacts(s, q.(cursor := c, limit := limit)), limit);
    SearchIsFetch(s, q, c, limit);
    NextPageShrinks(FactRow, Listed(Selected(s, q)), c, limit);
    if page.next.None? then page.items else page.items + SearchAll(s, q, page.next, limit)
  }

  lemma {:induction false} SearchCollects(s: State, q: Query, c: Option<PageCursor>, limit: nat)
    requires limit >= 1
    ensures SearchAll(s, q, c, limit) == Collect(FactRow, Listed(Selected(s, q)), c, limit)
    decreases |Filter(AfterAll(FactRow, c), Listed(Selected(s, q)))|
  {
    hide SearchFacts;
    hide Fetch;
    hide Selected;
    hide Listed;
    var page := BuildPage(FactRow, SearchFacts(s, q.(cursor := c, limit := limit)), limit);
    SearchIsFetch(s, q, c, limit);
    NextPageShrinks(FactRow, Listed(Selected(s, q)), c, limit);
    if page.next.Some? {
      SearchCollects(s, q, page.next, limit);
    }
  }

  /** Searching page by page, with any page size, over an unchanged store shows every fact the query selects
      exactly once, newest first. */
  lemma FactPagesExactlyOnce(s: State, q: Query, limit: nat)
    requires Valid(s) && limit >= 1
    ensures var seen := SearchAll(s, q, None, limit);
            Lists(seen, Selected(s, q)) && Sorted(RowLeq(FactRow), seen) && Descends(FactRow, seen)
  {
    SearchCollects(s, q, None, limit);
    hide SearchAll;
    hide Selected;
    hide Collect;
    hide Listed;
    hide Descends;
    hide DistinctRows;
    var items := Listed(Selected(s, q));
    SelectedStored(s, q);
    FactsDistinct(s, Selected(s, q), items);
    FactTextAgrees(items);
    PagesExactlyOnce(FactRow, items, limit);
  }

  lemma PagesExactlyOnce<T(!new)>(row: T -> Row, items: seq<T>, limit: nat)
    requires TextAgrees(row, items) && DistinctRows(row, items) && limit >= 1
    ensures var seen := Collect(row, items, None, limit);
            multiset(seen) == multiset(items) && Sorted(RowLeq(row), seen) && Descends(row, seen)
  {
    ExactlyOnce(row, items, limit);
    LeqPreorder(row);
    SortSorts(RowLeq(row), items);
    SortDescends(row, items);
  }

  // ---------------------------------------------------------------- users

  lemma UsersDistinct(s: State, org: string, us: set<UserSummary>, l: seq<UserSummary>)
    requires us <= Summaries(s, org) && Lists(l, us)
    ensures DistinctRows(UserRow, l) && TextAgrees(UserRow, l)
  {
    ListsMembers(l, us);
    forall i, j | 0 <= i < j < |l| ensures KeyOf(UserRow, l[i]) != KeyOf(UserRow, l[j]) {
      assert l[i] in us && l[j] in us && l[i] != l[j];
      if Codes(l[i].user) == Codes(l[j].user) {
        CodesInjective(l[i].user, l[j].user);
      }
    }
    DifferentKeys(UserRow, l);
  }

  /** All rows a client sees that lists an organization's users page by page from `c`. */
  ghost function ListAllUsers(s: State, org: string, c: Option<PageCursor>, limit: nat): seq<UserSummary>
    requires limit >= 1
    decreases |Filter(AfterAll(UserRow, c), Listed(Summaries(s, org)))|
  {
    var page := BuildPage(UserRow, ListUsers(s, org, c, limit), limit);
    NextPageShrinks(UserRow, Listed(Summaries(s, org)), c, limit);
    if page.next.None? then page.items else page.items + ListAllUsers(s, org, page.next, limit)
  }

  lemma {:induction false} UsersCollect(s: State, org: string, c: Option<PageCursor>, limit: nat)
    requires limit >= 1
    ensures ListAllUsers(s, org, c, limit) == Collect(UserRow, Listed(Summaries(s, org)), c, limit)
    decreases |Filter(AfterAll(UserRow, c), Listed(Summaries(s, org)))|
  {
    hide Fetch;
    hide Summaries;
    hide Listed;
    var page := BuildPage(UserRow, ListUsers(s, org, c, limit), limit);
    NextPageShrinks(UserRow, Listed(Summaries(s, org)), c, limit);
    if page.next.Some? {
      UsersCollect(s, org, page.next, limit);
    }
  }

  /** Listing an organization's users page by page shows one row per user, most recent first. */
  lemma UserPagesExactlyOnce(s: State, org: string, limit: nat)
    requires limit >= 1
    ensures var seen := ListAllUsers(s, org, None, limit);
            Lists(seen, Summaries(s, org)) && Sorted(RowLeq(UserRow), seen) && Descends(UserRow, seen)
  {
    UsersCollect(s, org, None, limit);
    hide ListAllUsers;
    hide Summaries;
    hide Collect;
    hide Listed;
    hide Descends;
    hide DistinctRows;
    var items := Listed(Summaries(s, org));
    UsersDistinct(s, org, Summaries(s, org), items);
    PagesExactlyOnce(UserRow, items, limit);
  }

  // ---------------------------------------------------------------- aggregates

  /** A user is counted exactly when it has facts. */
  lemma UsersHaveFacts(s: State, org: string, user: string)
    ensures user in UsersOf(s, org) <==> |OfUser(s, Tenant(org, user))| > 0
    ensures OfUser(s, Tenant(org, user)) == set f | f in OfOrg(s, org) && f.user == user
  {
    var fs := OfUser(s, Tenant(org, user));
    assert fs == set f | f in OfOrg(s, org) && f.user == user;
    if user in UsersOf(s, org) {
      var f :| f in OfOrg(s, org) && f.user == user;
      assert f in fs;
    }
    if |fs| > 0 {
      var f :| f in fs;
      assert f in OfOrg(s, org) && f.user == user;
    }
  }

  /** Facts and their ids are equally many. */
  lemma {:induction false} IdsOf(fs: set<Fact>)
    requires forall f, g :: f in fs && g in fs && f.id == g.id ==> f == g
    ensures |set f | f in fs :: f.id| == |fs|
  {
    if fs == {} {
      assert (set f | f in fs :: f.id) == {};
    } else {
      var x :| x in fs;
      IdsOf(fs - {x});
      assert (set f | f in fs :: f.id) == (set f | f in fs - {x} :: f.id) + {x.id};
    }
  }

  /** The counters count what can be got: a user's facts, and an organization's facts by their own users. */
  lemma CountsAreVisible(s: State, t: Tenant)
    requires Valid(s)
    ensures |OfUser(s, t)| == |set id | id in s.facts && GetFact(s, t, id).Some?|
    ensures |OfOrg(s, t.org)| == |set id | id in s.facts && GetFact(s, Tenant(t.org, s.facts[id].user), id).Some?|
  {
    var mine, all := OfUser(s, t), OfOrg(s, t.org);
    IdsOf(mine);
    IdsOf(all);
    assert (set id | id in s.facts && GetFact(s, t, id).Some?) == (set f | f in mine :: f.id) by {
      forall id | id in s.facts && GetFact(s, t, id).Some? ensures id in (set f | f in mine :: f.id) {
        assert s.facts[id] in mine;
      }
    }
    assert (set id | id in s.facts && GetFact(s, Tenant(t.org, s.facts[id].user), id).Some?)
           == (set f | f in all :: f.id) by {
      forall id | id in s.facts && GetFact(s, Tenant(t.org, s.facts[id].user), id).Some?
        ensures id in (set f | f in all :: f.id)
      {
        assert s.facts[id] in all;
      }
    }
  }

  /** Sum of the per-user counts over a set of users. */
  ghost function SumOfCounts(s: State, org: string, users: set<string>): nat {
    if users == {} then 0
    else
      var u :| u in users;
      |OfUser(s, Tenant(org, u))| + SumOfCounts(s, org, users - {u})
  }

  lemma {:induction false} CountsAddUp(s: State, org: string, users: set<string>)
    ensures SumOfCounts(s, org, users) == |set f | f in OfOrg(s, org) && f.user in users|
  {
    var all := set f | f in OfOrg(s, org) && f.user in users;
    if users == {} {
      assert all == {};
    } else {
      var u :| u in users
               && SumOfCounts(s, org, users) == |OfUser(s, Tenant(org, u))| + SumOfCounts(s, org, users - {u});
      CountsAddUp(s, org, users - {u});
      UsersHaveFacts(s, org, u);
      var mine := OfUser(s, Tenant(org, u));
      var others := set f | f in OfOrg(s, org) && f.user in users - {u};
      assert all == mine + others && mine !! others;
    }
  }

  /** The organization's count is the sum of its users' counts, over any set of users that misses none. */
  lemma OrgCountIsSum(s: State, org: string, users: set<string>)
    requires UsersOf(s, org) <= users
    ensures |OfOrg(s, org)| == SumOfCounts(s, org, users)
  {
    CountsAddUp(s, org, users);
    assert OfOrg(s, org) == set f | f in OfOrg(s, org) && f.user in users by {
      forall f | f in OfOrg(s, org) ensures f.user in users {
        assert f.user in UsersOf(s, org);
      }
    }
  }

  /** The untruncated user listing has one row per user with facts, with that user's count and latest change. */
  lemma ListingAgrees(s: State, org: string, rows: seq<UserSummary>)
    requires rows == ListUsers(s, org, None, |UsersOf(s, org)|)
    ensures |rows| == |UsersOf(s, org)|
    ensures forall u :: u in UsersOf(s, org) <==> exists i :: 0 <= i < |rows| && rows[i].user == u
    ensures forall i, j :: 0 <= i < j < |rows| ==> rows[i].user != rows[j].user
    ensures forall i :: 0 <= i < |rows| ==>
              var fs := OfUser(s, Tenant(org, rows[i].user));
              rows[i].count == |fs| > 0 && rows[i].last.Some? && IsLatest(fs, rows[i].last.value)
  {
    var us := Summaries(s, org);
    SummariesCount(s, org);
    ListingLists(s, org, |UsersOf(s, org)|);
    ListsMembers(rows, us);
    forall i | 0 <= i < |rows|
      ensures rows[i].user in UsersOf(s, org) && rows[i] == Summary(s, org, rows[i].user)
    {
      assert rows[i] in us;
    }
    forall u | u in UsersOf(s, org) ensures exists i :: 0 <= i < |rows| && rows[i].user == u {
      assert Summary(s, org, u) in us;
    }
    forall i | 0 <= i < |rows|
      ensures var fs := OfUser(s, Tenant(org, rows[i].user));
              rows[i].count == |fs| > 0 && rows[i].last.Some? && IsLatest(fs, rows[i].last.value)
    {
      UsersHaveFacts(s, org, rows[i].user);
    }
  }

  lemma {:induction false} SummariesOf(s: State, org: string, users: set<string>)
    ensures |set u | u in users :: Summary(s, org, u)| == |users|
  {
    if users == {} {
      assert (set u | u in users :: Summary(s, org, u)) == {};
    } else {
      var x :| x in users;
      SummariesOf(s, org, users - {x});
      assert (set u | u in users :: Summary(s, org, u))
             == (set u | u in users - {x} :: Summary(s, org, u)) + {Summary(s, org, x)};
    }
  }

  lemma SummariesCount(s: State, org: string)
    ensures |Summaries(s, org)| == |UsersOf(s, org)|
  {
    SummariesOf(s, org, UsersOf(s, org));
  }

  lemma ListingLists(s: State, org: string, limit: nat)
    requires limit >= |Summaries(s, org)|
    ensures Lists(ListUsers(s, org, None, limit), Summaries(s, org))
  {
    hide Summaries;
    hide Sort;
    var l := Listed(Summaries(s, org));
    ListsMembers(l, Summaries(s, org));
    FilterAll(AfterAll(UserRow, None), l);
    LeqPreorder(UserRow);
    SortSorts(RowLeq(UserRow), l);
  }
}
