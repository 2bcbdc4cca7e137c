/** The in-memory fact store. */
module FactStore {
  import opened Prelude
  import opened Ordering
  import opened Pagination
  import opened F = FactSteps
  import opened FactViews

  class MockFactStore {
    var facts: map<Uuid, Fact>
    var deleted: set<Uuid>

    ghost function Now(): State
      reads this
    {
      State(facts, deleted)
    }

    constructor ()
      ensures Now() == EMPTY && Valid(Now())
    {
      facts, deleted := map[], {};
    }

    method InsertFact(t: Tenant, f: Fact) returns (r: Result<Fact>)
      requires Valid(Now())
      modifies this
      ensures (Now(), r) == F.InsertFact(old(Now()), t, f)
      ensures Valid(Now())
    {
      if !Matches(f, t) { return Err(Forbidden); }
      if f.id in facts { return Err(Conflict); }
      facts := facts[f.id := f];
      return Ok(f);
    }

    method UpdateFact(t: Tenant, f: Fact) returns (r: Result<Fact>)
      requires Valid(Now())
      modifies this
      ensures (Now(), r) == F.UpdateFact(old(Now()), t, f)
      ensures Valid(Now())
    {
      if !Matches(f, t) { return Err(Forbidden); }
      if f.id !in facts { return Err(NotFound); }
      if !Matches(facts[f.id], t) { return Err(Forbidden); }
      facts := facts[f.id := f];
      return Ok(f);
    }

    method GetFact(t: Tenant, id: Uuid) returns (r: Option<Fact>)
      ensures r == F.GetFact(Now(), t, id)
    {
      if id !in facts { return None; }
      if !Matches(facts[id], t) { return None; }
      if id in deleted { return None; }
      return Some(facts[id]);
    }

    method SoftDeleteFact(t: Tenant, id: Uuid) returns (r: Result<()>)
      requires Valid(Now())
      modifies this
      ensures (Now(), r) == SoftDelete(old(Now()), t, id)
      ensures Valid(Now())
    {
      if id !in facts { return Err(NotFound); }
      if !Matches(facts[id], t) { return Err(Forbidden); }
      deleted := deleted + {id};
      return Ok(());
    }

    method DeleteUserData(t: Tenant)
      requires Valid(Now())
      modifies this
      ensures Now() == F.DeleteUserData(old(Now()), t)
      ensures Valid(Now())
    {
      facts := map id | id in facts && !Matches(facts[id], t) :: facts[id];
      deleted := deleted * facts.Keys;
    }

    /** The ids a retention run finds, collected in any order. */
    method MatchingIds(t: Tenant, cutoff: int) returns (matching: seq<Uuid>)
      requires Valid(Now())
      ensures Lists(matching, Expired(Now(), t, cutoff))
    {
      ghost var expired := Expired(Now(), t, cutoff);
      matching := [];
      var rest := facts.Keys;
      assert expired - rest == {};
      ListsNothing<Uuid>();
      hide Expired;
      hide Lists;
      while rest != {}
        invariant rest <= facts.Keys && Lists(matching, expired - rest)
        decreases |rest|
      {
        var id :| id in rest;
        ExpiredIff(Now(), t, cutoff, id);
        ListsNext(matching, expired, rest, id);
        rest := rest - {id};
        if Matches(facts[id], t) && facts[id].id !in deleted && facts[id].updatedAt < cutoff {
          matching := matching + [facts[id].id];
        }
      }
      assert expired - {} == expired;
    }

    method DeleteFactsOlderThan(t: Tenant, cutoff: int, dryRun: bool) returns (count: nat, ids: seq<Uuid>)
      requires Valid(Now())
      modifies this
      ensures var (s, p) := DeleteOlderThan(old(Now()), t, cutoff, dryRun);
              Now() == s && count == p.count && Lists(ids, p.ids)
      ensures Valid(Now())
    {
      ghost var expired := Expired(Now(), t, cutoff);
      var matching := MatchingIds(t, cutoff);
      if dryRun {
        ListsMembers(matching, expired);
        return |matching|, [];
      }
      ListsMembers(matching, expired);
      for i := 0 to |matching|
        invariant facts == old(facts) && old(deleted) <= deleted <= old(deleted) + expired
        invariant forall k :: 0 <= k < i ==> matching[k] in deleted
      {
        deleted := deleted + {matching[i]};
      }
      assert deleted == old(deleted) + expired;
      return |matching|, matching;
    }

    /** The query's facts behind its cursor, visited in any order, then sorted and over-fetched by one. */
    method SearchFacts(q: Query) returns (results: seq<Fact>)
      requires Valid(Now())
      ensures results == F.SearchFacts(Now(), q)
    {
      ghost var wanted := set f | f in Selected(Now(), q) && AfterAll(FactRow, q.cursor)(f);
      results := [];
      var rest := facts.Values;
      assert wanted - rest == {};
      ListsNothing<Fact>();
      hide Lists;
      hide Selected;
      hide Passes;
      while rest != {}
        invariant rest <= facts.Values && Lists(results, wanted - rest)
        decreases |rest|
      {
        var f :| f in rest;
        SelectedIff(Now(), q, f);
        ListsNext(results, wanted, rest, f);
        rest := rest - {f};
        if Passes(State(facts, deleted), q, f) && (q.cursor.None? || IsAfterCursor(FactRow(f), q.cursor.value)) {
          results := results + [f];
        }
      }
      assert wanted - {} == wanted;
      SearchFound(Now(), q, results);
      results := Sort(RowLeq(FactRow), results);
      if |results| > FetchLimit(q.limit) {
        results := results[..FetchLimit(q.limit)];
      }
    }

    method CountFactsByOrg(org: string) returns (n: nat)
      ensures n == |OfOrg(Now(), org)|
      ensures Valid(Now()) ==> n == |set id | id in facts && F.GetFact(Now(), Tenant(org, facts[id].user), id).Some?|
    {
      if Valid(Now()) { CountsAreVisible(Now(), Tenant(org, "")); }
      n := |set id | id in facts && facts[id].org == org && facts[id].id !in deleted :: facts[id]|;
    }

    method CountFactsByUser(t: Tenant) returns (n: nat)
      ensures n == |OfUser(Now(), t)|
      ensures Valid(Now()) ==> n == |set id | id in facts && F.GetFact(Now(), t, id).Some?|
    {
      if Valid(Now()) { CountsAreVisible(Now(), t); }
      n := |set id | id in facts && Matches(facts[id], t) && facts[id].id !in deleted :: facts[id]|;
    }

    method CountUsersByOrg(org: string) returns (n: nat)
      ensures n == |UsersOf(Now(), org)|
    {
      var users: set<string> := {};
      var rest := facts.Values;
      while rest != {}
        invariant rest <= facts.Values
        invariant users == set f | f in OfOrg(Now(), org) - rest :: f.user
        decreases |rest|
      {
        var f :| f in rest;
        ghost var before := rest;
        rest := rest - {f};
        if f.org == org && f.id !in deleted {
          users := users + {f.user};
          assert OfOrg(Now(), org) - rest == (OfOrg(Now(), org) - before) + {f};
        } else {
          assert OfOrg(Now(), org) - rest == OfOrg(Now(), org) - before;
        }
      }
      assert OfOrg(Now(), org) - {} == OfOrg(Now(), org);
      n := |users|;
    }

    /** Accumulates count and latest change per user over the facts in any order. */
    method Aggregates(org: string) returns (agg: map<string, (nat, Option<int>)>)
      ensures agg.Keys == UsersOf(Now(), org)
      ensures forall u :: u in agg ==> GoodEntry(OfOrg(Now(), org), u, agg[u])
    {
      agg := map[];
      ghost var all := OfOrg(Now(), org);
      var rest := facts.Values;
      assert all - rest == {};
      assert Aggregated({}, agg);
      hide Aggregated;
      hide GoodEntry;
      while rest != {}
        invariant rest <= facts.Values && Aggregated(all - rest, agg)
        decreases |rest|
      {
        var f :| f in rest;
        TakeOne(all, rest, f);
        ghost var before := rest;
        rest := rest - {f};
        if f.org != org || f.id in deleted {
          continue;
        }
        AggregateOneMore(all - before, agg, f);
        var entry := if f.user in agg then agg[f.user] else (0, None);
        agg := agg[f.user := Extend(entry, f.updatedAt)];
      }
      assert all - {} == all;
      AggregatedAll(all, agg);
    }

    /** One row per aggregate behind the cursor, in any order. */
    method Rows(org: string, agg: map<string, (nat, Option<int>)>, cursor: Option<PageCursor>)
      returns (users: seq<UserSummary>)
      requires agg.Keys == UsersOf(Now(), org)
      requires forall u :: u in agg ==> UserSummary(u, agg[u].0, agg[u].1) == Summary(Now(), org, u)
      ensures Lists(users, set r | r in Summaries(Now(), org) && AfterAll(UserRow, cursor)(r))
    {
      ghost var s := Now();
      users := [];
      var rest := agg.Keys;
      assert RowsFor(s, org, agg.Keys - rest, cursor) == {};
      ListsNothing<UserSummary>();
      hide Lists;
      hide RowsFor;
      hide Summary;
      hide Summaries;
      hide UsersOf;
      hide IsAfterCursor;
      hide AfterAll;
      while rest != {}
        invariant rest <= agg.Keys && Lists(users, RowsFor(s, org, agg.Keys - rest, cursor))
        decreases |rest|
      {
        var u :| u in rest;
        TakeOne(agg.Keys, rest, u);
        RowsOneMore(s, org, agg.Keys - rest, u, cursor, users);
        rest := rest - {u};
        var r := UserSummary(u, agg[u].0, agg[u].1);
        if cursor.None? || IsAfterCursor(UserRow(r), cursor.value) {
          users := users + [r];
        }
      }
      assert agg.Keys - {} == agg.Keys;
      RowsForAll(s, org, cursor);
    }

    method ListUsersByOrg(org: string, cursor: Option<PageCursor>, limit: nat) returns (users: seq<UserSummary>)
      ensures users == ListUsers(Now(), org, cursor, limit)
    {
      var agg := Aggregates(org);
      forall u | u in agg ensures UserSummary(u, agg[u].0, agg[u].1) == Summary(Now(), org, u) {
        EntryIsSummary(Now(), org, u, agg[u]);
      }
      users := Rows(org, agg, cursor);
      ListingFound(Now(), org, cursor, limit, users);
      users := Sort(RowLeq(UserRow), users);
      if |users| > FetchLimit(limit) {
        users := users[..FetchLimit(limit)];
      }
    }
  }

  lemma SelectedIff(s: State, q: Query, f: Fact)
    requires f in s.facts.Values
    ensures f in Selected(s, q) <==> Passes(s, q, f)
  {
  }

  lemma SearchFound(s: State, q: Query, found: seq<Fact>)
    requires Valid(s) && Lists(found, set f | f in Selected(s, q) && AfterAll(FactRow, q.cursor)(f))
    ensures var sorted := Sort(RowLeq(FactRow), found);
            F.SearchFacts(s, q) == if |sorted| <= FetchLimit(q.limit) then sorted else sorted[..FetchLimit(q.limit)]
  {
    hide Sort;
    hide Filter;
    hide Listed;
    SelectedStored(s, q);
    var all := Listed(Selected(s, q));
    FactsDistinct(s, (set f | f in Selected(s, q) && AfterAll(FactRow, q.cursor)(f)), found);
    FactsDistinct(s, Selected(s, q), all);
    FilterDistinct(FactRow, AfterAll(FactRow, q.cursor), all);
    FactTextAgrees(found);
    FoundIsFetch(FactRow, all, Selected(s, q), found, q.cursor, q.limit);
  }

  lemma ListingFound(s: State, org: string, cursor: Option<PageCursor>, limit: nat, found: seq<UserSummary>)
    requires Lists(found, set r | r in Summaries(s, org) && AfterAll(UserRow, cursor)(r))
    ensures var sorted := Sort(RowLeq(UserRow), found);
            ListUsers(s, org, cursor, limit)
            == if |sorted| <= FetchLimit(limit) then sorted else sorted[..FetchLimit(limit)]
  {
    hide Sort;
    hide Filter;
    hide Listed;
    hide Summaries;
    var all := Listed(Summaries(s, org));
    UsersDistinct(s, org, (set r | r in Summaries(s, org) && AfterAll(UserRow, cursor)(r)), found);
    UsersDistinct(s, org, Summaries(s, org), all);
    FilterDistinct(UserRow, AfterAll(UserRow, cursor), all);
    FoundIsFetch(UserRow, all, Summaries(s, org), found, cursor, limit);
  }

  ghost function RowsFor(s: State, org: string, users: set<string>, cursor: Option<PageCursor>): set<UserSummary> {
    set u | u in users && AfterAll(UserRow, cursor)(Summary(s, org, u)) :: Summary(s, org, u)
  }

  lemma SummaryUser(s: State, org: string, u: string)
    ensures Summary(s, org, u).user == u
  {
  }

  lemma RowsOneMore(s: State, org: string, users: set<string>, u: string, cursor: Option<PageCursor>,
      l: seq<UserSummary>)
    requires u !in users && Lists(l, RowsFor(s, org, users, cursor))
    ensures var r := Summary(s, org, u);
            Lists(if cursor.None? || IsAfterCursor(UserRow(r), cursor.value) then l + [r] else l,
                  RowsFor(s, org, users + {u}, cursor))
  {
    hide Summary;
    hide Lists;
    hide IsAfterCursor;
    hide UserRow;
    var r := Summary(s, org, u);
    var before := RowsFor(s, org, users, cursor);
    SummaryUser(s, org, u);
    forall v | v in users ensures Summary(s, org, v) != r {
      SummaryUser(s, org, v);
    }
    if AfterAll(UserRow, cursor)(r) {
      assert RowsFor(s, org, users + {u}, cursor) == before + {r};
      ListsOneMore(l, before, r);
    } else {
      assert RowsFor(s, org, users + {u}, cursor) == before;
    }
  }

  lemma RowsForAll(s: State, org: string, cursor: Option<PageCursor>)
    ensures RowsFor(s, org, UsersOf(s, org), cursor) == set r | r in Summaries(s, org) && AfterAll(UserRow, cursor)(r)
  {
  }

  ghost predicate GoodEntry(fs: set<Fact>, user: string, e: (nat, Option<int>)) {
    var mine := set f | f in fs && f.user == user;
    e.0 == |mine| && e.1.Some? && IsLatest(mine, e.1.value)
  }

  ghost predicate Aggregated(fs: set<Fact>, agg: map<string, (nat, Option<int>)>) {
    agg.Keys == (set f | f in fs :: f.user) && forall u :: u in agg ==> GoodEntry(fs, u, agg[u])
  }

  lemma EntryIsSummary(s: State, org: string, user: string, e: (nat, Option<int>))
    requires user in UsersOf(s, org) && GoodEntry(OfOrg(s, org), user, e)
    ensures UserSummary(user, e.0, e.1) == Summary(s, org, user)
  {
    UsersHaveFacts(s, org, user);
  }

  /** One more fact in a user's aggregate. */
  function Extend(entry: (nat, Option<int>), updatedAt: int): (nat, Option<int>) {
    (entry.0 + 1, Some(if entry.1.Some? && entry.1.value > updatedAt then entry.1.value else updatedAt))
  }

  lemma EntryOneMore(fs: set<Fact>, entry: (nat, Option<int>), f: Fact)
    requires f !in fs
    requires GoodEntry(fs, f.user, entry) || (entry == (0, None) && forall g :: g in fs ==> g.user != f.user)
    ensures GoodEntry(fs + {f}, f.user, Extend(entry, f.updatedAt))
  {
    var mine := set g | g in fs && g.user == f.user;
    var more := set g | g in fs + {f} && g.user == f.user;
    assert more == mine + {f};
    if entry == (0, None) {
      assert mine == {};
    }
    LatestOneMore(mine, entry.1, f);
  }

  lemma LatestOneMore(fs: set<Fact>, last: Option<int>, f: Fact)
    requires if last.None? then fs == {} else IsLatest(fs, last.value)
    ensures IsLatest(fs + {f}, if last.Some? && last.value > f.updatedAt then last.value else f.updatedAt)
  {
    assert f in fs + {f};
    if last.Some? && last.value > f.updatedAt {
      var g :| g in fs && g.updatedAt == last.value;
      assert g in fs + {f};
    }
  }

  lemma OtherEntry(fs: set<Fact>, user: string, e: (nat, Option<int>), f: Fact)
    requires GoodEntry(fs, user, e) && f.user != user
    ensures GoodEntry(fs + {f}, user, e)
  {
    assert (set g | g in fs + {f} && g.user == user) == (set g | g in fs && g.user == user);
  }

  lemma AggregateOneMore(fs: set<Fact>, agg: map<string, (nat, Option<int>)>, f: Fact)
    requires Aggregated(fs, agg) && f !in fs
    ensures Aggregated(fs + {f}, agg[f.user := Extend(if f.user in agg then agg[f.user] else (0, None), f.updatedAt)])
  {
    hide GoodEntry;
    EntryOneMore(fs, if f.user in agg then agg[f.user] else (0, None), f);
    forall u | u in agg && u != f.user ensures GoodEntry(fs + {f}, u, agg[u]) {
      OtherEntry(fs, u, agg[u], f);
    }
  }

  lemma AggregatedAll(fs: set<Fact>, agg: map<string, (nat, Option<int>)>)
    requires Aggregated(fs, agg)
    ensures agg.Keys == (set f | f in fs :: f.user) && forall u :: u in agg ==> GoodEntry(fs, u, agg[u])
  {
  }
}
