/** What each call of the fact store means for what its tenants get and find, in the facts' own terms. */
module FactSearch {
  import opened Prelude
  import opened Ordering
  import opened Pagination
  import opened FactSteps
  import opened FactViews
  import opened FactRuns

  // ---------------------------------------------------------------- text

  /** `needle` stands somewhere in `text`, up to ASCII case. */
  ghost predicate Mentions(text: string, needle: string) {
    exists a: string, w: string, b: string ::
      text == a + w + b && |w| == |needle| && forall k :: 0 <= k < |w| ==> SameLetter(w[k], needle[k])
  }

  lemma ContainsIs(text: string, needle: string)
    ensures Contains(text, needle) <==> Mentions(text, needle)
  {
    if Contains(text, needle) {
      var i :| 0 <= i <= |text| && Occurs(text, i, needle);
      var a, w, b := text[..i], text[i..i + |needle|], text[i + |needle|..];
      assert text == a + w + b;
      forall k | 0 <= k < |w| ensures SameLetter(w[k], needle[k]) {
        assert w[k] == text[i + k];
        LowerIs(w[k], needle[k]);
      }
    }
    if Mentions(text, needle) {
      var a: string, w: string, b: string :|
        text == a + w + b && |w| == |needle| && forall k :: 0 <= k < |w| ==> SameLetter(w[k], needle[k]);
      forall k | 0 <= k < |needle| ensures Lower(text[|a| + k]) == Lower(needle[k]) {
        assert text[|a| + k] == w[k];
        LowerIs(w[k], needle[k]);
      }
      assert Occurs(text, |a|, needle);
    }
  }

  // ---------------------------------------------------------------- what a search shows

  /** A fact is stored for the tenant. */
  ghost predicate StoredFor(s: State, t: Tenant, f: Fact) {
    f.id in s.facts && s.facts[f.id] == f && f.org == t.org && f.user == t.user
  }

  ghost predicate Speaks(f: Fact, text: string) {
    Mentions(f.content, text) || (f.summary.Some? && Mentions(f.summary.value, text))
  }

  /** Searching page by page shows exactly the tenant's stored facts that are not tombstoned, unless those are asked
      for, of the listed types and with the text in content or summary, if such are given. */
  lemma SearchAnswers(s: State, q: Query, limit: nat, f: Fact)
    requires Valid(s) && limit >= 1
    ensures f in SearchAll(s, q, None, limit) <==>
              && StoredFor(s, q.tenant, f)
              && (f.id in s.deleted ==> q.includeDeleted)
              && (q.memoryTypes.Some? ==> f.memoryType in q.memoryTypes.value)
              && (q.queryText.Some? ==> Speaks(f, q.queryText.value))
  {
    var seen := SearchAll(s, q, None, limit);
    FactPagesExactlyOnce(s, q, limit);
    InListed(seen, Selected(s, q), f);
    hide SearchAll;
    hide Lists;
    hide Descends;
    hide Sorted;
    if q.queryText.Some? {
      ContainsIs(f.content, q.queryText.value);
      if f.summary.Some? {
        ContainsIs(f.summary.value, q.queryText.value);
      }
    }
    hide Contains;
    hide Mentions;
    SelectedIs(s, q, f);
  }

  lemma SelectedIs(s: State, q: Query, f: Fact)
    requires Valid(s)
    ensures f in Selected(s, q) <==> f.id in s.facts && s.facts[f.id] == f && Passes(s, q, f)
  {
    hide Passes;
    if f in Selected(s, q) {
      var id :| id in s.facts && Passes(s, q, s.facts[id]) && f == s.facts[id];
    }
  }

  lemma InListed<T>(l: seq<T>, s: set<T>, x: T)
    requires Lists(l, s)
    ensures x in l <==> x in s
  {
    assert x in l <==> x in multiset(l);
  }

  /** Without filters, a search finds exactly what can be got. */
  lemma SearchIsGetting(s: State, t: Tenant, limit: nat, f: Fact)
    requires Valid(s) && limit >= 1
    ensures f in SearchAll(s, Query(t, None, None, limit, None, false), None, limit) <==> GetFact(s, t, f.id) == Some(f)
  {
    hide SearchAll;
    SearchAnswers(s, Query(t, None, None, limit, None, false), limit, f);
  }

  /** Asked for tombstoned facts, too, it finds exactly what is stored for the tenant. */
  lemma SearchWithDeleted(s: State, t: Tenant, limit: nat, f: Fact)
    requires Valid(s) && limit >= 1
    ensures f in SearchAll(s, Query(t, None, None, limit, None, true), None, limit) <==> StoredFor(s, t, f)
  {
    hide SearchAll;
    SearchAnswers(s, Query(t, None, None, limit, None, true), limit, f);
  }

  /** A list of types keeps exactly the facts of these types; a text exactly those that speak of it. */
  lemma FiltersNarrow(s: State, q: Query, types: seq<MemoryType>, text: string, limit: nat, f: Fact)
    requires Valid(s) && limit >= 1
    ensures f in SearchAll(s, q.(memoryTypes := Some(types)), None, limit)
            <==> f in SearchAll(s, q.(memoryTypes := None), None, limit) && f.memoryType in types
    ensures f in SearchAll(s, q.(queryText := Some(text)), None, limit)
            <==> f in SearchAll(s, q.(queryText := None), None, limit) && Speaks(f, text)
  {
    hide SearchAll;
    hide Speaks;
    SearchAnswers(s, q.(memoryTypes := Some(types)), limit, f);
    SearchAnswers(s, q.(memoryTypes := None), limit, f);
    SearchAnswers(s, q.(queryText := Some(text)), limit, f);
    SearchAnswers(s, q.(queryText := None), limit, f);
  }

  /** `b` is older than `a`, or as old with the smaller id. */
  ghost predicate Behind(a: Fact, b: Fact) {
    || b.updatedAt < a.updatedAt
    || (b.updatedAt == a.updatedAt
        && exists k :: 0 <= k < 16 && a.id[..k] == b.id[..k] && b.id[k] < a.id[k])
  }

  /** The facts are shown newest first, and by descending bytes of the id among equals. */
  lemma NewestFirst(s: State, q: Query, limit: nat, i: nat, j: nat)
    requires Valid(s) && limit >= 1 && i < j < |SearchAll(s, q, None, limit)|
    ensures var seen := SearchAll(s, q, None, limit); Behind(seen[i], seen[j])
  {
    hide SearchAll;
    FactPagesExactlyOnce(s, q, limit);
    var seen := SearchAll(s, q, None, limit);
    hide Lists;
    hide Sorted;
    DescendsAt(FactRow, seen, i, j);
    hide Descends;
    if seen[j].updatedAt == seen[i].updatedAt {
      TextOrder(seen[j].id, seen[i].id);
      hide Text;
      LexIs(seen[j].id, seen[i].id);
    }
  }

  // ---------------------------------------------------------------- what the writing calls do

  /** Nothing but what is filed under `id` may differ. */
  ghost predicate SameElsewhere(s: State, s': State, id: Uuid) {
    && (forall x: Uuid :: x != id ==> (x in s'.facts <==> x in s.facts))
    && (forall x: Uuid :: x != id && x in s.facts ==> s'.facts[x] == s.facts[x])
    && (forall x: Uuid :: x != id ==> (x in s'.deleted <==> x in s.deleted))
  }

  /** In every reachable state: an insert is accepted exactly when the caller owns the fact and the id is free; then
      the caller gets and finds the fact at once, and nothing else changes. */
  lemma InsertEffect(calls: seq<Call>, t: Tenant, f: Fact)
    ensures var s := After(EMPTY, calls);
            var (s', r) := InsertFact(s, t, f);
            && r == (if f.org != t.org || f.user != t.user then Err(Forbidden)
                     else if f.id in s.facts then Err(Conflict) else Ok(f))
            && (r.Err? ==> s' == s)
            && (r.Ok? ==> GetFact(s', t, f.id) == Some(f) && StoredFor(s', t, f) && SameElsewhere(s, s', f.id))
  {
    RunValid(EMPTY, calls);
    hide After;
    assert Valid(After(EMPTY, calls));
  }

  /** In every reachable state: an update is accepted exactly when the caller owns the fact and the stored one; then
      the new version is stored in place of the old one, got unless the id is tombstoned, and nothing else changes,
      tombstones included. */
  lemma UpdateEffect(calls: seq<Call>, t: Tenant, f: Fact, limit: nat)
    requires limit >= 1
    ensures var s := After(EMPTY, calls);
            var (s', r) := UpdateFact(s, t, f);
            && r == (if f.org != t.org || f.user != t.user then Err(Forbidden)
                     else if f.id !in s.facts then Err(NotFound)
                     else if s.facts[f.id].org != t.org || s.facts[f.id].user != t.user then Err(Forbidden)
                     else Ok(f))
            && (r.Err? ==> s' == s)
            && (r.Ok? ==>
                  && GetFact(s', t, f.id) == (if f.id in s.deleted then None else Some(f))
                  && s'.deleted == s.deleted && SameElsewhere(s, s', f.id)
                  && forall g: Fact :: g.id == f.id ==>
                       (g in SearchAll(s', Query(t, None, None, limit, None, true), None, limit) <==> g == f))
  {
    RunValid(EMPTY, calls);
    var s := After(EMPTY, calls);
    hide *;
    UpdateStep(s, t, f);
    StepIsValid(s, t, f);
    if UpdateFact(s, t, f).1.Ok? {
      OnlyVersion(UpdateFact(s, t, f).0, t, f, limit);
    }
  }

  lemma UpdateStep(s: State, t: Tenant, f: Fact)
    requires Valid(s)
    ensures var (s', r) := UpdateFact(s, t, f);
            && r == (if f.org != t.org || f.user != t.user then Err(Forbidden)
                     else if f.id !in s.facts then Err(NotFound)
                     else if s.facts[f.id].org != t.org || s.facts[f.id].user != t.user then Err(Forbidden)
                     else Ok(f))
            && (r.Err? ==> s' == s)
            && (r.Ok? ==>
                  && GetFact(s', t, f.id) == (if f.id in s.deleted then None else Some(f))
                  && s'.deleted == s.deleted && SameElsewhere(s, s', f.id) && StoredFor(s', t, f))
  {
  }

  lemma StepIsValid(s: State, t: Tenant, f: Fact)
    requires Valid(s)
    ensures Valid(UpdateFact(s, t, f).0)
  {
  }

  lemma OnlyVersion(s: State, t: Tenant, f: Fact, limit: nat)
    requires Valid(s) && StoredFor(s, t, f) && limit >= 1
    ensures forall g: Fact :: g.id == f.id ==>
              (g in SearchAll(s, Query(t, None, None, limit, None, true), None, limit) <==> g == f)
  {
    hide SearchAll;
    forall g: Fact | g.id == f.id
      ensures g in SearchAll(s, Query(t, None, None, limit, None, true), None, limit) <==> g == f
    {
      SearchWithDeleted(s, t, limit, g);
    }
  }

  /** In every reachable state: a soft delete is accepted exactly for the caller's own stored fact; then nobody gets
      it, it stays stored, and nothing else changes. */
  lemma SoftDeleteEffect(calls: seq<Call>, t: Tenant, id: Uuid, reader: Tenant)
    ensures var s := After(EMPTY, calls);
            var (s', r) := SoftDelete(s, t, id);
            && r == (if id !in s.facts then Err(NotFound)
                     else if s.facts[id].org != t.org || s.facts[id].user != t.user then Err(Forbidden) else Ok(()))
            && (r.Err? ==> s' == s)
            && (r.Ok? ==> GetFact(s', reader, id).None? && s'.facts == s.facts && SameElsewhere(s, s', id))
  {
    hide After;
  }

  /** In every reachable state: forgetting a tenant leaves nothing stored for it and everything else as it was. */
  lemma ForgetEffect(calls: seq<Call>, t: Tenant, f: Fact)
    ensures var s := After(EMPTY, calls);
            var s' := DeleteUserData(s, t);
            && (StoredFor(s', Tenant(f.org, f.user), f) <==>
                StoredFor(s, Tenant(f.org, f.user), f) && (f.org != t.org || f.user != t.user))
            && (f.id in s'.facts ==> (f.id in s'.deleted <==> f.id in s.deleted))
            && (f.id !in s'.facts ==> f.id !in s'.deleted)
  {
    RunValid(EMPTY, calls);
    hide After;
  }

  /** In every reachable state: a retention run keeps every fact stored, hides exactly the tenant's visible facts last
      changed before the cutoff, and counts them; a dry run changes nothing. */
  lemma RetainEffect(calls: seq<Call>, t: Tenant, cutoff: int, reader: Tenant, f: Fact)
    ensures var s := After(EMPTY, calls);
            var (s', p) := DeleteOlderThan(s, t, cutoff, false);
            && s'.facts == s.facts && DeleteOlderThan(s, t, cutoff, true).0 == s
            && (GetFact(s', reader, f.id) == Some(f) <==>
                GetFact(s, reader, f.id) == Some(f) && !(f.org == t.org && f.user == t.user && f.updatedAt < cutoff))
            && (f.id in p.ids ==> GetFact(s, t, f.id).Some? && GetFact(s', t, f.id).None?)
  {
    RunValid(EMPTY, calls);
    var s := After(EMPTY, calls);
    hide After;
    ExpiredIff(s, t, cutoff, f.id);
    hide Expired;
  }

  /** After a soft delete, whatever is called later, no search that does not ask for tombstoned facts shows one under
      that id, until its owner is forgotten. */
  lemma NeverFoundAgain(before: seq<Call>, owner: Tenant, id: Uuid, after: seq<Call>, q: Query, limit: nat, f: Fact)
    requires SoftDelete(After(EMPTY, before), owner, id).1.Ok? && Forget(owner) !in after
    requires !q.includeDeleted && limit >= 1 && f.id == id
    ensures f !in SearchAll(After(SoftDelete(After(EMPTY, before), owner, id).0, after), q, None, limit)
  {
    var s := SoftDelete(After(EMPTY, before), owner, id).0;
    RunValid(EMPTY, before);
    BuriedStays(s, after, owner, id);
    RunValid(s, after);
    hide After;
    hide SearchAll;
    SearchAnswers(After(s, after), q, limit, f);
  }

  // ---------------------------------------------------------------- the users of an organization

  /** Users are listed most recent change first, and by descending name among equals. */
  lemma UsersMostRecentFirst(s: State, org: string, limit: nat, i: nat, j: nat)
    requires limit >= 1 && i < j < |ListAllUsers(s, org, None, limit)|
    ensures var seen := ListAllUsers(s, org, None, limit);
            && seen[i].last.Some? && seen[j].last.Some?
            && (|| seen[j].last.value < seen[i].last.value
                || (seen[j].last == seen[i].last && LexLess(Codes(seen[j].user), Codes(seen[i].user))))
  {
    hide ListAllUsers;
    UserPagesExactlyOnce(s, org, limit);
    var seen := ListAllUsers(s, org, None, limit);
    hide Sorted;
    DescendsAt(UserRow, seen, i, j);
    hide Descends;
    InListed(seen, Summaries(s, org), seen[i]);
    InListed(seen, Summaries(s, org), seen[j]);
    hide Lists;
    SummaryHasTime(s, org, seen[i]);
    SummaryHasTime(s, org, seen[j]);
  }

  lemma SummaryHasTime(s: State, org: string, r: UserSummary)
    requires r in Summaries(s, org)
    ensures r.last.Some?
  {
    var u :| u in UsersOf(s, org) && r == Summary(s, org, u);
    UsersHaveFacts(s, org, u);
  }
}
