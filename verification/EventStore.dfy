/** The in-memory memory-event store: an append-only list with physical retention. */
module EventStore {
  import opened Prelude
  import opened Ordering
  import opened Pagination
  import opened FactSteps

  datatype Operation = Add | Update | Delete | NoOp | ForgetUser

  /** An event, with the fields the store looks at. */
  datatype Event = Event(
    id: Uuid,
    org: string,
    user: string,
    factId: Option<Uuid>,
    operation: Operation,
    previousContent: Option<string>,
    newContent: Option<string>,
    providerName: Option<string>,
    modelName: Option<string>,
    createdAt: int)

  datatype EventQuery = EventQuery(
    org: string,
    user: Option<string>,
    factId: Option<Uuid>,
    operation: Option<Operation>,
    createdAfter: Option<int>,
    createdBefore: Option<int>,
    queryText: Option<string>,
    keywordInUser: bool)

  const DEFAULT_LIMIT: nat := 50
  const MAX_LIMIT: nat := 200

  predicate OfTenant(e: Event, t: Tenant) {
    e.org == t.org && e.user == t.user
  }

  predicate HasText(o: Option<string>, needle: string) {
    o.Some? && Contains(o.value, needle)
  }

  predicate MatchesKeyword(e: Event, needle: string, inUser: bool) {
    || HasText(e.previousContent, needle) || HasText(e.newContent, needle)
    || HasText(e.providerName, needle) || HasText(e.modelName, needle)
    || (inUser && Contains(e.user, needle))
  }

  predicate Wanted(q: EventQuery, e: Event) {
    && e.org == q.org
    && (q.user.None? || e.user == q.user.value)
    && (q.factId.None? || e.factId == q.factId)
    && (q.operation.None? || e.operation == q.operation.value)
    && (q.createdAfter.None? || e.createdAt >= q.createdAfter.value)
    && (q.createdBefore.None? || e.createdAt < q.createdBefore.value)
    && (q.queryText.None? || MatchesKeyword(e, q.queryText.value, q.keywordInUser))
  }

  function WantedBy(q: EventQuery): Event -> bool { e => Wanted(q, e) }

  function EventRow(e: Event): Row {
    Row(e.createdAt, e.id, Text(e.id))
  }

  /** The audit listing of one user; over-large limits are refused. */
  function ListEvents(events: seq<Event>, q: EventQuery, cursor: Option<PageCursor>, limit: nat): Result<seq<Event>> {
    if limit > MAX_LIMIT then Err(Validation) else Ok(Fetch(EventRow, Filter(WantedBy(q), events), cursor, limit))
  }

  /** The listing of an organization, which reads a zero limit as the default. */
  function ListOrgEvents(events: seq<Event>, q: EventQuery, cursor: Option<PageCursor>, limit: nat)
    : Result<seq<Event>>
  {
    if limit > MAX_LIMIT then Err(Validation)
    else Ok(Fetch(EventRow, Filter(WantedBy(q), events), cursor, if limit == 0 then DEFAULT_LIMIT else limit))
  }

  predicate Stale(e: Event, t: Tenant, cutoff: int) {
    OfTenant(e, t) && e.createdAt < cutoff
  }

  function KeptBy(t: Tenant, cutoff: int): Event -> bool { e => !Stale(e, t, cutoff) }
  function StaleFor(t: Tenant, cutoff: int): Event -> bool { e => Stale(e, t, cutoff) }

  /** Retention: the stale events go, the others keep their order. */
  function Prune(events: seq<Event>, t: Tenant, cutoff: int, dryRun: bool): (seq<Event>, nat) {
    if dryRun then (events, |Filter(StaleFor(t, cutoff), events)|)
    else
      var kept := Filter(KeptBy(t, cutoff), events);
      FilterMembers(KeptBy(t, cutoff), events);
      (kept, |events| - |kept|)
  }

  class MockMemoryEventStore {
    var events: seq<Event>

    constructor ()
      ensures events == []
    {
      events := [];
    }

    method RecordEvent(t: Tenant, e: Event) returns (r: Result<Event>)
      modifies this
      ensures if OfTenant(e, t) then r == Ok(e) && events == old(events) + [e]
              else r == Err(Forbidden) && events == old(events)
    {
      if !OfTenant(e, t) {
        return Err(Forbidden);
      }
      events := events + [e];
      return Ok(e);
    }

    method DeleteEventsOlderThan(t: Tenant, cutoff: int, dryRun: bool) returns (n: nat)
      modifies this
      ensures (events, n) == Prune(old(events), t, cutoff, dryRun)
    {
      var beforeLen := |events|;
      if dryRun {
        return |Filter(StaleFor(t, cutoff), events)|;
      }
      FilterMembers(KeptBy(t, cutoff), events);
      events := Filter(KeptBy(t, cutoff), events);
      return beforeLen - |events|;
    }
  }

  // ---------------------------------------------------------------- retention

  lemma {:induction false} KeptAndStale(events: seq<Event>, t: Tenant, cutoff: int)
    ensures |Filter(StaleFor(t, cutoff), events)| + |Filter(KeptBy(t, cutoff), events)| == |events|
  {
    if events != [] {
      KeptAndStale(events[1..], t, cutoff);
    }
  }

  lemma {:induction false} FilterTwice<T>(p: T -> bool, q: T -> bool, r: T -> bool, s: seq<T>)
    requires forall x :: x in s ==> (r(x) <==> p(x) && q(x))
    ensures Filter(q, Filter(p, s)) == Filter(r, s)
  {
    if s != [] {
      assert s[0] in s;
      FilterTwice(p, q, r, s[1..]);
      if p(s[0]) {
        assert Filter(p, s)[1..] == Filter(p, s[1..]);
      }
    }
  }

  /** A dry run foretells the count of an immediate run; that run removes exactly the tenant's older events and
      a second one removes nothing. */
  lemma DryRunForetells(events: seq<Event>, t: Tenant, cutoff: int)
    ensures var (dry, foretold), (kept, n) := Prune(events, t, cutoff, true), Prune(events, t, cutoff, false);
            && dry == events && foretold == n
            && (forall e :: e in kept <==> e in events && !Stale(e, t, cutoff))
            && Prune(kept, t, cutoff, false) == (kept, 0)
  {
    KeptAndStale(events, t, cutoff);
    FilterMembers(KeptBy(t, cutoff), events);
    FilterTwice(KeptBy(t, cutoff), KeptBy(t, cutoff), KeptBy(t, cutoff), events);
  }

  /** Two runs leave the events one run at the later cutoff leaves, in the same order, and the counts add up. */
  lemma RetentionComposes(events: seq<Event>, t: Tenant, c1: int, c2: int)
    ensures var (e1, n1) := Prune(events, t, c1, false);
            var (e2, n2) := Prune(e1, t, c2, false);
            (e2, n1 + n2) == Prune(events, t, if c1 < c2 then c2 else c1, false)
  {
    FilterTwice(KeptBy(t, c1), KeptBy(t, c2), KeptBy(t, if c1 < c2 then c2 else c1), events);
  }

  /** Another tenant's events, in their order, survive every retention run. */
  lemma {:induction false} RetentionIsLocal(events: seq<Event>, t: Tenant, cutoff: int, dryRun: bool, b: Tenant)
    requires b != t
    ensures Filter((e: Event) => OfTenant(e, b), Prune(events, t, cutoff, dryRun).0)
            == Filter((e: Event) => OfTenant(e, b), events)
  {
    var mine := (e: Event) => OfTenant(e, b);
    FilterTwice(KeptBy(t, cutoff), mine, mine, events);
  }

  // ---------------------------------------------------------------- pages

  /** Following the cursors of an event listing shows every wanted event exactly once for every permitted page
      size exactly when no two wanted events share time and id; each page is what the store answers. */
  lemma EventPagesExactlyOnce(events: seq<Event>, q: EventQuery)
    ensures var items := Filter(WantedBy(q), events);
            (forall limit: nat :: 1 <= limit <= MAX_LIMIT ==>
               Collect(EventRow, items, None, limit) == Sort(RowLeq(EventRow), items))
            <==> DistinctRows(EventRow, items)
    ensures forall c: Option<PageCursor>, limit: nat :: 1 <= limit <= MAX_LIMIT ==>
              ListEvents(events, q, c, limit) == ListOrgEvents(events, q, c, limit)
              == Ok(Fetch(EventRow, Filter(WantedBy(q), events), c, limit))
  {
    var items := Filter(WantedBy(q), events);
    assert TextAgrees(EventRow, items) by {
      forall x, y | x in items && y in items
        ensures LexLess(Codes(EventRow(x).text), Codes(EventRow(y).text)) <==> LexLess(EventRow(x).id, EventRow(y).id)
      {
        TextOrder(x.id, y.id);
      }
    }
    ExactlyOnce(EventRow, items, MAX_LIMIT);
  }

  lemma FetchLength(items: seq<Event>, c: Option<PageCursor>, limit: nat)
    ensures var n := |Filter(AfterAll(EventRow, c), items)|;
            |Fetch(EventRow, items, c, limit)| == if n <= limit + 1 then n else limit + 1
  {
    LeqPreorder(EventRow);
    SortSorts(RowLeq(EventRow), Filter(AfterAll(EventRow, c), items));
  }

  /** A limit of zero fetches at most one event for a user, although it means the default for an organization; the
      two answers agree exactly when at most one wanted event lies behind the cursor. */
  lemma ZeroLimit(events: seq<Event>, q: EventQuery, c: Option<PageCursor>)
    ensures var one, all := ListEvents(events, q, c, 0), ListOrgEvents(events, q, c, 0);
            && one.Ok? && |one.value| <= 1
            && (one == all <==> |Filter(AfterAll(EventRow, c), Filter(WantedBy(q), events))| <= 1)
  {
    var items := Filter(WantedBy(q), events);
    FetchLength(items, c, 0);
    FetchLength(items, c, DEFAULT_LIMIT);
  }
}
