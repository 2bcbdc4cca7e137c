/** What the event listings show and what retention keeps, in the events' own terms. */
module EventSearch {
  import opened Prelude
  import opened Ordering
  import opened Pagination
  import opened FactSteps
  import opened EventStore
  import opened FactSearch

  ghost predicate Says(o: Option<string>, text: string) {
    o.Some? && Mentions(o.value, text)
  }

  /** What a query asks of an event. */
  ghost predicate Asked(q: EventQuery, e: Event) {
    && e.org == q.org
    && (q.user.Some? ==> e.user == q.user.value)
    && (q.factId.Some? ==> e.factId == Some(q.factId.value))
    && (q.operation.Some? ==> e.operation == q.operation.value)
    && (q.createdAfter.Some? ==> q.createdAfter.value <= e.createdAt)
    && (q.createdBefore.Some? ==> e.createdAt < q.createdBefore.value)
    && (q.queryText.Some? ==>
          var text := q.queryText.value;
          || Says(e.previousContent, text) || Says(e.newContent, text)
          || Says(e.providerName, text) || Says(e.modelName, text)
          || (q.keywordInUser && Mentions(e.user, text)))
  }

  lemma SaysIs(o: Option<string>, text: string)
    ensures HasText(o, text) <==> Says(o, text)
  {
    if o.Some? {
      ContainsIs(o.value, text);
    }
  }

  lemma AskedIs(q: EventQuery, e: Event)
    ensures Wanted(q, e) <==> Asked(q, e)
  {
    if q.queryText.Some? {
      var text := q.queryText.value;
      SaysIs(e.previousContent, text);
      SaysIs(e.newContent, text);
      SaysIs(e.providerName, text);
      SaysIs(e.modelName, text);
      ContainsIs(e.user, text);
    }
    hide HasText;
    hide Says;
    hide Contains;
    hide Mentions;
  }

  lemma FetchAll(items: seq<Event>, c: Option<PageCursor>, limit: nat, e: Event)
    requires |items| <= limit
    ensures e in Fetch(EventRow, items, c, limit) <==> e in items && AfterAll(EventRow, c)(e)
  {
    var kept := Filter(AfterAll(EventRow, c), items);
    FilterMembers(AfterAll(EventRow, c), items);
    LeqPreorder(EventRow);
    SortSorts(RowLeq(EventRow), kept);
    assert e in Sort(RowLeq(EventRow), kept) <==> e in multiset(Sort(RowLeq(EventRow), kept));
    assert e in kept <==> e in multiset(kept);
    hide Sort;
    hide Filter;
  }

  /** Both listings show only recorded events the query asks for; with room for all, they show all of those. */
  lemma ListingShows(events: seq<Event>, q: EventQuery, limit: nat, e: Event)
    requires 1 <= limit <= 200
    ensures var one, all := ListEvents(events, q, None, limit), ListOrgEvents(events, q, None, limit);
            && one.Ok? && all == one
            && (e in one.value ==> e in events && Asked(q, e))
            && (|events| <= limit ==> (e in one.value <==> e in events && Asked(q, e)))
  {
    AskedIs(q, e);
    var items := Filter(WantedBy(q), events);
    FilterMembers(WantedBy(q), events);
    assert WantedBy(q)(e) == Wanted(q, e);
    hide Wanted;
    hide Asked;
    hide Filter;
    hide Fetch;
    if e in Fetch(EventRow, items, None, limit) {
      FetchMembers(EventRow, items, None, limit, e);
    }
    if |events| <= limit {
      FetchAll(items, None, limit, e);
    }
  }

  /** A page behind a cursor shows only events that are older, or as old with a smaller id text. */
  lemma PageShows(events: seq<Event>, q: EventQuery, c: PageCursor, limit: nat, e: Event)
    requires 1 <= limit <= 200 && e in ListEvents(events, q, Some(c), limit).value
    ensures e in events && Asked(q, e)
    ensures || e.createdAt < c.lastSortValue
            || (e.createdAt == c.lastSortValue && LexLess(Codes(Text(e.id)), Codes(c.lastId)))
  {
    AskedIs(q, e);
    hide Asked;
    hide Filter;
    hide Fetch;
    FilterMembers(WantedBy(q), events);
    FetchMembers(EventRow, Filter(WantedBy(q), events), Some(c), limit, e);
    assert WantedBy(q)(e) == Wanted(q, e);
    hide Wanted;
    assert AfterAll(EventRow, Some(c))(e) == IsAfterCursor(EventRow(e), c);
  }

  /** A retention run removes exactly the tenant's events from before the cutoff and reports their number. */
  lemma PruneKeeps(events: seq<Event>, t: Tenant, cutoff: int, e: Event)
    ensures var (kept, n) := Prune(events, t, cutoff, false);
            && n == |events| - |kept|
            && (e in kept <==> e in events && !(e.org == t.org && e.user == t.user && e.createdAt < cutoff))
  {
    FilterMembers(KeptBy(t, cutoff), events);
    assert KeptBy(t, cutoff)(e) == !Stale(e, t, cutoff);
    hide Filter;
  }

  /** Any two items of a page stand in the order of the listing. */
  lemma FetchSorted<T(!new)>(row: T -> Row, items: seq<T>, c: Option<PageCursor>, limit: nat, i: nat, j: nat)
    requires i < j < |Fetch(row, items, c, limit)|
    ensures var l := Fetch(row, items, c, limit); Leq(row(l[i]), row(l[j]))
  {
    var kept := Filter(AfterAll(row, c), items);
    LeqPreorder(row);
    SortSorts(RowLeq(row), kept);
    hide Sort;
    hide Filter;
    hide Leq;
    hide Preorder;
    var l, sorted := Fetch(row, items, c, limit), Sort(RowLeq(row), kept);
    assert l[i] == sorted[i] && l[j] == sorted[j];
    assert RowLeq(row)(sorted[i], sorted[j]);
  }

  /** A page lists newer events first, and by descending id text among equals. */
  lemma EventsNewestFirst(events: seq<Event>, q: EventQuery, c: Option<PageCursor>, limit: nat, i: nat, j: nat)
    requires limit <= 200 && i < j < |ListEvents(events, q, c, limit).value|
    ensures var l := ListEvents(events, q, c, limit).value;
            || l[j].createdAt < l[i].createdAt
            || (l[j].createdAt == l[i].createdAt && !LexLess(Codes(Text(l[i].id)), Codes(Text(l[j].id))))
  {
    hide Fetch;
    hide Filter;
    hide Text;
    hide Codes;
    hide LexLess;
    var l := ListEvents(events, q, c, limit).value;
    FetchSorted(EventRow, Filter(WantedBy(q), events), c, limit, i, j);
    TextOrder(l[i].id, l[j].id);
  }

  /** More than two hundred rows are refused; an organization listing without a limit is one of fifty. */
  lemma Limits(events: seq<Event>, q: EventQuery, c: Option<PageCursor>, limit: nat)
    ensures ListEvents(events, q, c, limit).Ok? <==> limit <= 200
    ensures ListOrgEvents(events, q, c, limit).Ok? <==> limit <= 200
    ensures limit > 200 ==> ListEvents(events, q, c, limit) == ListOrgEvents(events, q, c, limit) == Err(Validation)
    ensures ListOrgEvents(events, q, c, 0) == ListOrgEvents(events, q, c, 50)
  {
    hide Fetch;
    hide Filter;
  }
}
