/** Embedding-based duplicate detection over the in-memory vector store. */
module Deduplication {
  import opened Prelude
  import opened Ordering
  import opened Similarity
  import opened FactSteps

  datatype Metadata = NotObject | Object(fields: map<string, string>)

  datatype VectorRecord = VectorRecord(
    id: Uuid,
    factId: Uuid,
    org: string,
    user: string,
    embedding: seq<real>,
    memoryType: MemoryType,
    metadata: Metadata)

  datatype VectorQuery = VectorQuery(
    tenant: Tenant,
    embedding: seq<real>,
    limit: nat,
    memoryTypes: Option<seq<MemoryType>>,
    metadataFilter: Option<Metadata>)

  datatype Hit = Hit(factId: Uuid, score: real)

  predicate MetadataMatches(record: Metadata, filter: Metadata) {
    && filter.Object? && record.Object?
    && forall k :: k in filter.fields ==> k in record.fields && record.fields[k] == filter.fields[k]
  }

  predicate Wanted(q: VectorQuery, r: VectorRecord) {
    && r.org == q.tenant.org && r.user == q.tenant.user
    && (q.memoryTypes.None? || r.memoryType in q.memoryTypes.value)
    && (q.metadataFilter.None? || MetadataMatches(r.metadata, q.metadataFilter.value))
  }

  function Score(sqrt: real -> real, q: VectorQuery, r: VectorRecord): real {
    Cosine(sqrt, q.embedding, r.embedding)
  }

  function HitFor(sqrt: real -> real, q: VectorQuery, r: VectorRecord): Hit {
    Hit(r.factId, Score(sqrt, q, r))
  }

  predicate ScoreLeq(a: Hit, b: Hit) { b.score <= a.score }

  function HitsFor(sqrt: real -> real, q: VectorQuery, records: seq<VectorRecord>): seq<Hit> {
    if records == [] then []
    else if Wanted(q, records[0]) then [HitFor(sqrt, q, records[0])] + HitsFor(sqrt, q, records[1..])
    else HitsFor(sqrt, q, records[1..])
  }

  /** The best `limit` hits, best first, from the records in whatever order the map yields them. */
  function SearchVectors(sqrt: real -> real, q: VectorQuery, records: seq<VectorRecord>): seq<Hit> {
    var scored := Sort(ScoreLeq, HitsFor(sqrt, q, records));
    if |scored| <= q.limit then scored else scored[..q.limit]
  }

  datatype DedupConfig = DedupConfig(enabled: bool, threshold: real, searchLimit: nat)

  function FirstAbove(hits: seq<Hit>, threshold: real): Option<Hit> {
    if hits == [] then None
    else if hits[0].score >= threshold then Some(hits[0])
    else FirstAbove(hits[1..], threshold)
  }

  /** The duplicate reported for a new embedding, if any. */
  function DetectDuplicate(sqrt: real -> real, records: seq<VectorRecord>, t: Tenant, memoryType: MemoryType,
                           embedding: seq<real>, cfg: DedupConfig): Option<Uuid>
  {
    if !cfg.enabled then None
    else
      var q := VectorQuery(t, embedding, cfg.searchLimit, Some([memoryType]), None);
      var first := FirstAbove(SearchVectors(sqrt, q, records), cfg.threshold);
      if first.None? then None else Some(first.value.factId)
  }

  // ---------------------------------------------------------------- agreement with a plain scan

  lemma ScorePreorder()
    ensures Preorder(ScoreLeq)
  {
  }

  lemma {:induction false} HitsAre(sqrt: real -> real, q: VectorQuery, records: seq<VectorRecord>)
    ensures forall h :: h in HitsFor(sqrt, q, records)
              <==> exists r :: r in records && Wanted(q, r) && h == HitFor(sqrt, q, r)
  {
    if records != [] {
      HitsAre(sqrt, q, records[1..]);
      assert records == [records[0]] + records[1..];
      forall h
        ensures h in HitsFor(sqrt, q, records) <==> exists r :: r in records && Wanted(q, r) && h == HitFor(sqrt, q, r)
      {
        if r :| r in records && Wanted(q, r) && h == HitFor(sqrt, q, r) {
          assert r == records[0] || r in records[1..];
        }
        if h in HitsFor(sqrt, q, records[1..]) {
          var r :| r in records[1..] && Wanted(q, r) && h == HitFor(sqrt, q, r);
          assert r in records;
        }
      }
    }
  }

  lemma FirstOfSorted(hits: seq<Hit>, threshold: real)
    requires Sorted(ScoreLeq, hits)
    ensures FirstAbove(hits, threshold)
         == if hits != [] && hits[0].score >= threshold then Some(hits[0]) else None
  {
    if hits != [] && hits[0].score < threshold {
      NoneAbove(hits, threshold);
    }
  }

  lemma {:induction false} NoneAbove(hits: seq<Hit>, threshold: real)
    requires forall i :: 0 <= i < |hits| ==> hits[i].score < threshold
    ensures FirstAbove(hits, threshold).None?
  {
    if hits != [] {
      NoneAbove(hits[1..], threshold);
    }
  }

  /** A record of the tenant and memory type. */
  predicate Candidate(r: VectorRecord, t: Tenant, memoryType: MemoryType) {
    r.org == t.org && r.user == t.user && r.memoryType == memoryType
  }

  /** `r` is a best-scoring candidate that reaches the threshold. */
  ghost predicate BestDuplicate(sqrt: real -> real, records: seq<VectorRecord>, t: Tenant, memoryType: MemoryType,
                                embedding: seq<real>, threshold: real, r: VectorRecord)
  {
    && r in records && Candidate(r, t, memoryType)
    && Cosine(sqrt, embedding, r.embedding) >= threshold
    && forall o :: o in records && Candidate(o, t, memoryType) ==>
         Cosine(sqrt, embedding, o.embedding) <= Cosine(sqrt, embedding, r.embedding)
  }

  lemma WantedIsCandidate(t: Tenant, memoryType: MemoryType, embedding: seq<real>, limit: nat, r: VectorRecord)
    ensures Wanted(VectorQuery(t, embedding, limit, Some([memoryType]), None), r) <==> Candidate(r, t, memoryType)
  {
  }

  /** The best hit of a search is that of a wanted record no other wanted record beats. */
  lemma BestHit(sqrt: real -> real, q: VectorQuery, records: seq<VectorRecord>)
    requires q.limit >= 1
    ensures var found := SearchVectors(sqrt, q, records);
            && Sorted(ScoreLeq, found)
            && (found != [] ==> exists r :: r in records && Wanted(q, r) && found[0] == HitFor(sqrt, q, r))
            && (forall r :: r in records && Wanted(q, r) ==> found != [] && Score(sqrt, q, r) <= found[0].score)
  {
    hide Cosine;
    hide Wanted;
    var hits := HitsFor(sqrt, q, records);
    var sorted := Sort(ScoreLeq, hits);
    HitsAre(sqrt, q, records);
    ScorePreorder();
    SortSorts(ScoreLeq, hits);
    hide HitsFor;
    hide Sort;
    forall r | r in records && Wanted(q, r) ensures sorted != [] && Score(sqrt, q, r) <= sorted[0].score {
      var h := HitFor(sqrt, q, r);
      assert h in hits;
      assert h in multiset(sorted);
      var i :| 0 <= i < |sorted| && sorted[i] == h;
    }
    if sorted != [] {
      assert sorted[0] in multiset(sorted);
      assert sorted[0] in hits;
    }
  }

  /** Looking at the best few loses no duplicate: one is reported exactly when some record of the tenant and
      memory type reaches the threshold, and the reported fact is that of a record with the highest score. */
  lemma TopKLosesNothing(sqrt: real -> real, records: seq<VectorRecord>, t: Tenant, memoryType: MemoryType,
                         embedding: seq<real>, cfg: DedupConfig)
    requires cfg.enabled && cfg.searchLimit >= 1
    ensures var d := DetectDuplicate(sqrt, records, t, memoryType, embedding, cfg);
            && (d.Some? <==>
                exists r :: r in records && Candidate(r, t, memoryType)
                            && Cosine(sqrt, embedding, r.embedding) >= cfg.threshold)
            && (d.Some? ==>
                exists r :: BestDuplicate(sqrt, records, t, memoryType, embedding, cfg.threshold, r)
                            && r.factId == d.value)
  {
    hide Cosine;
    hide SearchVectors;
    var q := VectorQuery(t, embedding, cfg.searchLimit, Some([memoryType]), None);
    var found := SearchVectors(sqrt, q, records);
    BestHit(sqrt, q, records);
    FirstOfSorted(found, cfg.threshold);
    forall r ensures Wanted(q, r) <==> Candidate(r, t, memoryType) {
      WantedIsCandidate(t, memoryType, embedding, cfg.searchLimit, r);
    }
    hide Wanted;
    hide Candidate;
    if found != [] && found[0].score >= cfg.threshold {
      var r :| r in records && Wanted(q, r) && found[0] == HitFor(sqrt, q, r);
      assert BestDuplicate(sqrt, records, t, memoryType, embedding, cfg.threshold, r);
    }
  }

  /** A record the query asks for. */
  ghost predicate AskedFor(q: VectorQuery, r: VectorRecord) {
    && r.org == q.tenant.org && r.user == q.tenant.user
    && (q.memoryTypes.Some? ==> r.memoryType in q.memoryTypes.value)
    && (q.metadataFilter.Some? ==>
          && q.metadataFilter.value.Object? && r.metadata.Object?
          && forall k :: k in q.metadataFilter.value.fields ==>
               k in r.metadata.fields && r.metadata.fields[k] == q.metadataFilter.value.fields[k])
  }

  /** With room for all, a search answers exactly the hits of the records asked for; with less, the best of them. */
  lemma SearchShows(sqrt: real -> real, q: VectorQuery, records: seq<VectorRecord>, h: Hit)
    ensures var found := SearchVectors(sqrt, q, records);
            && |found| <= q.limit
            && (h in found ==> exists r :: r in records && AskedFor(q, r)
                                           && h == Hit(r.factId, Cosine(sqrt, q.embedding, r.embedding)))
            && (|records| <= q.limit ==>
                  (h in found <==> exists r :: r in records && AskedFor(q, r)
                                               && h == Hit(r.factId, Cosine(sqrt, q.embedding, r.embedding))))
  {
    hide Cosine;
    var hits := HitsFor(sqrt, q, records);
    var sorted := Sort(ScoreLeq, hits);
    HitsAre(sqrt, q, records);
    HitsSize(sqrt, q, records);
    ScorePreorder();
    SortSorts(ScoreLeq, hits);
    forall r ensures Wanted(q, r) <==> AskedFor(q, r) {
    }
    hide Sort;
    hide HitsFor;
    hide Wanted;
    hide AskedFor;
    assert h in sorted <==> h in multiset(sorted);
    assert h in hits <==> h in multiset(hits);
    forall r ensures HitFor(sqrt, q, r) == Hit(r.factId, Cosine(sqrt, q.embedding, r.embedding)) {
    }
  }

  lemma {:induction false} HitsSize(sqrt: real -> real, q: VectorQuery, records: seq<VectorRecord>)
    ensures |HitsFor(sqrt, q, records)| <= |records|
  {
    if records != [] {
      HitsSize(sqrt, q, records[1..]);
    }
  }

  /** Switched off, detection reports nothing. */
  lemma DisabledReportsNothing(sqrt: real -> real, records: seq<VectorRecord>, t: Tenant, memoryType: MemoryType,
                               embedding: seq<real>, cfg: DedupConfig)
    ensures DetectDuplicate(sqrt, records, t, memoryType, embedding, cfg).Some? ==> cfg.enabled
  {
    hide SearchVectors;
  }
}
