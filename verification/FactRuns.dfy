/** Whole runs of the fact store: tombstones, tenant isolation, retention. */
module FactRuns {
  import opened Prelude
  import opened Ordering
  import opened Pagination
  import opened FactSteps
  import FactViews

  datatype Call =
    | Insert(t: Tenant, f: Fact)
    | Update(t: Tenant, f: Fact)
    | Get(t: Tenant, id: Uuid)
    | Search(q: Query)
    | Tombstone(t: Tenant, id: Uuid)
    | Forget(t: Tenant)
    | Retain(t: Tenant, cutoff: int, dryRun: bool)
    | CountUser(t: Tenant)
    | CountOrg(org: string)
    | CountUsers(org: string)
    | ListOrg(org: string, cursor: Option<PageCursor>, limit: nat)
  {
    /** The tenant a call acts for; organization-wide reads act for none. */
    function Caller(): Option<Tenant> {
      match this
      case Search(q) => Some(q.tenant)
      case CountOrg(_) => None
      case CountUsers(_) => None
      case ListOrg(_, _, _) => None
      case _ => Some(t)
    }
  }

  datatype Answer =
    | Written(fact: Result<Fact>)
    | Found(found: Option<Fact>)
    | Listing(facts: seq<Fact>)
    | Done(done: Result<()>)
    | Retained(pruned: Pruned)
    | Counted(n: nat)
    | Users(users: seq<UserSummary>)

  ghost function Step(s: State, c: Call): (State, Answer) {
    match c
    case Insert(t, f) => var (s', r) := InsertFact(s, t, f); (s', Written(r))
    case Update(t, f) => var (s', r) := UpdateFact(s, t, f); (s', Written(r))
    case Get(t, id) => (s, Found(GetFact(s, t, id)))
    case Search(q) => (s, Listing(SearchFacts(s, q)))
    case Tombstone(t, id) => var (s', r) := SoftDelete(s, t, id); (s', Done(r))
    case Forget(t) => (DeleteUserData(s, t), Done(Ok(())))
    case Retain(t, cutoff, dryRun) => var (s', p) := DeleteOlderThan(s, t, cutoff, dryRun); (s', Retained(p))
    case CountUser(t) => (s, Counted(|OfUser(s, t)|))
    case CountOrg(org) => (s, Counted(|OfOrg(s, org)|))
    case CountUsers(org) => (s, Counted(|UsersOf(s, org)|))
    case ListOrg(org, cursor, limit) => (s, Users(ListUsers(s, org, cursor, limit)))
  }

  ghost function After(s: State, calls: seq<Call>): State
    decreases |calls|
  {
    if calls == [] then s else After(Step(s, calls[0]).0, calls[1..])
  }

  // ---------------------------------------------------------------- tombstones

  lemma StepValid(s: State, c: Call)
    requires Valid(s)
    ensures Valid(Step(s, c).0)
  {
  }

  lemma {:induction false} RunValid(s: State, calls: seq<Call>)
    requires Valid(s)
    ensures Valid(After(s, calls))
    decreases |calls|
  {
    if calls != [] {
      StepValid(s, calls[0]);
      RunValid(Step(s, calls[0]).0, calls[1..]);
    }
  }

  /** In every state a run can reach, an accepted insert is visible to its tenant at once. */
  lemma InsertedIsVisible(calls: seq<Call>, t: Tenant, f: Fact)
    ensures var s := After(EMPTY, calls);
            var (s', r) := InsertFact(s, t, f);
            Valid(s) && (r.Ok? ==> GetFact(s', t, f.id) == Some(f) && f in OfUser(s', t))
  {
    RunValid(EMPTY, calls);
    var s := After(EMPTY, calls);
    var (s', r) := InsertFact(s, t, f);
    if r.Ok? {
      assert s'.facts[f.id] == f;
    }
  }

  /** The owner's fact `id` is stored and tombstoned. */
  ghost predicate Buried(s: State, owner: Tenant, id: Uuid) {
    id in s.facts && Matches(s.facts[id], owner) && id in s.deleted
  }

  lemma BuriedStep(s: State, c: Call, owner: Tenant, id: Uuid)
    requires Buried(s, owner, id) && c != Forget(owner)
    ensures Buried(Step(s, c).0, owner, id)
  {
  }

  lemma {:induction false} BuriedStays(s: State, calls: seq<Call>, owner: Tenant, id: Uuid)
    requires Buried(s, owner, id) && Forget(owner) !in calls
    ensures Buried(After(s, calls), owner, id)
    decreases |calls|
  {
    if calls != [] {
      assert calls[0] in calls;
      BuriedStep(s, calls[0], owner, id);
      hide Step;
      BuriedStays(Step(s, calls[0]).0, calls[1..], owner, id);
    }
  }

  /** Once a fact is soft-deleted, no later calls make it visible to anyone, updates included, until its owner
      is forgotten. */
  lemma NeverResurrected(before: seq<Call>, owner: Tenant, id: Uuid, after: seq<Call>, reader: Tenant)
    requires SoftDelete(After(EMPTY, before), owner, id).1.Ok? && Forget(owner) !in after
    ensures var s := After(SoftDelete(After(EMPTY, before), owner, id).0, after);
            GetFact(s, reader, id).None? && forall f: Fact :: f.id == id ==> f !in OfUser(s, reader)
  {
    var s := SoftDelete(After(EMPTY, before), owner, id).0;
    BuriedStays(s, after, owner, id);
  }

  /** Forgetting a tenant frees its ids: a fact inserted again under one of them is accepted and visible. */
  lemma VisibleAfterForget(calls: seq<Call>, t: Tenant, f: Fact)
    requires Matches(f, t) && f.id in After(EMPTY, calls).facts && Matches(After(EMPTY, calls).facts[f.id], t)
    ensures var s := DeleteUserData(After(EMPTY, calls), t);
            var (s', r) := InsertFact(s, t, f);
            OfUser(s, t) == {} && r == Ok(f) && GetFact(s', t, f.id) == Some(f)
  {
    RunValid(EMPTY, calls);
  }

  // ---------------------------------------------------------------- tenant isolation

  ghost predicate Accepts(c: Call) {
    c.Insert? && Matches(c.f, c.t)
  }

  /** No two tenants insert a fact under the same id. */
  ghost predicate OwnIds(calls: seq<Call>) {
    forall i, j :: 0 <= i < |calls| && 0 <= j < |calls| && Accepts(calls[i]) && Accepts(calls[j])
        && calls[i].f.id == calls[j].f.id
      ==> calls[i].t == calls[j].t
  }

  /** What of a state belongs to tenant `b`. */
  function Projected(s: State, b: Tenant): State {
    var facts := map id | id in s.facts && Matches(s.facts[id], b) :: s.facts[id];
    State(facts, s.deleted * facts.Keys)
  }

  ghost function Only(calls: seq<Call>, b: Tenant): seq<Call> {
    if calls == [] then []
    else if calls[0].Caller() == Some(b) then [calls[0]] + Only(calls[1..], b)
    else Only(calls[1..], b)
  }

  /** The answers to the calls of tenant `b`. */
  ghost function AnswersTo(s: State, calls: seq<Call>, b: Tenant): seq<Answer>
    decreases |calls|
  {
    if calls == [] then []
    else
      var (s', a) := Step(s, calls[0]);
      (if calls[0].Caller() == Some(b) then [a] else []) + AnswersTo(s', calls[1..], b)
  }

  /** The same answer, except that a refusal may say "forbidden" where the tenant alone would read "not found". */
  ghost predicate Alike(a: Answer, alone: Answer) {
    || a == alone
    || (a == Written(Err(Forbidden)) && alone == Written(Err(NotFound)))
    || (a == Done(Err(Forbidden)) && alone == Done(Err(NotFound)))
  }

  /** The ids `b` is still going to insert are not taken by anyone else. */
  ghost predicate Clear(s: State, calls: seq<Call>, b: Tenant) {
    forall i :: 0 <= i < |calls| && Accepts(calls[i]) && calls[i].t == b && calls[i].f.id in s.facts
      ==> Matches(s.facts[calls[i].f.id], b)
  }

  lemma OwnWrite(s: State, t: Tenant, f: Fact)
    requires Valid(s)
    ensures var (s', r), (a', ra) := UpdateFact(s, t, f), UpdateFact(Projected(s, t), t, f);
            Projected(s', t) == a' && Alike(Written(r), Written(ra))
    ensures (Matches(f, t) && f.id in s.facts ==> Matches(s.facts[f.id], t)) ==>
              var (s', r), (a', ra) := InsertFact(s, t, f), InsertFact(Projected(s, t), t, f);
              Projected(s', t) == a' && r == ra
  {
    var p := Projected(s, t);
    if Matches(f, t) {
      var facts := s.facts[f.id := f];
      assert f.id !in s.facts || Matches(s.facts[f.id], t)
             ==> Projected(s.(facts := facts), t) == p.(facts := p.facts[f.id := f]);
    }
  }

  lemma OwnTombstone(s: State, t: Tenant, id: Uuid)
    requires Valid(s)
    ensures var (s', r), (a', ra) := SoftDelete(s, t, id), SoftDelete(Projected(s, t), t, id);
            Projected(s', t) == a' && Alike(Done(r), Done(ra))
  {
    var p := Projected(s, t);
    if id in p.facts {
      assert Projected(s.(deleted := s.deleted + {id}), t) == p.(deleted := p.deleted + {id});
    }
  }

  lemma OwnForget(s: State, t: Tenant)
    ensures Projected(DeleteUserData(s, t), t) == DeleteUserData(Projected(s, t), t) == EMPTY
  {
    assert Projected(DeleteUserData(s, t), t).facts == map[];
    assert DeleteUserData(Projected(s, t), t).facts == map[];
  }

  lemma OwnRetain(s: State, t: Tenant, cutoff: int, dryRun: bool)
    requires Valid(s)
    ensures var (s', p) := DeleteOlderThan(s, t, cutoff, dryRun);
            var (a', pa) := DeleteOlderThan(Projected(s, t), t, cutoff, dryRun);
            Projected(s', t) == a' && p == pa
  {
    var p := Projected(s, t);
    var ids := Expired(s, t, cutoff);
    forall id | id in s.facts ensures id in Expired(p, t, cutoff) <==> id in ids {
      assert id in p.facts ==> p.facts[id] == s.facts[id];
    }
    assert Expired(p, t, cutoff) <= p.facts.Keys <= s.facts.Keys && ids <= s.facts.Keys;
    assert Expired(p, t, cutoff) == ids;
    assert Projected(s.(deleted := s.deleted + ids), t) == p.(deleted := p.deleted + ids);
  }

  lemma OwnReads(s: State, t: Tenant, id: Uuid, q: Query)
    requires Valid(s) && q.tenant == t
    ensures GetFact(Projected(s, t), t, id) == GetFact(s, t, id)
    ensures OfUser(Projected(s, t), t) == OfUser(s, t)
    ensures Selected(Projected(s, t), q) == Selected(s, q)
  {
    var p := Projected(s, t);
    forall f | f in OfUser(s, t) ensures f in OfUser(p, t) {
      assert p.facts[f.id] == f;
    }
    forall f | f in OfUser(p, t) ensures f in OfUser(s, t) {
      assert s.facts[f.id] == f;
    }
    forall f | f in Selected(s, q) ensures f in Selected(p, q) {
      assert p.facts[f.id] == f && Passes(p, q, f);
    }
    forall f | f in Selected(p, q) ensures f in Selected(s, q) {
      assert s.facts[f.id] == f && Passes(s, q, f);
    }
  }

  /** A call of the tenant itself is answered alike in its projection, and acts on it as on the whole. */
  lemma OwnStep(s: State, c: Call, b: Tenant)
    requires Valid(s) && c.Caller() == Some(b)
    requires Accepts(c) && c.f.id in s.facts ==> Matches(s.facts[c.f.id], b)
    ensures Alike(Step(s, c).1, Step(Projected(s, b), c).1)
    ensures Projected(Step(s, c).0, b) == Step(Projected(s, b), c).0
  {
    hide InsertFact;
    hide UpdateFact;
    hide SoftDelete;
    hide DeleteUserData;
    hide DeleteOlderThan;
    hide GetFact;
    hide OfUser;
    hide Selected;
    hide Projected;
    match c
    case Insert(t, f) => OwnWrite(s, t, f);
    case Update(t, f) => OwnWrite(s, t, f);
    case Tombstone(t, id) => OwnTombstone(s, t, id);
    case Forget(t) => OwnForget(s, t);
    case Retain(t, cutoff, dryRun) => OwnRetain(s, t, cutoff, dryRun);
    case Get(t, id) => OwnReads(s, t, id, Query(t, None, None, 0, None, false));
    case Search(q) => OwnReads(s, q.tenant, seq(16, _ => 0), q);
    case CountUser(t) => OwnReads(s, t, seq(16, _ => 0), Query(t, None, None, 0, None, false));
  }

  /** `s` and `s'` agree on everything filed under `id` that concerns tenant `b`. */
  ghost predicate SameFor(s: State, s': State, b: Tenant, id: Uuid) {
    var mine := id in s.facts && Matches(s.facts[id], b);
    && (mine <==> id in s'.facts && Matches(s'.facts[id], b))
    && (mine ==> s'.facts[id] == s.facts[id] && (id in s'.deleted <==> id in s.deleted))
  }

  lemma SamePart(s: State, s': State, b: Tenant)
    requires forall id: Uuid :: SameFor(s, s', b, id)
    ensures Projected(s', b) == Projected(s, b)
  {
    var p, p' := Projected(s, b), Projected(s', b);
    assert p.facts.Keys == p'.facts.Keys by {
      forall id: Uuid ensures id in p.facts <==> id in p'.facts {
        assert SameFor(s, s', b, id);
      }
    }
    forall id | id in p.facts ensures p.facts[id] == p'.facts[id] && (id in p.deleted <==> id in p'.deleted) {
      assert SameFor(s, s', b, id);
    }
    assert p.facts == p'.facts;
    assert p.deleted == p'.deleted;
  }

  lemma OtherWrites(s: State, t: Tenant, f: Fact, b: Tenant, id: Uuid)
    requires Valid(s) && t != b
    ensures SameFor(s, InsertFact(s, t, f).0, b, id) && SameFor(s, UpdateFact(s, t, f).0, b, id)
  {
  }

  lemma OtherRemoves(s: State, t: Tenant, id: Uuid, b: Tenant, x: Uuid)
    requires Valid(s) && t != b
    ensures SameFor(s, SoftDelete(s, t, id).0, b, x) && SameFor(s, DeleteUserData(s, t), b, x)
  {
  }

  lemma OtherRetains(s: State, t: Tenant, cutoff: int, dryRun: bool, b: Tenant, id: Uuid)
    requires Valid(s) && t != b
    ensures SameFor(s, DeleteOlderThan(s, t, cutoff, dryRun).0, b, id)
  {
    ExpiredIff(s, t, cutoff, id);
    hide Expired;
  }

  lemma OtherSame(s: State, c: Call, b: Tenant, id: Uuid)
    requires Valid(s) && c.Caller() != Some(b)
    ensures SameFor(s, Step(s, c).0, b, id)
  {
    assert SameFor(s, s, b, id);
    hide SameFor;
    hide Valid;
    hide InsertFact;
    hide UpdateFact;
    hide SoftDelete;
    hide DeleteUserData;
    hide DeleteOlderThan;
    match c
    case Insert(t, f) => OtherWrites(s, t, f, b, id);
    case Update(t, f) => OtherWrites(s, t, f, b, id);
    case Tombstone(t, x) => OtherRemoves(s, t, x, b, id);
    case Forget(t) => OtherRemoves(s, t, id, b, id);
    case Retain(t, cutoff, dryRun) => OtherRetains(s, t, cutoff, dryRun, b, id);
    case _ =>
  }

  /** A call of anyone else leaves the tenant's part alone. */
  lemma OtherStep(s: State, c: Call, b: Tenant)
    requires Valid(s) && c.Caller() != Some(b)
    ensures Projected(Step(s, c).0, b) == Projected(s, b)
  {
    hide Step;
    hide Projected;
    hide SameFor;
    var s' := Step(s, c).0;
    forall id: Uuid ensures SameFor(s, s', b, id) {
      OtherSame(s, c, b, id);
    }
    SamePart(s, s', b);
  }

  lemma StaysClear(s: State, calls: seq<Call>, b: Tenant)
    requires calls != [] && OwnIds(calls) && Clear(s, calls, b)
    ensures OwnIds(calls[1..]) && Clear(Step(s, calls[0]).0, calls[1..], b)
  {
    assert forall i :: 0 <= i < |calls[1..]| ==> calls[1..][i] == calls[i + 1];
  }

  ghost predicate AllAlike(whole: seq<Answer>, alone: seq<Answer>) {
    |whole| == |alone| && forall i :: 0 <= i < |whole| ==> Alike(whole[i], alone[i])
  }

  lemma AnswersUnfold(s: State, calls: seq<Call>, b: Tenant)
    requires calls != []
    ensures var (s', a) := Step(s, calls[0]);
            var rest := AnswersTo(s', calls[1..], b);
            AnswersTo(s, calls, b) == if calls[0].Caller() == Some(b) then [a] + rest else rest
  {
    hide Step;
    var rest := AnswersTo(Step(s, calls[0]).0, calls[1..], b);
    assert [] + rest == rest;
  }

  /** Whenever `b` inserts a fact, an id already in the store is its own. */
  ghost predicate Undisturbed(s: State, calls: seq<Call>, b: Tenant)
    decreases |calls|
  {
    calls == [] || (!Blocked(s, calls[0], b) && Undisturbed(Step(s, calls[0]).0, calls[1..], b))
  }

  /** Someone else holds the id that `b` inserts. */
  ghost predicate Blocked(s: State, c: Call, b: Tenant) {
    Accepts(c) && c.t == b && c.f.id in s.facts && !Matches(s.facts[c.f.id], b)
  }

  lemma BlockedTells(s: State, c: Call, b: Tenant)
    requires Blocked(s, c, b)
    ensures c.Caller() == Some(b) && !Alike(Step(s, c).1, Step(Projected(s, b), c).1)
  {
    assert c.f.id !in Projected(s, b).facts;
  }

  lemma AlikeConsIff(a: Answer, b: Answer, whole: seq<Answer>, alone: seq<Answer>)
    ensures AllAlike([a] + whole, [b] + alone) <==> Alike(a, b) && AllAlike(whole, alone)
  {
    var x, y := [a] + whole, [b] + alone;
    assert x[0] == a && y[0] == b && |x| == 1 + |whole| && |y| == 1 + |alone|;
    if AllAlike(x, y) {
      forall i | 0 <= i < |whole| ensures Alike(whole[i], alone[i]) {
        assert x[i + 1] == whole[i] && y[i + 1] == alone[i];
      }
    }
  }

  /** One call of the tenant, seen in the whole run and alone. */
  lemma OwnAnswers(s: State, calls: seq<Call>, b: Tenant)
    requires calls != [] && calls[0].Caller() == Some(b)
    ensures var (c, p, mine) := (calls[0], Projected(s, b), Only(calls, b));
            AllAlike(AnswersTo(s, calls, b), AnswersTo(p, mine, b))
            <==> Alike(Step(s, c).1, Step(p, c).1)
                 && AllAlike(AnswersTo(Step(s, c).0, calls[1..], b), AnswersTo(Step(p, c).0, Only(calls[1..], b), b))
    ensures After(Projected(s, b), Only(calls, b)) == After(Step(Projected(s, b), calls[0]).0, Only(calls[1..], b))
  {
    var c, p, mine := calls[0], Projected(s, b), Only(calls, b);
    assert mine[0] == c && mine[1..] == Only(calls[1..], b);
    hide Step;
    hide Projected;
    hide Only;
    hide Alike;
    AnswersUnfold(s, calls, b);
    AnswersUnfold(p, mine, b);
    hide AnswersTo;
    hide AllAlike;
    AlikeConsIff(Step(s, c).1, Step(p, c).1, AnswersTo(Step(s, c).0, calls[1..], b),
                 AnswersTo(Step(p, c).0, mine[1..], b));
  }

  /** From any valid state: the answers a tenant gets are those of the run with everyone else's calls removed
      exactly when no insert of its own meets an id held by someone else; and then so is its part of the state. */
  lemma {:induction false} IsolatedIff(s: State, calls: seq<Call>, b: Tenant)
    requires Valid(s)
    ensures AllAlike(AnswersTo(s, calls, b), AnswersTo(Projected(s, b), Only(calls, b), b))
            <==> Undisturbed(s, calls, b)
    ensures Undisturbed(s, calls, b) ==> Projected(After(s, calls), b) == After(Projected(s, b), Only(calls, b))
    decreases |calls|
  {
    if calls != [] {
      var c := calls[0];
      StepValid(s, c);
      if Blocked(s, c, b) {
        BlockedTells(s, c, b);
        OwnAnswers(s, calls, b);
      } else if c.Caller() == Some(b) {
        assert Accepts(c) && c.f.id in s.facts ==> Matches(s.facts[c.f.id], b);
        hide Step;
        hide Projected;
        hide Valid;
        hide AnswersTo;
        hide AllAlike;
        OwnStep(s, c, b);
        OwnAnswers(s, calls, b);
        IsolatedIff(Step(s, c).0, calls[1..], b);
      } else {
        hide Step;
        hide Projected;
        hide Valid;
        hide AllAlike;
        OtherStep(s, c, b);
        AnswersUnfold(s, calls, b);
        hide AnswersTo;
        IsolatedIff(Step(s, c).0, calls[1..], b);
      }
    }
  }

  lemma {:induction false} OwnIdsUndisturbed(s: State, calls: seq<Call>, b: Tenant)
    requires OwnIds(calls) && Clear(s, calls, b)
    ensures Undisturbed(s, calls, b)
    decreases |calls|
  {
    if calls != [] {
      StaysClear(s, calls, b);
      assert !Blocked(s, calls[0], b);
      hide Step;
      hide Clear;
      hide OwnIds;
      OwnIdsUndisturbed(Step(s, calls[0]).0, calls[1..], b);
    }
  }

  /** In any run in which no two tenants insert the same id, what a tenant sees and what its calls are answered
      are those of the run with everyone else's calls removed. */
  lemma TenantIsolation(calls: seq<Call>, b: Tenant)
    requires OwnIds(calls)
    ensures Projected(After(EMPTY, calls), b) == After(EMPTY, Only(calls, b))
    ensures AllAlike(AnswersTo(EMPTY, calls, b), AnswersTo(EMPTY, Only(calls, b), b))
  {
    assert Projected(EMPTY, b) == EMPTY;
    OwnIdsUndisturbed(EMPTY, calls, b);
    IsolatedIff(EMPTY, calls, b);
  }

  /** The call reaches for a fact that is stored for someone else. */
  ghost predicate ReachesOut(s: State, c: Call, b: Tenant) {
    || (c.Update? && Matches(c.f, b) && c.f.id in s.facts && !Matches(s.facts[c.f.id], b))
    || (c.Tombstone? && c.id in s.facts && !Matches(s.facts[c.id], b))
  }

  /** The two answers differ exactly when the call reaches for someone else's fact. */
  lemma RefusalsDiffer(s: State, c: Call, b: Tenant)
    requires Valid(s) && c.Caller() == Some(b)
    requires Accepts(c) && c.f.id in s.facts ==> Matches(s.facts[c.f.id], b)
    ensures Step(s, c).1 == Step(Projected(s, b), c).1 <==> !ReachesOut(s, c, b)
  {
    if c.Update? || c.Tombstone? {
    } else {
      hide Step;
      OwnStep(s, c, b);
      StepShape(s, c, Projected(s, b));
    }
  }

  lemma StepShape(s: State, c: Call, s': State)
    requires !c.Update? && !c.Tombstone?
    ensures Step(s, c).1 != Done(Err(Forbidden))
    ensures Step(s, c).1 == Written(Err(Forbidden)) ==> Step(s', c).1 == Step(s, c).1
  {
  }

  /** Without own ids a tenant does notice another: its insert is refused although it would be accepted alone. */
  lemma SharedIdInterferes(a: Tenant, f: Fact, b: Tenant, g: Fact)
    requires a != b && Matches(f, a) && Matches(g, b) && f.id == g.id
    ensures var calls := [Insert(a, f), Insert(b, g)];
            AnswersTo(EMPTY, calls, b) == [Written(Err(Conflict))]
                && AnswersTo(EMPTY, Only(calls, b), b) == [Written(Ok(g))]
  {
    var calls := [Insert(a, f), Insert(b, g)];
    assert calls[1..] == [Insert(b, g)] && [Insert(b, g)][1..] == [];
    assert Only([Insert(b, g)], b) == [Insert(b, g)];
    assert Only(calls, b) == [Insert(b, g)];
    AnswersUnfold(EMPTY, calls, b);
    AnswersUnfold(InsertFact(EMPTY, a, f).0, [Insert(b, g)], b);
    AnswersUnfold(EMPTY, [Insert(b, g)], b);
  }

  // ---------------------------------------------------------------- retention

  function Max(a: int, b: int): int { if a < b then b else a }

  /** A dry run changes nothing and counts exactly what an immediate run removes; that run hides precisely the
      tenant's older facts, and a second one finds nothing. */
  lemma DryRunForetells(s: State, t: Tenant, cutoff: int)
    requires Valid(s)
    ensures var (dry, foretold), (s', p) := DeleteOlderThan(s, t, cutoff, true), DeleteOlderThan(s, t, cutoff, false);
            && dry == s && foretold.count == p.count == |OfUser(s, t)| - |OfUser(s', t)|
            && OfUser(s', t) == (set f | f in OfUser(s, t) && f.updatedAt >= cutoff)
            && DeleteOlderThan(s', t, cutoff, false) == (s', Pruned(0, {}))
  {
    var (s', p) := DeleteOlderThan(s, t, cutoff, false);
    RetainedFacts(s, t, cutoff);
    ExpiredCount(s, t, cutoff);
    assert Expired(s', t, cutoff) == {};
    assert s'.deleted + {} == s'.deleted;
  }

  lemma RetainedFacts(s: State, t: Tenant, cutoff: int)
    requires Valid(s)
    ensures var s' := DeleteOlderThan(s, t, cutoff, false).0;
            OfUser(s', t) == (set f | f in OfUser(s, t) && f.updatedAt >= cutoff)
  {
    var s' := DeleteOlderThan(s, t, cutoff, false).0;
    forall f | f in OfUser(s, t) && f.updatedAt >= cutoff ensures f in OfUser(s', t) {
      assert s'.facts[f.id] == f;
      assert f.id !in Expired(s, t, cutoff);
    }
    forall f | f in OfUser(s', t) ensures f in OfUser(s, t) && f.updatedAt >= cutoff {
      assert s.facts[f.id] == f;
      assert f.id !in Expired(s, t, cutoff);
    }
  }

  lemma ExpiredCount(s: State, t: Tenant, cutoff: int)
    requires Valid(s)
    ensures |Expired(s, t, cutoff)| == |set f | f in OfUser(s, t) && f.updatedAt < cutoff|
    ensures |OfUser(s, t)|
         == |set f | f in OfUser(s, t) && f.updatedAt < cutoff| + |set f | f in OfUser(s, t) && f.updatedAt >= cutoff|
  {
    var older := set f | f in OfUser(s, t) && f.updatedAt < cutoff;
    var newer := set f | f in OfUser(s, t) && f.updatedAt >= cutoff;
    assert OfUser(s, t) == older + newer && older !! newer;
    FactViews.IdsOf(older);
    ExpiredIds(s, t, cutoff);
    assert (set f | f in older :: f.id) == set f | f in OfUser(s, t) && f.updatedAt < cutoff :: f.id;
  }

  lemma ExpiredIds(s: State, t: Tenant, cutoff: int)
    requires Valid(s)
    ensures Expired(s, t, cutoff) == set f | f in OfUser(s, t) && f.updatedAt < cutoff :: f.id
  {
    var ids := set f | f in OfUser(s, t) && f.updatedAt < cutoff :: f.id;
    forall id | id in Expired(s, t, cutoff) ensures id in ids {
      ExpiredIff(s, t, cutoff, id);
      assert s.facts[id] in OfUser(s, t);
    }
    forall id | id in ids ensures id in Expired(s, t, cutoff) {
      ExpiredIff(s, t, cutoff, id);
    }
  }

  lemma ExpiredTwice(s: State, t: Tenant, c1: int, c2: int, s1: State)
    requires Valid(s) && s1 == s.(deleted := s.deleted + Expired(s, t, c1))
    ensures Expired(s, t, Max(c1, c2)) == Expired(s, t, c1) + Expired(s1, t, c2)
    ensures Expired(s, t, c1) !! Expired(s1, t, c2)
  {
    assert Valid(s1);
    var first, second, all := Expired(s, t, c1), Expired(s1, t, c2), Expired(s, t, Max(c1, c2));
    forall id: Uuid ensures (id in all <==> id in first || id in second) && !(id in first && id in second) {
      hide Expired;
      ExpiredIff(s, t, c1, id);
      ExpiredIff(s1, t, c2, id);
      ExpiredIff(s, t, Max(c1, c2), id);
    }
  }

  /** Two runs leave the state one run at the later cutoff leaves, and their counts add up to its count. */
  lemma RetentionComposes(s: State, t: Tenant, c1: int, c2: int)
    requires Valid(s)
    ensures var (s1, p1) := DeleteOlderThan(s, t, c1, false);
            var (s2, p2) := DeleteOlderThan(s1, t, c2, false);
            var (sm, pm) := DeleteOlderThan(s, t, Max(c1, c2), false);
            s2 == sm && p1.count + p2.count == pm.count && p1.ids + p2.ids == pm.ids
  {
    hide Expired;
    hide Valid;
    var s1 := DeleteOlderThan(s, t, c1, false).0;
    ExpiredTwice(s, t, c1, c2, s1);
    var first, second := Expired(s, t, c1), Expired(s1, t, c2);
    assert s.deleted + (first + second) == s.deleted + first + second;
  }

  /** A retention run of one tenant leaves every other tenant's part of the store as it was. */
  lemma RetentionIsLocal(s: State, t: Tenant, cutoff: int, dryRun: bool, b: Tenant)
    requires Valid(s) && b != t
    ensures Projected(DeleteOlderThan(s, t, cutoff, dryRun).0, b) == Projected(s, b)
  {
    OtherStep(s, Retain(t, cutoff, dryRun), b);
  }
}
