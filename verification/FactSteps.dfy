/** What each call of the in-memory fact store does to its state, a map of facts and a separate set of
    tombstones.  Every call is one atomic step. */
module FactSteps {
  import opened Prelude
  import opened Ordering
  import opened Pagination

  datatype Tenant = Tenant(org: string, user: string)

  datatype MemoryType = Profile | Preference | Project | Conversation | Task | Entity | Skill | System

  /** A fact, with the fields the store looks at. */
  datatype Fact = Fact(
    id: Uuid,
    org: string,
    user: string,
    memoryType: MemoryType,
    content: string,
    summary: Option<string>,
    updatedAt: int)

  datatype State = State(facts: map<Uuid, Fact>, deleted: set<Uuid>)

  const EMPTY := State(map[], {})

  datatype Query = Query(
    tenant: Tenant,
    memoryTypes: Option<seq<MemoryType>>,
    queryText: Option<string>,
    limit: nat,
    cursor: Option<PageCursor>,
    includeDeleted: bool)

  /** Result of a retention run: how many facts matched, and the ids tombstoned (none on a dry run). */
  datatype Pruned = Pruned(count: nat, ids: set<Uuid>)

  datatype UserSummary = UserSummary(user: string, count: nat, last: Option<int>)

  predicate Matches(f: Fact, t: Tenant) {
    f.org == t.org && f.user == t.user
  }

  // ---------------------------------------------------------------- the steps

  function InsertFact(s: State, t: Tenant, f: Fact): (State, Result<Fact>) {
    if !Matches(f, t) then (s, Err(Forbidden))
    else if f.id in s.facts then (s, Err(Conflict))
    else (s.(facts := s.facts[f.id := f]), Ok(f))
  }

  function UpdateFact(s: State, t: Tenant, f: Fact): (State, Result<Fact>) {
    if !Matches(f, t) then (s, Err(Forbidden))
    else if f.id !in s.facts then (s, Err(NotFound))
    else if !Matches(s.facts[f.id], t) then (s, Err(Forbidden))
    else (s.(facts := s.facts[f.id := f]), Ok(f))
  }

  function GetFact(s: State, t: Tenant, id: Uuid): Option<Fact> {
    if id !in s.facts || !Matches(s.facts[id], t) || id in s.deleted then None else Some(s.facts[id])
  }

  function SoftDelete(s: State, t: Tenant, id: Uuid): (State, Result<()>) {
    if id !in s.facts then (s, Err(NotFound))
    else if !Matches(s.facts[id], t) then (s, Err(Forbidden))
    else (s.(deleted := s.deleted + {id}), Ok(()))
  }

  function DeleteUserData(s: State, t: Tenant): State {
    var facts := map id | id in s.facts && !Matches(s.facts[id], t) :: s.facts[id];
    State(facts, s.deleted * facts.Keys)
  }

  /** The tenant's facts a retention run at `cutoff` finds. */
  function Expired(s: State, t: Tenant, cutoff: int): set<Uuid> {
    set id | id in s.facts && Matches(s.facts[id], t) && s.facts[id].id !in s.deleted && s.facts[id].updatedAt < cutoff
      :: s.facts[id].id
  }

  function DeleteOlderThan(s: State, t: Tenant, cutoff: int, dryRun: bool): (State, Pruned) {
    var ids := Expired(s, t, cutoff);
    if dryRun then (s, Pruned(|ids|, {})) else (s.(deleted := s.deleted + ids), Pruned(|ids|, ids))
  }

  /** The facts of an organization, and of one of its users, that are not tombstoned. */
  function OfOrg(s: State, org: string): set<Fact> {
    set id | id in s.facts && s.facts[id].org == org && s.facts[id].id !in s.deleted :: s.facts[id]
  }

  function OfUser(s: State, t: Tenant): set<Fact> {
    set id | id in s.facts && Matches(s.facts[id], t) && s.facts[id].id !in s.deleted :: s.facts[id]
  }

  function UsersOf(s: State, org: string): set<string> {
    set f | f in OfOrg(s, org) :: f.user
  }

  // ---------------------------------------------------------------- search

  predicate Contains(text: string, needle: string) {
    exists i :: 0 <= i <= |text| && Occurs(text, i, needle)
  }

  predicate Passes(s: State, q: Query, f: Fact) {
    && Matches(f, q.tenant)
    && (q.includeDeleted || f.id !in s.deleted)
    && (q.memoryTypes.None? || f.memoryType in q.memoryTypes.value)
    && (q.queryText.None? || Contains(f.content, q.queryText.value)
        || (f.summary.Some? && Contains(f.summary.value, q.queryText.value)))
  }

  /** The facts a query asks for, cursor and limit aside. */
  function Selected(s: State, q: Query): set<Fact> {
    set id | id in s.facts && Passes(s, q, s.facts[id]) :: s.facts[id]
  }

  function FactRow(f: Fact): Row {
    Row(f.updatedAt, f.id, Text(f.id))
  }

  /** Some enumeration of a set; what is computed from it does not depend on which. */
  ghost function Listed<T(!new)>(s: set<T>): (l: seq<T>)
    ensures Lists(l, s)
  {
    if s == {} then [] else var x :| x in s; [x] + Listed(s - {x})
  }

  ghost function SearchFacts(s: State, q: Query): seq<Fact> {
    Fetch(FactRow, Listed(Selected(s, q)), q.cursor, q.limit)
  }

  // ---------------------------------------------------------------- users of an organization

  const MIN_UTC: int := -8_334_601_228_800_000_000_000

  /** `m` is the latest change among `fs`. */
  ghost predicate IsLatest(fs: set<Fact>, m: int) {
    (forall f :: f in fs ==> f.updatedAt <= m) && (exists f :: f in fs && f.updatedAt == m)
  }

  ghost function Latest(fs: set<Fact>): (m: int)
    requires fs != {}
    ensures IsLatest(fs, m)
  {
    var f :| f in fs;
    if fs == {f} then f.updatedAt
    else
      var rest := Latest(fs - {f});
      if rest < f.updatedAt then f.updatedAt else rest
  }

  /** What the listing says about a user who has facts: how many, and the latest change. */
  ghost function Summary(s: State, org: string, user: string): UserSummary {
    var fs := OfUser(s, Tenant(org, user));
    UserSummary(user, |fs|, if fs == {} then None else Some(Latest(fs)))
  }

  ghost function Summaries(s: State, org: string): set<UserSummary> {
    set u | u in UsersOf(s, org) :: Summary(s, org, u)
  }

  function UserRow(u: UserSummary): Row {
    Row(if u.last.Some? then u.last.value else MIN_UTC, Codes(u.user), u.user)
  }

  ghost function ListUsers(s: State, org: string, cursor: Option<PageCursor>, limit: nat): seq<UserSummary> {
    Fetch(UserRow, Listed(Summaries(s, org)), cursor, limit)
  }

  // ---------------------------------------------------------------- the invariant

  /** Every fact is filed under its own id, and only stored facts carry a tombstone. */
  ghost predicate Valid(s: State) {
    && (forall id :: id in s.facts ==> s.facts[id].id == id)
    && s.deleted <= s.facts.Keys
  }

  lemma ExpiredIff(s: State, t: Tenant, cutoff: int, id: Uuid)
    requires Valid(s)
    ensures id in Expired(s, t, cutoff)
            <==> id in s.facts && Matches(s.facts[id], t) && id !in s.deleted && s.facts[id].updatedAt < cutoff
  {
  }
}
