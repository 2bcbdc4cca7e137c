/** The per-organization fixed-window rate limiter.  Instants are nanoseconds on an arbitrary scale. */
module RateLimiter {
  import opened Prelude

  const SECOND: nat := 1_000_000_000
  const WINDOW: nat := 60 * SECOND
  const PRUNE_ABOVE: nat := 1_024

  type U32 = n: nat | n < 0x1_0000_0000

  datatype Decision = Allowed | Limited(retryAfterSecs: nat)

  datatype Window = Window(start: int, count: U32)

  type Windows = map<string, Window>

  datatype Config = Config(enabled: bool, limit: U32)

  datatype Call = Call(org: string, now: int)

  /** What one call shows: its decision and the window it was decided in (none when disabled). */
  datatype Outcome = Outcome(decision: Decision, window: Option<Window>)

  // ---------------------------------------------------------------- one call

  /** Saturating difference of two instants. */
  function Since(now: int, earlier: int): nat {
    if now < earlier then 0 else now - earlier
  }

  /** Whole seconds left in a window, but at least one. */
  function RetryAfter(elapsed: nat): nat {
    var left := if elapsed < WINDOW then WINDOW - elapsed else 0;
    if left / SECOND < 1 then 1 else left / SECOND
  }

  function Lookup(ws: Windows, org: string): Option<Window> {
    if org in ws then Some(ws[org]) else None
  }

  /** The window a call falls in: the stored one, or a fresh one when there is none or it has elapsed. */
  function Current(w: Option<Window>, now: int): Window {
    if w.None? || Since(now, w.value.start) >= WINDOW then Window(now, 0) else w.value
  }

  /** One call of a lone organization, given the window stored for it. */
  function Admit(limit: U32, w: Option<Window>, now: int): (r: (Window, Decision)) {
    var cur := Current(w, now);
    if cur.count >= limit then (cur, Limited(RetryAfter(Since(now, cur.start))))
    else (cur.(count := cur.count + 1), Allowed)
  }

  /** Windows that survive an opportunistic prune at `now`. */
  function Retained(ws: Windows, now: int): Windows {
    map o | o in ws && Since(now, ws[o].start) < 2 * WINDOW :: ws[o]
  }

  /** The limiter's transition; `prunes` off gives the reference limiter that never forgets a window. */
  function Step(cfg: Config, prunes: bool, ws: Windows, c: Call): (Windows, Outcome) {
    if !cfg.enabled then (ws, Outcome(Allowed, None))
    else
      var kept := if prunes && |ws| > PRUNE_ABOVE then Retained(ws, c.now) else ws;
      var (w, d) := Admit(cfg.limit, Lookup(kept, c.org), c.now);
      (kept[c.org := w], Outcome(d, Some(w)))
  }

  class Limiter {
    const enabled: bool
    const requestsPerMinute: U32
    var windows: Windows

    constructor (enabled: bool, requestsPerMinute: U32)
      ensures this.enabled == enabled && this.requestsPerMinute == requestsPerMinute
      ensures windows == map[]
    {
      this.enabled := enabled;
      this.requestsPerMinute := requestsPerMinute;
      windows := map[];
    }

    method Check(org: string, now: int) returns (decision: Decision)
      modifies this`windows
      ensures var (ws, outcome) := Step(Config(enabled, requestsPerMinute), true, old(windows), Call(org, now));
              windows == ws && decision == outcome.decision
    {
      if !enabled {
        return Allowed;
      }
      if |windows| > PRUNE_ABOVE {
        windows := map o | o in windows && Since(now, windows[o].start) < 2 * WINDOW :: windows[o];
      }
      if org !in windows {
        windows := windows[org := Window(now, 0)];
      }
      if Since(now, windows[org].start) >= WINDOW {
        windows := windows[org := Window(now, 0)];
      }
      if windows[org].count >= requestsPerMinute {
        return Limited(RetryAfter(Since(now, windows[org].start)));
      }
      windows := windows[org := windows[org].(count := windows[org].count + 1)];
      return Allowed;
    }
  }

  // ---------------------------------------------------------------- runs

  /** The outcomes of a sequence of calls, in lock order. */
  function Trace(cfg: Config, prunes: bool, ws: Windows, calls: seq<Call>): (t: seq<Outcome>)
    ensures |t| == |calls|
    decreases |calls|
  {
    if calls == [] then []
    else
      var (ws', o) := Step(cfg, prunes, ws, calls[0]);
      [o] + Trace(cfg, prunes, ws', calls[1..])
  }

  /** The limiter's state after a sequence of calls. */
  function After(cfg: Config, prunes: bool, ws: Windows, calls: seq<Call>): Windows
    decreases |calls|
  {
    if calls == [] then ws else After(cfg, prunes, Step(cfg, prunes, ws, calls[0]).0, calls[1..])
  }

  lemma {:induction false} TraceConcat(cfg: Config, prunes: bool, ws: Windows, a: seq<Call>, b: seq<Call>)
    ensures Trace(cfg, prunes, ws, a + b)
         == Trace(cfg, prunes, ws, a) + Trace(cfg, prunes, After(cfg, prunes, ws, a), b)
    ensures After(cfg, prunes, ws, a + b) == After(cfg, prunes, After(cfg, prunes, ws, a), b)
    decreases |a|
  {
    hide Step;
    if a == [] {
      assert a + b == b;
    } else {
      assert (a + b)[1..] == a[1..] + b && (a + b)[0] == a[0];
      TraceConcat(cfg, prunes, Step(cfg, prunes, ws, a[0]).0, a[1..], b);
    }
  }

  /** Readings may step back, but never by more than `slack` behind an earlier reading. */
  ghost predicate SteadyBy(calls: seq<Call>, slack: nat) {
    forall i, j :: 0 <= i < j < |calls| ==> calls[j].now >= calls[i].now - slack
  }

  ghost predicate Steady(calls: seq<Call>) {
    SteadyBy(calls, WINDOW)
  }

  ghost predicate Monotone(calls: seq<Call>) {
    forall i, j :: 0 <= i < j < |calls| ==> calls[i].now <= calls[j].now
  }

  /** The calls kept by a mask, and the outcomes at those calls. */
  function Kept<T>(xs: seq<T>, keep: seq<bool>): seq<T>
    requires |xs| == |keep|
  {
    if xs == [] then []
    else if keep[0] then [xs[0]] + Kept(xs[1..], keep[1..])
    else Kept(xs[1..], keep[1..])
  }

  function Own(calls: seq<Call>, org: string): (keep: seq<bool>)
    ensures |keep| == |calls|
  {
    seq(|calls|, i requires 0 <= i < |calls| => calls[i].org == org)
  }

  lemma {:induction false} KeptMembers<T>(xs: seq<T>, keep: seq<bool>, y: T)
    requires |xs| == |keep| && y in Kept(xs, keep)
    ensures exists i :: 0 <= i < |xs| && keep[i] && xs[i] == y
  {
    if keep[0] && xs[0] == y {
    } else {
      KeptMembers(xs[1..], keep[1..], y);
      var i :| 0 <= i < |xs[1..]| && keep[1..][i] && xs[1..][i] == y;
      assert keep[i + 1] && xs[i + 1] == y;
    }
  }

  lemma SteadyRest(calls: seq<Call>)
    requires Steady(calls) && calls != []
    ensures Steady(calls[1..])
  {
    forall i, j | 0 <= i < j < |calls[1..]| ensures calls[1..][j].now >= calls[1..][i].now - WINDOW {
      assert calls[1..][j] == calls[j + 1] && calls[1..][i] == calls[i + 1];
    }
  }

  lemma {:induction false} KeptSteady(calls: seq<Call>, keep: seq<bool>)
    requires Steady(calls) && |keep| == |calls|
    ensures Steady(Kept(calls, keep))
  {
    if calls != [] {
      SteadyRest(calls);
      KeptSteady(calls[1..], keep[1..]);
      var rest := Kept(calls[1..], keep[1..]);
      if keep[0] {
        forall j | 0 <= j < |rest| ensures rest[j].now >= calls[0].now - WINDOW {
          KeptMembers(calls[1..], keep[1..], rest[j]);
        }
      }
    }
  }

  // ---------------------------------------------------------------- pruning is unobservable

  /** A window the reference still holds but the limiter dropped has elapsed for every remaining call. */
  ghost predicate Refines(ws: Windows, full: Windows, calls: seq<Call>) {
    && (forall o :: o in ws ==> o in full && full[o] == ws[o])
    && (forall o, i :: o in full && o !in ws && 0 <= i < |calls| ==> Since(calls[i].now, full[o].start) >= WINDOW)
  }

  lemma StepRefines(cfg: Config, ws: Windows, full: Windows, calls: seq<Call>)
    requires calls != [] && Steady(calls) && Refines(ws, full, calls)
    ensures Step(cfg, true, ws, calls[0]).1 == Step(cfg, false, full, calls[0]).1
    ensures Refines(Step(cfg, true, ws, calls[0]).0, Step(cfg, false, full, calls[0]).0, calls[1..])
  {
    var c := calls[0];
    var kept := if |ws| > PRUNE_ABOVE then Retained(ws, c.now) else ws;
    forall o, i | o in full && o !in kept && 0 <= i < |calls| ensures Since(calls[i].now, full[o].start) >= WINDOW {
      if o in ws {
        assert c.now - full[o].start >= 2 * WINDOW;
      }
    }
    assert calls[0] == c;
  }

  lemma {:induction false} TraceRefines(cfg: Config, ws: Windows, full: Windows, calls: seq<Call>)
    requires Steady(calls) && Refines(ws, full, calls)
    ensures Trace(cfg, true, ws, calls) == Trace(cfg, false, full, calls)
    decreases |calls|
  {
    if calls != [] {
      StepRefines(cfg, ws, full, calls);
      SteadyRest(calls);
      TraceRefines(cfg, Step(cfg, true, ws, calls[0]).0, Step(cfg, false, full, calls[0]).0, calls[1..]);
    }
  }

  /** Every decision, and the window it was taken in, equals that of a limiter that never prunes. */
  lemma PruningIsUnobservable(cfg: Config, calls: seq<Call>)
    requires Steady(calls)
    ensures Trace(cfg, true, map[], calls) == Trace(cfg, false, map[], calls)
  {
    TraceRefines(cfg, map[], map[], calls);
  }

  /** `n` calls by distinct organizations, none of them "a", all at the same reading. */
  function Crowd(n: nat, now: int): (calls: seq<Call>)
    ensures |calls| == n
  {
    if n == 0 then [] else Crowd(n - 1, now) + [Call(seq(n + 1, _ => 'x'), now)]
  }

  lemma {:induction false} CrowdFills(cfg: Config, prunes: bool, ws: Windows, n: nat, now: int)
    requires cfg.enabled && cfg.limit >= 1 && n <= PRUNE_ABOVE && ws.Keys == {"a"}
    ensures var end := After(cfg, prunes, ws, Crowd(n, now));
            && |end| == n + 1 && "a" in end && end["a"] == ws["a"]
            && (forall o :: o in end ==> |o| <= n + 1)
    ensures forall i :: 0 <= i < n ==> Crowd(n, now)[i].now == now
  {
    if n == 0 {
      assert |ws.Keys| == 1;
    } else {
      CrowdFills(cfg, prunes, ws, n - 1, now);
      var mid := After(cfg, prunes, ws, Crowd(n - 1, now));
      var c := Call(seq(n + 1, _ => 'x'), now);
      TraceConcat(cfg, prunes, ws, Crowd(n - 1, now), [c]);
      var end := Step(cfg, prunes, mid, c).0;
      assert After(cfg, prunes, mid, [c]) == end;
      assert c.org !in mid;
      assert end.Keys == mid.Keys + {c.org};
    }
  }

  /** The crowd has filled the map; "b" triggers a prune, and "a" calls again with the clock set back. */
  lemma LastDecision(prunes: bool, full: Windows)
    requires |full| == PRUNE_ABOVE + 1 && "a" in full && full["a"] == Window(0, 1)
    ensures Trace(Config(true, 1), prunes, full, [Call("b", 2 * WINDOW), Call("a", WINDOW - 1)])[1].decision
         == if prunes then Allowed else Limited(1)
  {
    var cfg := Config(true, 1);
    var trigger := Call("b", 2 * WINDOW);
    var last := Call("a", WINDOW - 1);
    var next := Step(cfg, prunes, full, trigger).0;
    assert Lookup(next, "a") == if prunes then None else Some(Window(0, 1));
    assert Step(cfg, prunes, next, last).1.decision == if prunes then Allowed else Limited(1);
    hide Step;
    assert [trigger, last][1..] == [last];
    assert Trace(cfg, prunes, full, [trigger, last])[1] == Trace(cfg, prunes, next, [last])[0];
  }

  lemma TightDecision(prunes: bool, crowd: seq<Call>)
    requires crowd == Crowd(PRUNE_ABOVE, 2 * WINDOW)
    ensures var calls := [Call("a", 0)] + crowd + [Call("b", 2 * WINDOW), Call("a", WINDOW - 1)];
            Trace(Config(true, 1), prunes, map[], calls)[|crowd| + 2].decision == if prunes then Allowed else Limited(1)
  {
    var cfg := Config(true, 1);
    var first := [Call("a", 0)];
    var tail := [Call("b", 2 * WINDOW), Call("a", WINDOW - 1)];
    var ws := Step(cfg, prunes, map[], first[0]).0;
    assert ws == map["a" := Window(0, 1)];
    hide Step;
    CrowdFills(cfg, prunes, ws, PRUNE_ABOVE, 2 * WINDOW);
    assert After(cfg, prunes, map[], first) == ws;
    TraceConcat(cfg, prunes, map[], first, crowd);
    var full := After(cfg, prunes, ws, crowd);
    TraceConcat(cfg, prunes, map[], first + crowd, tail);
    LastDecision(prunes, full);
  }

  /** One nanosecond more of clock slack and pruning shows: a limiter with one request per minute admits
      "a" twice although its first window has not elapsed. */
  lemma SlackIsTight() returns (calls: seq<Call>)
    ensures SteadyBy(calls, WINDOW + 1)
    ensures Trace(Config(true, 1), true, map[], calls) != Trace(Config(true, 1), false, map[], calls)
  {
    var crowd := Crowd(PRUNE_ABOVE, 2 * WINDOW);
    calls := [Call("a", 0)] + crowd + [Call("b", 2 * WINDOW), Call("a", WINDOW - 1)];
    CrowdFills(Config(true, 1), false, map["a" := Window(0, 1)], PRUNE_ABOVE, 2 * WINDOW);
    TightDecision(true, crowd);
    TightDecision(false, crowd);
  }

  // ---------------------------------------------------------------- organizations do not interact

  lemma {:induction false} OwnTrace(cfg: Config, full: Windows, alone: Windows, calls: seq<Call>, org: string)
    requires Lookup(full, org) == Lookup(alone, org)
    ensures Kept(Trace(cfg, false, full, calls), Own(calls, org))
         == Trace(cfg, false, alone, Kept(calls, Own(calls, org)))
    decreases |calls|
  {
    if calls != [] {
      assert Own(calls, org)[1..] == Own(calls[1..], org);
      var full' := Step(cfg, false, full, calls[0]).0;
      if calls[0].org == org {
        var mine := Kept(calls, Own(calls, org));
        assert mine[1..] == Kept(calls[1..], Own(calls[1..], org));
        OwnTrace(cfg, full', Step(cfg, false, alone, calls[0]).0, calls[1..], org);
      } else {
        OwnTrace(cfg, full', alone, calls[1..], org);
      }
    }
  }

  /** An organization sees exactly what it would see if it were the only caller. */
  lemma OrganizationsAreIndependent(cfg: Config, calls: seq<Call>, org: string)
    requires Steady(calls)
    ensures Kept(Trace(cfg, true, map[], calls), Own(calls, org))
         == Trace(cfg, true, map[], Kept(calls, Own(calls, org)))
  {
    PruningIsUnobservable(cfg, calls);
    OwnTrace(cfg, map[], map[], calls, org);
    KeptSteady(calls, Own(calls, org));
    PruningIsUnobservable(cfg, Kept(calls, Own(calls, org)));
  }

  // ---------------------------------------------------------------- rejected calls leave no trace

  ghost predicate DropsOnlyLimited(t: seq<Outcome>, keep: seq<bool>) {
    |keep| == |t| && forall i :: 0 <= i < |t| && !keep[i] ==> t[i].decision.Limited?
  }

  lemma {:induction false} DropLimited(cfg: Config, full: Windows, calls: seq<Call>, keep: seq<bool>)
    requires cfg.limit >= 1
    requires DropsOnlyLimited(Trace(cfg, false, full, calls), keep)
    ensures Trace(cfg, false, full, Kept(calls, keep)) == Kept(Trace(cfg, false, full, calls), keep)
    decreases |calls|
  {
    if calls != [] {
      var t := Trace(cfg, false, full, calls);
      var (full', o) := Step(cfg, false, full, calls[0]);
      assert forall i :: 0 <= i < |t[1..]| ==> keep[1..][i] == keep[i + 1] && t[1..][i] == t[i + 1];
      assert t[1..] == Trace(cfg, false, full', calls[1..]);
      DropLimited(cfg, full', calls[1..], keep[1..]);
      if keep[0] {
        assert Kept(calls, keep)[1..] == Kept(calls[1..], keep[1..]);
      } else {
        assert full' == full;
      }
    }
  }

  /** Deleting any set of Limited calls from a run changes no other outcome. */
  lemma RejectedCallsAreTransparent(cfg: Config, calls: seq<Call>, keep: seq<bool>)
    requires Steady(calls) && cfg.limit >= 1
    requires DropsOnlyLimited(Trace(cfg, true, map[], calls), keep)
    ensures Trace(cfg, true, map[], Kept(calls, keep)) == Kept(Trace(cfg, true, map[], calls), keep)
  {
    PruningIsUnobservable(cfg, calls);
    DropLimited(cfg, map[], calls, keep);
    KeptSteady(calls, keep);
    PruningIsUnobservable(cfg, Kept(calls, keep));
  }

  // ---------------------------------------------------------------- retry hints

  /** The hint is a promise kept exactly when the window does not start over a second after the reading:
      then every retry made more than the hinted seconds later is admitted. */
  lemma RetryHint(limit: U32, w: Window, now: int)
    requires limit >= 1 && Admit(limit, Some(w), now).1.Limited?
    ensures var (w', d) := Admit(limit, Some(w), now);
            && w' == w
            && 1 <= d.retryAfterSecs <= 60
            && ((forall later :: later >= now + (d.retryAfterSecs + 1) * SECOND ==>
                   Admit(limit, Some(w), later).1 == Allowed)
                <==> w.start <= now + SECOND)
  {
    var r := RetryAfter(Since(now, w.start));
    var left := WINDOW - Since(now, w.start);
    assert left < (r + 1) * SECOND && r <= 60;
    if w.start > now + SECOND {
      assert r == 60;
      assert Admit(limit, Some(w), now + (r + 1) * SECOND).1.Limited?;
    }
  }

  /** The hint is the time left, in whole seconds but at least one: waiting less is in vain, and a retry is admitted
      exactly from the end of the sixty seconds on. */
  lemma HintIsExact(limit: U32, w: Window, now: int)
    requires limit >= 1 && Admit(limit, Some(w), now).1.Limited?
    ensures var r := Admit(limit, Some(w), now).1.retryAfterSecs;
            var left := if now < w.start then 60_000_000_000 else w.start + 60_000_000_000 - now;
            && (r == 1 <==> left < 2_000_000_000)
            && (r > 1 ==> r * 1_000_000_000 <= left) && left < (r + 1) * 1_000_000_000
            && (r > 1 ==> forall later :: now <= later < now + r * 1_000_000_000 ==>
                            Admit(limit, Some(w), later).1.Limited?)
    ensures forall later :: Admit(limit, Some(w), later).1 == Allowed <==> later >= w.start + 60_000_000_000
  {
    var left := WINDOW - Since(now, w.start);
    var r := RetryAfter(Since(now, w.start));
    assert r > 1 ==> r == left / SECOND;
    assert left / SECOND * SECOND <= left < (left / SECOND + 1) * SECOND;
  }

  lemma {:induction false} TraceAt(cfg: Config, ws: Windows, calls: seq<Call>, i: nat)
    requires i < |calls|
    ensures Trace(cfg, false, ws, calls)[i] == Step(cfg, false, After(cfg, false, ws, calls[..i]), calls[i]).1
    ensures After(cfg, false, ws, calls[..i + 1]) == Step(cfg, false, After(cfg, false, ws, calls[..i]), calls[i]).0
    decreases |calls|
  {
    if i > 0 {
      assert calls[..i][1..] == calls[1..][..i - 1];
      assert calls[..i + 1][1..] == calls[1..][..i];
      TraceAt(cfg, Step(cfg, false, ws, calls[0]).0, calls[1..], i - 1);
    }
  }

  lemma {:induction false} OthersKeepWindow(cfg: Config, calls: seq<Call>, i: nat, j: nat, org: string)
    requires i <= j <= |calls| && forall k :: i <= k < j ==> calls[k].org != org
    ensures Lookup(After(cfg, false, map[], calls[..j]), org) == Lookup(After(cfg, false, map[], calls[..i]), org)
    decreases j
  {
    if i < j {
      OthersKeepWindow(cfg, calls, i, j - 1, org);
      TraceAt(cfg, map[], calls, j - 1);
    }
  }

  /** In any run, an organization told at call `i` to wait `r` seconds is admitted on a lone retry at call
      `j` made more than `r` seconds later, whoever else calls meanwhile. */
  lemma LoneRetryIsAdmitted(cfg: Config, calls: seq<Call>, i: nat, j: nat, t: seq<Outcome>)
    requires cfg.limit >= 1 && Steady(calls) && t == Trace(cfg, true, map[], calls)
    requires i < j < |calls| && calls[j].org == calls[i].org
    requires forall k :: i < k < j ==> calls[k].org != calls[i].org
    requires t[i].decision.Limited?
    ensures t[i].window.Some? && 1 <= t[i].decision.retryAfterSecs <= 60
    ensures t[i].window.value.start <= calls[i].now + SECOND
            && calls[j].now >= calls[i].now + (t[i].decision.retryAfterSecs + 1) * SECOND
            ==> t[j].decision == Allowed
  {
    PruningIsUnobservable(cfg, calls);
    TraceAt(cfg, map[], calls, i);
    TraceAt(cfg, map[], calls, j);
    OthersKeepWindow(cfg, calls, i + 1, j, calls[i].org);
    var w := t[i].window.value;
    assert Lookup(After(cfg, false, map[], calls[..j]), calls[j].org) == Some(w);
    RetryHint(cfg.limit, w, calls[i].now);
  }

  /** In any run, a lone retry at call `j` of an organization refused at call `i` is admitted exactly when sixty
      seconds have passed since the refusing window started; before the hinted time, if that is more than a second, it
      is refused. */
  lemma LoneRetryIff(cfg: Config, calls: seq<Call>, i: nat, j: nat, t: seq<Outcome>)
    requires cfg.limit >= 1 && Steady(calls) && t == Trace(cfg, true, map[], calls)
    requires i < j < |calls| && calls[j].org == calls[i].org
    requires forall k :: i < k < j ==> calls[k].org != calls[i].org
    requires t[i].decision.Limited?
    ensures t[i].window.Some?
    ensures t[j].decision == Allowed <==> calls[j].now >= t[i].window.value.start + 60_000_000_000
    ensures var r := t[i].decision.retryAfterSecs;
            r > 1 && calls[i].now <= calls[j].now < calls[i].now + r * 1_000_000_000 ==> t[j].decision.Limited?
  {
    PruningIsUnobservable(cfg, calls);
    TraceAt(cfg, map[], calls, i);
    TraceAt(cfg, map[], calls, j);
    OthersKeepWindow(cfg, calls, i + 1, j, calls[i].org);
    var w := t[i].window.value;
    assert Lookup(After(cfg, false, map[], calls[..j]), calls[j].org) == Some(w);
    HintIsExact(cfg.limit, w, calls[i].now);
  }

  /** A disabled limiter admits everything. */
  lemma {:induction false} DisabledAdmits(cfg: Config, calls: seq<Call>, i: nat)
    requires !cfg.enabled && i < |calls|
    ensures Trace(cfg, true, map[], calls)[i].decision == Allowed
  {
    DisabledFrom(cfg, map[], calls, i);
  }

  lemma {:induction false} DisabledFrom(cfg: Config, ws: Windows, calls: seq<Call>, i: nat)
    requires !cfg.enabled && i < |calls|
    ensures Trace(cfg, true, ws, calls)[i].decision == Allowed
    decreases i
  {
    if i > 0 {
      DisabledFrom(cfg, ws, calls[1..], i - 1);
    }
  }

  /** A steady run in which the clock steps back two seconds, and a lone retry made a second after the hinted time
      is refused. */
  lemma EarlyHint() returns (calls: seq<Call>)
    ensures |calls| == 3 && Steady(calls) && forall i :: 0 <= i < 3 ==> calls[i].org == "a"
    ensures var t := Trace(Config(true, 1), true, map[], calls);
            && t[1].decision == Limited(60) && calls[2].now == calls[1].now + 61 * SECOND
            && t[2].decision.Limited?
  {
    var cfg := Config(true, 1);
    var first, second, third := Call("a", 2 * SECOND), Call("a", 0), Call("a", 61 * SECOND);
    calls := [first, second, third];
    var ws := map["a" := Window(2 * SECOND, 1)];
    assert Step(cfg, true, map[], first).0 == ws;
    assert RetryAfter(0) == 60 && Since(second.now, 2 * SECOND) == 0;
    assert Step(cfg, true, ws, second).1.decision == Limited(60);
    assert Step(cfg, true, ws, second).0 == ws;
    assert Step(cfg, true, ws, third).1.decision.Limited?;
    hide Step;
    assert calls[1..] == [second, third] && [second, third][1..] == [third];
    assert Trace(cfg, true, map[], calls)[1..] == Trace(cfg, true, ws, [second, third]);
    assert Trace(cfg, true, ws, [second, third])[1..] == Trace(cfg, true, ws, [third]);
  }

  // ---------------------------------------------------------------- admission bound

  /** Number of Allowed outcomes of `org` with a reading in [lo, hi). */
  function Admissions(calls: seq<Call>, t: seq<Outcome>, org: string, lo: int, hi: int): nat
    requires |t| == |calls|
  {
    if calls == [] then 0
    else
      (if calls[0].org == org && t[0].decision.Allowed? && lo <= calls[0].now < hi then 1 else 0)
      + Admissions(calls[1..], t[1..], org, lo, hi)
  }

  /** What may have been admitted in [lo, ...) once window `w` is the current one. */
  ghost predicate Spent(limit: U32, w: Option<Window>, lo: int, used: nat) {
    match w
    case None => used == 0
    case Some(w) =>
      && w.count <= limit
      && (if w.start < lo then used <= w.count
          else used <= ((w.start - lo) / WINDOW + 1) * limit + w.count)
  }

  lemma NextPeriod(lo: int, s: int, s': int)
    requires lo <= s && s + WINDOW <= s'
    ensures (s - lo) / WINDOW + 1 <= (s' - lo) / WINDOW
  {
  }

  lemma Scale(a: int, b: int, n: nat)
    requires a <= b
    ensures a * n <= b * n
  {
  }

  /** Opening a new window pays for everything spent before it. */
  lemma SpentCurrent(limit: U32, w: Option<Window>, now: int, lo: int, used: nat)
    requires Spent(limit, w, lo, used) && (w.Some? ==> w.value.start <= now)
    ensures lo <= now ==> Spent(limit, Some(Current(w, now)), lo, used)
    ensures now < lo && used == 0 ==> Spent(limit, Some(Current(w, now)), lo, 0)
  {
    if w.Some? && Since(now, w.value.start) >= WINDOW && lo <= now {
      var s := w.value.start;
      if s < lo {
        Scale(1, (now - lo) / WINDOW + 1, limit);
      } else {
        NextPeriod(lo, s, now);
        Scale((s - lo) / WINDOW + 2, (now - lo) / WINDOW + 1, limit);
        assert ((s - lo) / WINDOW + 2) * limit == ((s - lo) / WINDOW + 1) * limit + limit;
      }
    }
  }

  /** Admitting at `now` inside k windows from `lo` stays within k + 1 budgets. */
  lemma SpentBound(limit: U32, w: Window, now: int, lo: int, k: nat, used: nat)
    requires Spent(limit, Some(w), lo, used) && w.start <= now < lo + k * WINDOW
    requires k >= 1
    ensures used <= (k + 1) * limit
  {
    if w.start >= lo {
      assert (w.start - lo) / WINDOW <= k - 1;
      Scale((w.start - lo) / WINDOW + 1, k, limit);
      assert (k + 1) * limit == k * limit + limit;
    } else {
      Scale(1, k + 1, limit);
    }
  }

  lemma {:induction false} AdmissionsFrom(cfg: Config, full: Windows, calls: seq<Call>, org: string, lo: int, k: nat,
      used: nat)
    requires cfg.enabled && Monotone(calls) && k >= 1
    requires org in full ==> forall i :: 0 <= i < |calls| ==> full[org].start <= calls[i].now
    requires Spent(cfg.limit, Lookup(full, org), lo, used) && used <= (k + 1) * cfg.limit
    requires used > 0 ==> forall i :: 0 <= i < |calls| ==> lo <= calls[i].now
    ensures used + Admissions(calls, Trace(cfg, false, full, calls), org, lo, lo + k * WINDOW) <= (k + 1) * cfg.limit
    decreases |calls|
  {
    if calls != [] {
      var c := calls[0];
      var (full', o) := Step(cfg, false, full, c);
      var t := Trace(cfg, false, full, calls);
      assert t[1..] == Trace(cfg, false, full', calls[1..]);
      assert forall i :: 0 <= i < |calls[1..]| ==> calls[1..][i] == calls[i + 1];
      if c.org != org {
        AdmissionsFrom(cfg, full', calls[1..], org, lo, k, used);
      } else {
        var w := Lookup(full, org);
        SpentCurrent(cfg.limit, w, c.now, lo, used);
        var cur := Current(w, c.now);
        if o.decision.Allowed? && lo <= c.now < lo + k * WINDOW {
          SpentBound(cfg.limit, cur.(count := cur.count + 1), c.now, lo, k, used + 1);
          AdmissionsFrom(cfg, full', calls[1..], org, lo, k, used + 1);
        } else {
          AdmissionsFrom(cfg, full', calls[1..], org, lo, k, used);
        }
      }
    }
  }

  /** Any half-open interval of k windows holds at most k + 1 budgets of admissions, whatever the trace. */
  lemma AdmissionBound(cfg: Config, calls: seq<Call>, org: string, lo: int, k: nat)
    requires cfg.enabled && Monotone(calls) && k >= 1
    ensures Admissions(calls, Trace(cfg, true, map[], calls), org, lo, lo + k * WINDOW) <= (k + 1) * cfg.limit
  {
    PruningIsUnobservable(cfg, calls);
    Scale(0, k + 1, cfg.limit);
    AdmissionsFrom(cfg, map[], calls, org, lo, k, 0);
  }

  // ---------------------------------------------------------------- windows only move forward

  ghost predicate Advances(limit: U32, t: seq<Outcome>) {
    && (forall i :: 0 <= i < |t| ==> t[i].window.Some? && t[i].window.value.count <= limit)
    && (forall i {:trigger t[i].window} :: 0 <= i < |t| - 1 ==> Follows(t[i].window.value, t[i + 1].window.value))
  }

  /** The same window with no fewer admissions, or one that starts a full window later. */
  ghost predicate Follows(w: Window, w': Window) {
    (w'.start == w.start && w'.count >= w.count) || w'.start >= w.start + WINDOW
  }

  lemma {:induction false} LoneTraceAdvances(cfg: Config, ws: Windows, calls: seq<Call>, org: string)
    requires cfg.enabled && forall i :: 0 <= i < |calls| ==> calls[i].org == org
    requires org in ws ==> ws[org].count <= cfg.limit
    ensures var t := Trace(cfg, false, ws, calls);
            Advances(cfg.limit, t) && (org in ws && t != [] ==> Follows(ws[org], t[0].window.value))
    decreases |calls|
  {
    if calls != [] {
      LoneTraceAdvances(cfg, Step(cfg, false, ws, calls[0]).0, calls[1..], org);
    }
  }

  /** In any run, no window of an organization ever counts above the limit, and successive window
      starts are at least a full window apart. */
  lemma WindowsAdvance(cfg: Config, calls: seq<Call>, org: string)
    requires cfg.enabled && Steady(calls)
    ensures Advances(cfg.limit, Kept(Trace(cfg, true, map[], calls), Own(calls, org)))
  {
    PruningIsUnobservable(cfg, calls);
    OwnTrace(cfg, map[], map[], calls, org);
    var mine := Kept(calls, Own(calls, org));
    forall i | 0 <= i < |mine| ensures mine[i].org == org {
      KeptMembers(calls, Own(calls, org), mine[i]);
    }
    LoneTraceAdvances(cfg, map[], mine, org);
  }

  // ---------------------------------------------------------------- exactly which calls are refused

  /** Admissions among the first `n` outcomes in the window that started at `start`. */
  function AdmittedIn(t: seq<Outcome>, n: nat, start: int): nat
    requires n <= |t|
  {
    if n == 0 then 0
    else
      AdmittedIn(t, n - 1, start)
      + if t[n - 1].decision.Allowed? && t[n - 1].window.Some? && t[n - 1].window.value.start == start then 1 else 0
  }

  /** Where the window of the call at `now` starts: at `now` if there was none or sixty seconds have passed. */
  function StartOf(before: Option<int>, now: int): int {
    if before.None? || now >= before.value + 60_000_000_000 then now else before.value
  }

  ghost predicate Lone(calls: seq<Call>, org: string) {
    forall i :: 0 <= i < |calls| ==> calls[i].org == org
  }

  /** What the outcomes of a lone organization are, by its readings alone. */
  ghost predicate Metered(limit: U32, calls: seq<Call>, t: seq<Outcome>, i: nat)
    requires |t| == |calls| && i < |t|
  {
    && t[i].window.Some? && (i > 0 ==> t[i - 1].window.Some?)
    && t[i].window.value.start
       == StartOf(if i == 0 then None else Some(t[i - 1].window.value.start), calls[i].now)
    && t[i].window.value.count == AdmittedIn(t, i + 1, t[i].window.value.start) <= limit
    && (t[i].decision.Limited? <==> AdmittedIn(t, i, t[i].window.value.start) == limit)
  }

  lemma {:induction false} NoneAdmitted(t: seq<Outcome>, n: nat, start: int)
    requires n <= |t| && forall k :: 0 <= k < n ==> t[k].window.Some? && t[k].window.value.start < start
    ensures AdmittedIn(t, n, start) == 0
  {
    if n > 0 {
      NoneAdmitted(t, n - 1, start);
    }
  }

  lemma LoneStep(cfg: Config, calls: seq<Call>, org: string, t: seq<Outcome>, i: nat)
    requires cfg.enabled && Lone(calls, org) && t == Trace(cfg, false, map[], calls) && i < |t|
    ensures t[i].window.Some?
    ensures Lookup(After(cfg, false, map[], calls[..i + 1]), org) == t[i].window
    ensures var (w, d) := Admit(cfg.limit, Lookup(After(cfg, false, map[], calls[..i]), org), calls[i].now);
            t[i] == Outcome(d, Some(w))
  {
    TraceAt(cfg, map[], calls, i);
  }

  /** Windows so far start no later than the last one. */
  ghost predicate Ascending(t: seq<Outcome>, i: nat)
    requires i < |t|
  {
    && t[i].window.Some?
    && forall k :: 0 <= k <= i ==> t[k].window.Some? && t[k].window.value.start <= t[i].window.value.start
  }

  lemma MeteredFirst(limit: U32, calls: seq<Call>, t: seq<Outcome>)
    requires |t| == |calls| > 0
    requires var (w, d) := Admit(limit, None, calls[0].now); t[0] == Outcome(d, Some(w))
    ensures Metered(limit, calls, t, 0) && Ascending(t, 0)
  {
    assert AdmittedIn(t, 0, calls[0].now) == 0;
  }

  lemma MeteredNext(limit: U32, calls: seq<Call>, t: seq<Outcome>, i: nat)
    requires |t| == |calls| && 0 < i < |t| && Ascending(t, i - 1) && Metered(limit, calls, t, i - 1)
    requires var (w, d) := Admit(limit, t[i - 1].window, calls[i].now); t[i] == Outcome(d, Some(w))
    ensures Metered(limit, calls, t, i) && Ascending(t, i)
  {
    var w := t[i - 1].window.value;
    if calls[i].now >= w.start + WINDOW {
      NoneAdmitted(t, i, calls[i].now);
    }
    var start := t[i].window.value.start;
    assert AdmittedIn(t, i + 1, start) == AdmittedIn(t, i, start) + if t[i].decision.Allowed? then 1 else 0;
  }

  lemma {:induction false} MeteredAt(cfg: Config, calls: seq<Call>, org: string, t: seq<Outcome>, i: nat)
    requires cfg.enabled && Lone(calls, org) && t == Trace(cfg, false, map[], calls) && i < |t|
    ensures Metered(cfg.limit, calls, t, i) && Ascending(t, i)
    decreases i
  {
    LoneStep(cfg, calls, org, t, i);
    if i == 0 {
      assert calls[..0] == [];
      hide Trace;
      hide Admit;
      MeteredFirst(cfg.limit, calls, t);
    } else {
      LoneStep(cfg, calls, org, t, i - 1);
      hide *;
      MeteredAt(cfg, calls, org, t, i - 1);
      MeteredNext(cfg.limit, calls, t, i);
    }
  }

  /** In any run, an organization's calls are metered by its own readings: a call opens a window exactly when there is
      none or sixty seconds have passed, the window counts its admissions, and a call is refused exactly when `limit`
      calls were admitted in its window before. */
  lemma RefusedIff(cfg: Config, calls: seq<Call>, org: string, i: nat)
    requires cfg.enabled && Steady(calls)
    ensures var mine, t := Kept(calls, Own(calls, org)), Kept(Trace(cfg, true, map[], calls), Own(calls, org));
            |t| == |mine| && (i < |t| ==> Metered(cfg.limit, mine, t, i))
  {
    PruningIsUnobservable(cfg, calls);
    OwnTrace(cfg, map[], map[], calls, org);
    var mine := Kept(calls, Own(calls, org));
    forall k | 0 <= k < |mine| ensures mine[k].org == org {
      KeptMembers(calls, Own(calls, org), mine[k]);
    }
    if i < |mine| {
      MeteredAt(cfg, mine, org, Trace(cfg, false, map[], mine), i);
    }
  }
}
