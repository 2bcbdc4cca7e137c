/** The secret in a URL leaves no trace in the output of the whole redactor. */
module RedactionEndToEnd {
  import opened Prelude
  import opened Redaction
  import opened RedactionProperties
  import opened RedactionSecrecy
  import opened RedactionMarkers
  import opened RedactionPipeline

  // ---------------------------------------------------------------- two messages that differ in one secret

  ghost predicate Spaceless(w: string) {
    |w| >= 2 && forall k :: 0 <= k < |w| ==> !IsSpace(w[k])
  }

  /** In `m`, a URL of scheme `w` runs from `h` to `e`. */
  ghost predicate Carries(w: string, m: string, h: nat, e: nat) {
    && h + |w| <= e <= |m| && Occurs(m, h, w)
    && (forall k :: h <= k < e ==> !IsSpace(m[k]))
    && (e < |m| ==> IsSpace(m[e]))
  }

  /** The messages are the same up to a URL at `h`, and behind its end. */
  ghost predicate Twins(w: string, m: string, e: nat, m': string, e': nat, h: nat) {
    && Carries(w, m, h, e) && Carries(w, m', h, e')
    && (forall k :: 0 <= k < h ==> m[k] == m'[k]) && m[e..] == m'[e'..]
  }

  /** What a pass makes of twins: equal texts, or twins again. */
  ghost predicate Alike(w: string, t: string, t': string) {
    t == t' || exists e: nat, e': nat, h: nat :: Twins(w, t, e, t', e', h)
  }

  /** The first two characters of `v` can stand in `w` at `k`, or could with more text behind it. */
  ghost predicate StartsIn(w: string, k: nat, v: string)
    requires |v| >= 2
  {
    k < |w| && Lower(w[k]) == Lower(v[0]) && (k + 1 < |w| ==> Lower(w[k + 1]) == Lower(v[1]))
  }

  /** The scheme `v` can neither begin inside an occurrence of `w`, nor cut one short, nor enclose one. */
  ghost predicate Apart(v: string, w: string) {
    && Spaceless(v) && Spaceless(w)
    && (forall k :: 1 <= k < |w| ==> !StartsIn(w, k, v))
    && (|v| < |w| ==> exists k :: 0 <= k < |v| && Lower(v[k]) != Lower(w[k]))
    && (forall k :: 1 <= k < |v| - |w| ==> !StartsIn(v, k, w))
  }

  /** An occurrence that ends with the scheme or before it stands in both texts. */
  lemma TwinOccurs(v: string, w: string, m: string, e: nat, m': string, e': nat, h: nat, i: nat)
    requires Twins(w, m, e, m', e', h) && i + |v| <= h + |w| && Occurs(m, i, v)
    ensures Occurs(m', i, v)
  {
    forall k | 0 <= k < |v| ensures Lower(m'[i + k]) == Lower(v[k]) {
      if i + k >= h {
        assert Lower(m[h + (i + k - h)]) == Lower(w[i + k - h]) == Lower(m'[h + (i + k - h)]);
      }
    }
  }

  lemma EncloseClash(v: string, w: string, m: string, h: nat, i: nat)
    requires Apart(v, w) && i < h && i + |v| > h + |w| && Occurs(m, i, v)
    ensures !Occurs(m, h, w)
  {
    var k := h - i;
    assert !StartsIn(v, k, w);
    assert Lower(m[i + k]) == Lower(v[k]) && Lower(m[i + (k + 1)]) == Lower(v[k + 1]);
    assert Lower(m[h + 0]) != Lower(w[0]) || Lower(m[h + 1]) != Lower(w[1]);
  }

  lemma NotBeyond(v: string, w: string, m: string, h: nat, i: nat)
    requires Occurs(m, h, w) && Occurs(m, i, v) && i < h && (v == w || Apart(v, w))
    ensures i + |v| <= h + |w|
  {
    if i + |v| > h + |w| {
      EncloseClash(v, w, m, h, i);
    }
  }

  /** A hit in front of the URL is cut in front of it, or swallows all of it. */
  lemma TwinCut(v: string, w: string, m: string, e: nat, m': string, e': nat, h: nat, i: nat)
    requires Twins(w, m, e, m', e', h) && i < h && i + |v| <= h + |w|
    ensures var a, a' := RunEnd(NonSpaces, m, i + |v|), RunEnd(NonSpaces, m', i + |v|);
            (a == a' < h) || (a == e && a' == e')
  {
    var b := i + |v|;
    var a := RunEnd(NonSpaces, m, b);
    RunIsMaximal(NonSpaces, m, b);
    if a < h {
      RunIs(NonSpaces, m', b, a);
    } else {
      RunIs(NonSpaces, m, b, e);
      assert forall k :: b <= k < h ==> NonSpaces.Has(m[k]);
      RunIs(NonSpaces, m', b, e');
    }
  }

  lemma TwinsBehind(w: string, x: string, t: string, e: nat, t': string, e': nat, h: nat)
    requires Twins(w, t, e, t', e', h)
    ensures Twins(w, x + t, |x| + e, x + t', |x| + e', |x| + h)
  {
    var n := |x|;
    var u, u' := x + t, x + t';
    assert u[n..] == t && u'[n..] == t';
    OccursInTail(u, n, t, h, w);
    OccursInTail(u', n, t', h, w);
    assert u[n + e..] == t[e..] && u'[n + e'..] == t'[e'..];
  }

  lemma AlikeBehind(w: string, x: string, t: string, t': string)
    requires Alike(w, t, t')
    ensures Alike(w, x + t, x + t')
  {
    if t != t' {
      var e: nat, e': nat, h: nat :| Twins(w, t, e, t', e', h);
      TwinsBehind(w, x, t, e, t', e', h);
    }
  }

  // ---------------------------------------------------------------- what a URL pass makes of a URL

  /** The output of a pass for the URL text m[i..e]. */
  ghost function Written(v: string, m: string, i: nat, e: nat): string
    requires i <= e <= |m|
    decreases e - i
  {
    if i == e then "" else if Occurs(m, i, v) then v + PLACEHOLDER else [m[i]] + Written(v, m, i + 1, e)
  }

  lemma {:induction false} WrittenScan(v: string, m: string, i: nat, e: nat)
    requires Spaceless(v) && i <= e <= |m| && (forall k :: i <= k < e ==> !IsSpace(m[k])) && (e < |m| ==> IsSpace(m[e]))
    ensures Scan(Url(v), m, i) == Written(v, m, i, e) + Scan(Url(v), m, e)
    ensures forall k :: 0 <= k < |Written(v, m, i, e)| ==> !IsSpace(Written(v, m, i, e)[k])
    decreases e - i
  {
    hide Scan;
    var rest := Scan(Url(v), m, e);
    if i == e {
      assert "" + rest == rest;
    } else if Occurs(m, i, v) {
      WithinRun(v, m, i, e);
      RunIs(NonSpaces, m, i + |v|, e);
      hide Occurs;
      ScanHit(Url(v), m, i);
    } else {
      hide Occurs;
      ScanCopy(Url(v), m, i);
      WrittenScan(v, m, i + 1, e);
      assert [m[i]] + (Written(v, m, i + 1, e) + rest) == [m[i]] + Written(v, m, i + 1, e) + rest;
    }
  }

  lemma NotAcrossSpace(v: string, m: string, i: nat, e: nat)
    requires Spaceless(v) && i <= e < |m| && IsSpace(m[e]) && i + |v| > e
    ensures !Occurs(m, i, v)
  {
    assert Lower(m[i + (e - i)]) != Lower(v[e - i]);
  }

  /** A word without white space found in a run ends in it. */
  lemma WithinRun(v: string, m: string, i: nat, e: nat)
    requires Spaceless(v) && i < e <= |m| && Occurs(m, i, v) && (e < |m| ==> IsSpace(m[e]))
    ensures i + |v| <= e
  {
    if e < |m| && i + |v| > e {
      NotAcrossSpace(v, m, i, e);
    }
  }

  /** The scheme comes through the pass of another one. */
  lemma {:induction false} WrittenStarts(v: string, w: string, m: string, h: nat, e: nat, d: nat)
    requires Apart(v, w) && Carries(w, m, h, e) && d <= |w|
    ensures Occurs(Written(v, m, h + d, e), 0, w[d..])
    decreases |w| - d
  {
    if d < |w| {
      assert Lower(m[h + d]) == Lower(w[d]);
      if Occurs(m, h + d, v) {
        SchemeFirst(v, w, m, h, d);
        assert w[0..] == w;
      } else {
        WrittenStarts(v, w, m, h, e, d + 1);
        assert w[d..][1..] == w[d + 1..];
        OccursCons(m[h + d], Written(v, m, h + d + 1, e), w[d..]);
      }
    }
  }

  lemma OverlapClash(v: string, w: string, m: string, h: nat, d: nat)
    requires Apart(v, w) && Occurs(m, h, w) && 1 <= d < |w|
    ensures !Occurs(m, h + d, v)
  {
    assert !StartsIn(w, d, v);
    assert Lower(m[h + d]) == Lower(w[d]);
    assert d + 1 < |w| ==> Lower(m[h + (d + 1)]) == Lower(w[d + 1]);
    if h + d + |v| <= |m| {
      assert Lower(m[h + d + 0]) != Lower(v[0]) || Lower(m[h + d + 1]) != Lower(v[1]);
    }
  }

  lemma PrefixClash(v: string, w: string, m: string, h: nat)
    requires Apart(v, w) && Occurs(m, h, w) && |v| < |w|
    ensures !Occurs(m, h, v)
  {
    var k :| 0 <= k < |v| && Lower(v[k]) != Lower(w[k]);
    assert Lower(m[h + k]) == Lower(w[k]);
  }

  lemma SchemeFirst(v: string, w: string, m: string, h: nat, d: nat)
    requires Apart(v, w) && Occurs(m, h, w) && d < |w| && Occurs(m, h + d, v)
    ensures d == 0 && Occurs(v + PLACEHOLDER, 0, w)
  {
    if d > 0 {
      OverlapClash(v, w, m, h, d);
    } else if |v| < |w| {
      PrefixClash(v, w, m, h);
    } else {
      forall k | 0 <= k < |w| ensures Lower((v + PLACEHOLDER)[0 + k]) == Lower(w[k]) {
        assert (v + PLACEHOLDER)[k] == v[k];
        assert Lower(m[h + k]) == Lower(v[k]) && Lower(m[h + k]) == Lower(w[k]);
      }
    }
  }

  /** Behind the URL both texts go on alike, and not at once with a hit. */
  lemma TwinTails(rule: Rule, w: string, m: string, e: nat, m': string, e': nat, h: nat)
    requires Twins(w, m, e, m', e', h) && rule.Needle() != "" && !IsSpace(rule.Needle()[0])
    ensures var rest := Scan(rule, m, e);
            rest == Scan(rule, m', e') && (rest == "" <==> e == |m|) && (e < |m| ==> rest[0] == m[e])
  {
    OccursNext(m, e, rule.Needle());
    OccursNext(m', e', rule.Needle());
    assert |m[e..]| == |m'[e'..]|;
    hide Occurs;
    hide Scan;
    SameTail(rule, m, e, m', e');
    if e < |m| {
      ScanCopy(rule, m, e);
    } else {
      ScanEnd(rule, m);
    }
  }

  lemma WrittenTwins(w: string, t: string, t': string, rest: string)
    requires Occurs(t, 0, w) && Occurs(t', 0, w) && (rest != "" ==> IsSpace(rest[0]))
    requires forall k :: 0 <= k < |t| ==> !IsSpace(t[k])
    requires forall k :: 0 <= k < |t'| ==> !IsSpace(t'[k])
    ensures Twins(w, t + rest, |t|, t' + rest, |t'|, 0)
  {
    var u, u' := t + rest, t' + rest;
    assert forall k :: 0 <= k < |t| ==> u[k] == t[k];
    assert forall k :: 0 <= k < |t'| ==> u'[k] == t'[k];
    assert u[|t|..] == rest == u'[|t'|..];
    forall k | 0 <= k < |w| ensures Lower(u[0 + k]) == Lower(w[k]) && Lower(u'[0 + k]) == Lower(w[k]) {
      assert Lower(t[0 + k]) == Lower(w[k]) && Lower(t'[0 + k]) == Lower(w[k]);
    }
  }

  lemma TwinUrls(v: string, w: string, m: string, e: nat, m': string, e': nat, h: nat)
    requires Twins(w, m, e, m', e', h) && Apart(v, w)
    ensures Alike(w, Scan(Url(v), m, h), Scan(Url(v), m', h))
  {
    TwinTails(Url(v), w, m, e, m', e', h);
    WrittenScan(v, m, h, e);
    WrittenScan(v, m', h, e');
    WrittenStarts(v, w, m, h, e, 0);
    WrittenStarts(v, w, m', h, e', 0);
    assert w[0..] == w;
    hide Written;
    hide Scan;
    hide Occurs;
    hide Apart;
    WrittenTwins(w, Written(v, m, h, e), Written(v, m', h, e'), Scan(Url(v), m, e));
  }

  lemma OwnCut(w: string, m: string, e: nat, h: nat)
    requires Carries(w, m, h, e) && Spaceless(w)
    ensures h < |m| && Url(w).Hits(m, h) && Url(w).Head(m, h) == w && Url(w).End(m, h) == e
  {
    RunIs(NonSpaces, m, h + |w|, e);
    hide Occurs;
    hide RunEnd;
  }

  lemma OwnUrls(w: string, m: string, e: nat, m': string, e': nat, h: nat)
    requires Twins(w, m, e, m', e', h) && Spaceless(w)
    ensures Scan(Url(w), m, h) == Scan(Url(w), m', h)
  {
    TwinTails(Url(w), w, m, e, m', e', h);
    OwnCut(w, m, e, h);
    OwnCut(w, m', e', h);
    hide *;
    ScanHit(Url(w), m, h);
    ScanHit(Url(w), m', h);
  }

  lemma TwinStep(v: string, w: string, m: string, e: nat, m': string, e': nat, h: nat, i: nat)
    requires Twins(w, m, e, m', e', h) && i < h && Spaceless(w) && (v == w || Apart(v, w))
    ensures i < |m| && i < |m'| && m[i] == m'[i] && v != "" && !IsSpace(v[0])
    ensures Occurs(m, i, v) <==> Occurs(m', i, v)
    ensures Occurs(m, i, v) ==>
              var a, a' := Url(v).End(m, i), Url(v).End(m', i); (i < a == a' < h) || (a == e && a' == e')
  {
    hide Occurs;
    if Occurs(m, i, v) {
      NotBeyond(v, w, m, h, i);
      TwinOccurs(v, w, m, e, m', e', h, i);
      TwinCut(v, w, m, e, m', e', h, i);
    }
    if Occurs(m', i, v) {
      TwinsSwap(w, m, e, m', e', h);
      NotBeyond(v, w, m', h, i);
      TwinOccurs(v, w, m', e', m, e, h, i);
    }
  }

  lemma TwinHit(v: string, w: string, m: string, m': string, i: nat)
    requires v != "" && i < |m| && i < |m'| && Occurs(m, i, v) && Occurs(m', i, v)
    requires Alike(w, Scan(Url(v), m, Url(v).End(m, i)), Scan(Url(v), m', Url(v).End(m', i)))
    ensures Alike(w, Scan(Url(v), m, i), Scan(Url(v), m', i))
    ensures Scan(Url(v), m, Url(v).End(m, i)) == Scan(Url(v), m', Url(v).End(m', i))
            ==> Scan(Url(v), m, i) == Scan(Url(v), m', i)
  {
    hide Scan;
    hide Occurs;
    hide RunEnd;
    hide Alike;
    ScanHit(Url(v), m, i);
    ScanHit(Url(v), m', i);
    AlikeBehind(w, v + PLACEHOLDER, Scan(Url(v), m, Url(v).End(m, i)), Scan(Url(v), m', Url(v).End(m', i)));
  }

  lemma TwinCopy(v: string, w: string, m: string, m': string, i: nat)
    requires v != "" && i < |m| && i < |m'| && m[i] == m'[i] && !Occurs(m, i, v) && !Occurs(m', i, v)
    requires Alike(w, Scan(Url(v), m, i + 1), Scan(Url(v), m', i + 1))
    ensures Alike(w, Scan(Url(v), m, i), Scan(Url(v), m', i))
    ensures Scan(Url(v), m, i + 1) == Scan(Url(v), m', i + 1) ==> Scan(Url(v), m, i) == Scan(Url(v), m', i)
  {
    hide Scan;
    hide Occurs;
    hide Alike;
    ScanCopy(Url(v), m, i);
    ScanCopy(Url(v), m', i);
    AlikeBehind(w, [m[i]], Scan(Url(v), m, i + 1), Scan(Url(v), m', i + 1));
  }

  /** The pass of another scheme keeps twins alike; the pass of the URL's own scheme makes them equal. */
  lemma {:induction false} TwinScan(v: string, w: string, m: string, e: nat, m': string, e': nat, h: nat, i: nat)
    requires Twins(w, m, e, m', e', h) && i <= h && Spaceless(w) && (v == w || Apart(v, w))
    ensures v != "" && h <= |m| && h <= |m'|
    ensures Alike(w, Scan(Url(v), m, i), Scan(Url(v), m', i))
    ensures v == w ==> Scan(Url(v), m, i) == Scan(Url(v), m', i)
    decreases h - i
  {
    hide Scan;
    hide Occurs;
    hide RunEnd;
    if i == h {
      if v == w {
        OwnUrls(w, m, e, m', e', h);
      } else {
        TwinUrls(v, w, m, e, m', e', h);
      }
    } else {
      TwinStep(v, w, m, e, m', e', h, i);
      if Occurs(m, i, v) {
        if Url(v).End(m, i) < h {
          TwinScan(v, w, m, e, m', e', h, Url(v).End(m, i));
        } else {
          TwinTails(Url(v), w, m, e, m', e', h);
        }
        hide Twins;
        TwinHit(v, w, m, m', i);
      } else {
        TwinScan(v, w, m, e, m', e', h, i + 1);
        hide Twins;
        TwinCopy(v, w, m, m', i);
      }
    }
  }

  lemma TwinsSwap(w: string, m: string, e: nat, m': string, e': nat, h: nat)
    requires Twins(w, m, e, m', e', h)
    ensures Twins(w, m', e', m, e, h)
  {
  }

  // ---------------------------------------------------------------- all URL passes

  /** The rules begin with URL passes of schemes apart from `w`, and come to the pass of `w`. */
  ghost predicate Reaches(rules: seq<Rule>, w: string) {
    rules != [] && (rules[0] == Url(w) || (rules[0].Url? && Apart(rules[0].scheme, w) && Reaches(rules[1..], w)))
  }

  lemma {:induction false} ReachesEqual(rules: seq<Rule>, w: string, m: string, m': string)
    requires Usable(rules) && Spaceless(w) && Reaches(rules, w) && Alike(w, m, m')
    ensures RedactAll(rules, m) == RedactAll(rules, m')
    decreases |rules|
  {
    if m != m' {
      var e: nat, e': nat, h: nat :| Twins(w, m, e, m', e', h);
      TwinScan(rules[0].scheme, w, m, e, m', e', h, 0);
      hide Alike;
      if rules[0] != Url(w) {
        ReachesEqual(rules[1..], w, Redact(rules[0], m), Redact(rules[0], m'));
      }
    }
  }

  ghost predicate AllApart(schemes: seq<string>, w: string) {
    forall i :: 0 <= i < |schemes| ==> Apart(schemes[i], w)
  }

  lemma {:induction false} ReachesBehind(schemes: seq<string>, rules: seq<Rule>, w: string)
    requires AllApart(schemes, w) && Reaches(rules, w)
    ensures Reaches(Urls(schemes) + rules, w)
    decreases |schemes|
  {
    if schemes == [] {
      assert Urls(schemes) + rules == rules;
    } else {
      ReachesBehind(schemes[1..], rules, w);
      assert (Urls(schemes) + rules)[1..] == Urls(schemes[1..]) + rules;
    }
  }

  lemma ReachesNow(w: string, rules: seq<Rule>)
    ensures Reaches([Url(w)] + rules, w)
  {
  }

  // ---------------------------------------------------------------- the schemes of the redactor

  const ALL_SCHEMES := [
    "postgres://", "postgresql://", "mysql://", "mongodb://", "sqlite://", "sqlite:", "redis://", "rediss://"]

  lemma SchemesSpaceless(i: nat)
    requires i < 8
    ensures Spaceless(ALL_SCHEMES[i])
  {
  }

  /** Each scheme is apart from those whose pass comes later. */
  lemma PostgresApartDatabases(j: nat)
    requires 1 <= j < 4
    ensures Apart("postgres://", ALL_SCHEMES[j])
  {
    assert "postgres://"[8] == ':' && ALL_SCHEMES[1][8] == 'q';
  }

  lemma PostgresApart(j: nat)
    requires 4 <= j < 8
    ensures Apart("postgres://", ALL_SCHEMES[j])
  {
  }

  lemma PostgresqlApartDatabases(j: nat)
    requires 2 <= j < 5
    ensures Apart("postgresql://", ALL_SCHEMES[j])
  {
  }

  lemma PostgresqlApart(j: nat)
    requires 5 <= j < 8
    ensures Apart("postgresql://", ALL_SCHEMES[j])
  {
  }

  lemma MysqlApart(j: nat)
    requires 3 <= j < 8
    ensures Apart("mysql://", ALL_SCHEMES[j])
  {
    assert "mysql://"[0] == 'm' && "mysql://"[1] == 'y' && ALL_SCHEMES[j][0] in "msr" && ALL_SCHEMES[3][1] == 'o';
  }

  lemma MongodbApart(j: nat)
    requires 4 <= j < 8
    ensures Apart("mongodb://", ALL_SCHEMES[j])
  {
  }

  lemma SqliteApart(j: nat)
    requires 5 <= j < 8
    ensures Apart("sqlite://", ALL_SCHEMES[j])
  {
  }

  lemma BareSqliteApart(j: nat)
    requires 6 <= j < 8
    ensures Apart("sqlite:", ALL_SCHEMES[j])
  {
    assert "sqlite:"[0] == 's' && ALL_SCHEMES[j][0] == 'r';
  }

  lemma RedisApart()
    ensures Apart("redis://", "rediss://")
  {
    assert "redis://"[5] == ':' && "rediss://"[5] == 's';
  }

  lemma SchemesApart(i: nat, j: nat)
    requires i < j < 8
    ensures Apart(ALL_SCHEMES[i], ALL_SCHEMES[j])
  {
    hide Apart;
    match i
    case 0 => if j < 4 { PostgresApartDatabases(j); } else { PostgresApart(j); }
    case 1 => if j < 5 { PostgresqlApartDatabases(j); } else { PostgresqlApart(j); }
    case 2 => MysqlApart(j);
    case 3 => MongodbApart(j);
    case 4 => SqliteApart(j);
    case 5 => BareSqliteApart(j);
    case 6 => RedisApart();
  }

  lemma ReachesNth(all: seq<string>, from: nat, j: nat, to: nat, rest: seq<Rule>)
    requires from <= j < to <= |all| && AllApart(all[from..j], all[j])
    ensures Reaches(Urls(all[from..to]) + rest, all[j])
  {
    var w, tail := all[j], Urls(all[j + 1..to]) + rest;
    ReachesNow(w, tail);
    ReachesBehind(all[from..j], [Url(w)] + tail, w);
    hide Reaches;
    hide AllApart;
    SplitUrls(all, from, j, to, rest);
    SplitUrls(all, j, j + 1, to, rest);
    assert Urls(all[j..j + 1]) == [Url(w)];
  }

  lemma SplitUrls(all: seq<string>, from: nat, j: nat, to: nat, rest: seq<Rule>)
    requires from <= j <= to <= |all|
    ensures Urls(all[from..to]) + rest == Urls(all[from..j]) + (Urls(all[j..to]) + rest)
  {
  }

  /** The URL passes come to the one of scheme `j`, whatever follows. */
  lemma ReachesScheme(from: nat, j: nat, to: nat, rest: seq<Rule>)
    requires from <= j < to <= 8
    ensures Reaches(Urls(ALL_SCHEMES[from..to]) + rest, ALL_SCHEMES[j])
  {
    hide Apart;
    forall i | from <= i < j ensures Apart(ALL_SCHEMES[i], ALL_SCHEMES[j]) {
      SchemesApart(i, j);
    }
    assert AllApart(ALL_SCHEMES[from..j], ALL_SCHEMES[j]);
    ReachesNth(ALL_SCHEMES, from, j, to, rest);
  }

  /** The passes behind the bearer passes. */
  function LaterRules(cfg: Config): seq<Rule> {
    When(cfg.databaseUrls, DatabaseRules()) + When(cfg.redisUrls, RedisRules())
    + When(cfg.providerKeys, ProviderRules()) + When(cfg.apiKeys, ApiKeyRules())
  }

  lemma SchemeIndex(cfg: Config, scheme: string) returns (j: nat)
    requires Enabled(cfg, scheme)
    ensures j < 8 && ALL_SCHEMES[j] == scheme && (if j < 6 then cfg.databaseUrls else cfg.redisUrls)
  {
    if cfg.databaseUrls && scheme in DATABASE_URL_SCHEMES {
      var i :| 0 <= i < 5 && DATABASE_URL_SCHEMES[i] == scheme;
      j := i;
    } else if cfg.databaseUrls && scheme == "sqlite:" {
      j := 5;
    } else {
      var i :| 0 <= i < 2 && REDIS_URL_SCHEMES[i] == scheme;
      j := 6 + i;
    }
  }

  lemma Regrouped(b: seq<Rule>, d: seq<Rule>, r: seq<Rule>, p: seq<Rule>, a: seq<Rule>)
    ensures b + d + r + p + a == b + (d + r + p + a) && d + r + p + a == d + r + (p + a)
  {
  }

  lemma LaterReaches(cfg: Config, scheme: string)
    requires Enabled(cfg, scheme)
    ensures Spaceless(scheme) && Reaches(LaterRules(cfg), scheme)
  {
    hide *;
    var j := SchemeIndex(cfg, scheme);
    SchemesSpaceless(j);
    LaterStarts(cfg);
    ReachesScheme(if cfg.databaseUrls then 0 else 6, j, if cfg.redisUrls then 8 else 6,
                  When(cfg.providerKeys, ProviderRules()) + When(cfg.apiKeys, ApiKeyRules()));
  }

  lemma LaterStarts(cfg: Config)
    requires cfg.databaseUrls || cfg.redisUrls
    ensures var from, to := if cfg.databaseUrls then 0 else 6, if cfg.redisUrls then 8 else 6;
            LaterRules(cfg)
            == Urls(ALL_SCHEMES[from..to])
               + (When(cfg.providerKeys, ProviderRules()) + When(cfg.apiKeys, ApiKeyRules()))
  {
    UrlRules(cfg, if cfg.databaseUrls then 0 else 6, if cfg.redisUrls then 8 else 6);
    hide ApiKeyRules;
    hide ProviderRules;
    hide DatabaseRules;
    hide RedisRules;
    hide When;
    hide Urls;
    Regrouped([], When(cfg.databaseUrls, DatabaseRules()), When(cfg.redisUrls, RedisRules()),
              When(cfg.providerKeys, ProviderRules()), When(cfg.apiKeys, ApiKeyRules()));
  }

  lemma UrlRules(cfg: Config, from: nat, to: nat)
    requires (cfg.databaseUrls || cfg.redisUrls) && from == (if cfg.databaseUrls then 0 else 6)
             && to == if cfg.redisUrls then 8 else 6
    ensures Urls(ALL_SCHEMES[from..to]) == When(cfg.databaseUrls, DatabaseRules()) + When(cfg.redisUrls, RedisRules())
  {
    assert ALL_SCHEMES == DATABASE_URL_SCHEMES + ["sqlite:"] + REDIS_URL_SCHEMES;
    assert ALL_SCHEMES[0..6] == DATABASE_URL_SCHEMES + ["sqlite:"] && ALL_SCHEMES[6..8] == REDIS_URL_SCHEMES;
    assert ALL_SCHEMES[0..8] == ALL_SCHEMES;
  }

  // ---------------------------------------------------------------- the bearer passes, where they find nothing

  /** No occurrence of `u` starts before `e`. */
  ghost predicate Free(u: string, m: string, e: nat) {
    forall i: nat :: i < e ==> !Occurs(m, i, u)
  }

  /** Nothing the bearer passes look for starts before `e`. */
  ghost predicate Quiet(m: string, e: nat) {
    Free("authorization:", m, e) && Free("bearer ", m, e)
  }

  lemma QuietScan(rule: Rule, m: string, e: nat)
    requires rule.Needle() != "" && e <= |m| && Free(rule.Needle(), m, e)
    ensures Redact(rule, m) == m[..e] + Scan(rule, m, e)
  {
    hide Scan;
    CopyRun(rule, m, 0, e);
    assert m[0..e] == m[..e];
  }

  lemma QuietTwins(rule: Rule, w: string, m: string, e: nat, m': string, e': nat, h: nat)
    requires Twins(w, m, e, m', e', h) && rule.Needle() != "" && !IsSpace(rule.Needle()[0])
    requires Free(rule.Needle(), m, e) && Free(rule.Needle(), m', e')
    ensures Twins(w, Redact(rule, m), e, Redact(rule, m'), e', h)
    ensures SameUpTo(m, Redact(rule, m), e) && SameUpTo(m', Redact(rule, m'), e')
  {
    TwinTails(rule, w, m, e, m', e', h);
    QuietScan(rule, m, e);
    QuietScan(rule, m', e');
    assert |m[e..]| == |m'[e'..]| && (e < |m| ==> m[e..][0] == m'[e'..][0]);
    var rest := Scan(rule, m, e);
    hide Scan;
    SameUpToTwins(w, m, e, m', e', h, rest);
  }

  /** The texts agree up to `e`, and including it if either goes on. */
  ghost predicate SameUpTo(m: string, t: string, e: nat) {
    && e <= |m| && e <= |t| && (e == |m| <==> e == |t|)
    && (forall k :: 0 <= k < e ==> t[k] == m[k]) && (e < |m| ==> t[e] == m[e])
  }

  lemma SameUpToTwins(w: string, m: string, e: nat, m': string, e': nat, h: nat, rest: string)
    requires Twins(w, m, e, m', e', h)
    requires (rest == "" <==> e == |m|) && (rest == "" <==> e' == |m'|)
    requires e < |m| ==> rest[0] == m[e]
    requires e' < |m'| ==> rest[0] == m'[e']
    ensures Twins(w, m[..e] + rest, e, m'[..e'] + rest, e', h)
    ensures SameUpTo(m, m[..e] + rest, e) && SameUpTo(m', m'[..e'] + rest, e')
  {
    var t, t' := m[..e] + rest, m'[..e'] + rest;
    assert t[e..] == rest == t'[e'..];
    forall k | 0 <= k < |w| ensures Lower(t[h + k]) == Lower(w[k]) && Lower(t'[h + k]) == Lower(w[k]) {
      assert t[h + k] == m[h + k] && t'[h + k] == m'[h + k];
    }
  }

  lemma StaysFree(u: string, m: string, t: string, e: nat)
    requires Free(u, m, e) && SameUpTo(m, t, e) && (e < |m| ==> IsSpace(m[e]))
    requires u != "" && forall k :: 0 <= k < |u| - 1 ==> !IsSpace(u[k])
    ensures Free(u, t, e)
  {
    forall i: nat | i < e ensures !Occurs(t, i, u) {
      assert !Occurs(m, i, u);
      if i + |u| <= |t| {
        if i + |u| > e + 1 {
          assert Lower(t[i + (e - i)]) != Lower(u[e - i]);
        } else {
          var k :| 0 <= k < |u| && Lower(m[i + k]) != Lower(u[k]);
          assert t[i + k] == m[i + k];
        }
      }
    }
  }

  lemma AnyCase(m: string, e: nat)
    ensures Free("Bearer ", m, e) <==> Free("bearer ", m, e)
  {
    assert forall k :: 0 <= k < 7 ==> Lower("Bearer "[k]) == Lower("bearer "[k]);
    forall i: nat ensures Occurs(m, i, "Bearer ") <==> Occurs(m, i, "bearer ") {
    }
  }

  lemma TwinEnds(w: string, m: string, e: nat, m': string, e': nat, h: nat)
    requires Twins(w, m, e, m', e', h)
    ensures (e < |m| ==> IsSpace(m[e])) && (e' < |m'| ==> IsSpace(m'[e']))
  {
  }

  /** A bearer-token pass that finds nothing up to the secret keeps the twins and leaves as little to find. */
  lemma QuietToken(u: string, w: string, m: string, e: nat, m': string, e': nat, h: nat)
    requires Twins(w, m, e, m', e', h) && Free("bearer ", m, e) && Free("bearer ", m', e')
             && (u == "Bearer " || u == "bearer ")
    ensures var t, t' := Redact(Token(u), m), Redact(Token(u), m');
            Twins(w, t, e, t', e', h) && Free("bearer ", t, e) && Free("bearer ", t', e')
  {
    AnyCase(m, e);
    AnyCase(m', e');
    TwinEnds(w, m, e, m', e', h);
    hide Twins;
    hide Free;
    QuietTwins(Token(u), w, m, e, m', e', h);
    StaysFree("bearer ", m, Redact(Token(u), m), e);
    StaysFree("bearer ", m', Redact(Token(u), m'), e');
  }

  lemma QuietHeader(w: string, m: string, e: nat, m': string, e': nat, h: nat)
    requires Twins(w, m, e, m', e', h) && Quiet(m, e) && Quiet(m', e')
    ensures var t, t' := Redact(Authorization, m), Redact(Authorization, m');
            Twins(w, t, e, t', e', h) && Free("bearer ", t, e) && Free("bearer ", t', e')
  {
    TwinEnds(w, m, e, m', e', h);
    hide Twins;
    hide Free;
    QuietTwins(Authorization, w, m, e, m', e', h);
    StaysFree("bearer ", m, Redact(Authorization, m), e);
    StaysFree("bearer ", m', Redact(Authorization, m'), e');
  }

  lemma QuietBearer(w: string, m: string, e: nat, m': string, e': nat, h: nat)
    requires Twins(w, m, e, m', e', h) && Quiet(m, e) && Quiet(m', e')
    ensures Usable(BearerRules()) && Twins(w, RedactAll(BearerRules(), m), e, RedactAll(BearerRules(), m'), e', h)
  {
    hide Twins;
    hide Redact;
    QuietHeader(w, m, e, m', e', h);
    var t, t' := Redact(Authorization, m), Redact(Authorization, m');
    QuietToken("Bearer ", w, t, e, t', e', h);
    var u, u' := Redact(Token("Bearer "), t), Redact(Token("Bearer "), t');
    QuietToken("bearer ", w, u, e, u', e', h);
    ThreePasses(m);
    ThreePasses(m');
  }

  lemma ThreePasses(m: string)
    ensures Usable(BearerRules())
    ensures RedactAll(BearerRules(), m) == Redact(Token("bearer "), Redact(Token("Bearer "), Redact(Authorization, m)))
  {
    hide Redact;
    NoRules(m);
    RedactOneMore([], Authorization, m);
    RedactOneMore([] + [Authorization], Token("Bearer "), m);
    RedactOneMore([] + [Authorization] + [Token("Bearer ")], Token("bearer "), m);
    assert BearerRules() == [] + [Authorization] + [Token("Bearer ")] + [Token("bearer ")];
  }

  // ---------------------------------------------------------------- the whole redactor

  /** A text with a secret in a URL: `marker` is the scheme in any case, the secret runs up to white space. */
  ghost predicate UrlText(scheme: string, before: string, marker: string, secret: string, after: string) {
    && |marker| == |scheme| && Occurs(marker, 0, scheme)
    && (forall k :: 0 <= k < |secret| ==> !IsSpace(secret[k]))
    && (after != "" ==> IsSpace(after[0]))
  }

  lemma TextCarries(scheme: string, before: string, marker: string, secret: string, after: string)
    requires UrlText(scheme, before, marker, secret, after) && Spaceless(scheme)
    ensures var m, e := before + marker + secret + after, |before + marker + secret|;
            Carries(scheme, m, |before|, e) && m[e..] == after
  {
    var u, m := before + marker, before + marker + secret + after;
    var h, e := |before|, |before + marker + secret|;
    assert u[h..] == marker;
    OccursInTail(u, h, marker, 0, scheme);
    ExtendsSum(u, secret, after);
    OccursSame(u, m, h, scheme);
    TailIs(u, secret, after);
    forall k | h <= k < e ensures !IsSpace(m[k]) {
      if k < |u| {
        SolidText(Url(scheme), m, h, k);
      } else {
        assert m[k] == secret[k - |u|];
      }
    }
    assert e < |m| ==> m[e] == m[e..][0];
  }

  lemma TextTwins(scheme: string, before: string, marker: string, secret: string, secret': string, after: string)
    requires UrlText(scheme, before, marker, secret, after) && UrlText(scheme, before, marker, secret', after)
             && Spaceless(scheme)
    ensures Twins(scheme, before + marker + secret + after, |before + marker + secret|,
                  before + marker + secret' + after, |before + marker + secret'|, |before|)
  {
    hide Occurs;
    TextCarries(scheme, before, marker, secret, after);
    TextCarries(scheme, before, marker, secret', after);
  }

  lemma LaterUsable(cfg: Config)
    ensures Usable(LaterRules(cfg)) && Usable(BearerRules())
  {
    hide BearerRules;
    hide DatabaseRules;
    hide RedisRules;
    hide ProviderRules;
    hide ApiKeyRules;
    hide Foreign;
    UrlRulesForeign();
    TokenRulesForeign();
    ApiKeyForeign();
    ForeignUsable(BearerRules());
    ForeignUsable(LaterRules(cfg));
  }

  lemma LaterEqual(cfg: Config, scheme: string, m: string, m': string)
    requires Enabled(cfg, scheme) && Alike(scheme, m, m')
    ensures Usable(LaterRules(cfg)) && RedactAll(LaterRules(cfg), m) == RedactAll(LaterRules(cfg), m')
  {
    LaterUsable(cfg);
    LaterReaches(cfg, scheme);
    hide LaterRules;
    hide Alike;
    hide Enabled;
    hide Reaches;
    hide RedactAll;
    ReachesEqual(LaterRules(cfg), scheme, m, m');
  }

  /** Whatever the message around it and whichever passes are on, the output does not depend on the secret of a
      URL whose scheme is redacted, provided nothing the bearer passes look for starts before the secret ends. */
  lemma UrlSecretIsGone(cfg: Config, scheme: string, before: string, marker: string, secret: string, secret': string,
      after: string)
    requires Enabled(cfg, scheme)
    requires UrlText(scheme, before, marker, secret, after) && UrlText(scheme, before, marker, secret', after)
    requires cfg.bearerTokens ==>
               && Quiet(before + marker + secret + after, |before + marker + secret|)
               && Quiet(before + marker + secret' + after, |before + marker + secret'|)
    ensures RedactString(before + marker + secret + after, cfg) == RedactString(before + marker + secret' + after, cfg)
  {
    LaterReaches(cfg, scheme);
    TextTwins(scheme, before, marker, secret, secret', after);
    hide UrlText;
    hide Twins;
    hide Quiet;
    hide LaterRules;
    hide RedactAll;
    var m, m' := before + marker + secret + after, before + marker + secret' + after;
    var e, e', h := |before + marker + secret|, |before + marker + secret'|, |before|;
    BearerThenLater(cfg, m);
    BearerThenLater(cfg, m');
    if cfg.bearerTokens {
      QuietBearer(scheme, m, e, m', e', h);
      LaterEqual(cfg, scheme, RedactAll(BearerRules(), m), RedactAll(BearerRules(), m'));
    } else {
      LaterEqual(cfg, scheme, m, m');
    }
  }

  lemma RulesSplit(cfg: Config)
    ensures Rules(cfg) == When(cfg.bearerTokens, BearerRules()) + LaterRules(cfg)
  {
    hide BearerRules;
    hide DatabaseRules;
    hide RedisRules;
    hide ProviderRules;
    hide ApiKeyRules;
    hide When;
    Regrouped(When(cfg.bearerTokens, BearerRules()), When(cfg.databaseUrls, DatabaseRules()),
              When(cfg.redisUrls, RedisRules()), When(cfg.providerKeys, ProviderRules()),
              When(cfg.apiKeys, ApiKeyRules()));
  }

  lemma BearerThenLater(cfg: Config, m: string)
    ensures Usable(LaterRules(cfg)) && Usable(BearerRules())
    ensures RedactString(m, cfg)
         == RedactAll(LaterRules(cfg), if cfg.bearerTokens then RedactAll(BearerRules(), m) else m)
  {
    hide BearerRules;
    hide DatabaseRules;
    hide RedisRules;
    hide ProviderRules;
    hide ApiKeyRules;
    hide RedactAll;
    LaterUsable(cfg);
    RulesSplit(cfg);
    hide LaterRules;
    hide Rules;
    NoRules(m);
    RedactAllConcat(When(cfg.bearerTokens, BearerRules()), LaterRules(cfg), m);
  }
}
