/** URL secrets behind text the bearer passes redact: hidden, too, if they hold no delimiter. */
module RedactionUrlSecrets {
  import opened Prelude
  import opened Redaction
  import opened RedactionProperties
  import opened RedactionPipeline
  import opened RedactionSecrecy
  import opened RedactionEndToEnd
  import opened RedactionStability
  import opened RedactionIdempotence

  // ---------------------------------------------------------------- calm twins

  ghost predicate Unbroken(m: string, h: nat, e: nat)
    requires e <= |m|
  {
    forall k :: h <= k < e ==> !IsDelimiter(m[k])
  }

  /** Twins whose URLs hold no delimiter, and nothing the bearer passes look for starts in them. */
  ghost predicate CalmTwins(w: string, m: string, e: nat, m': string, e': nat, h: nat) {
    && Twins(w, m, e, m', e', h) && Unbroken(m, h, e) && Unbroken(m', h, e')
    && Quiet(m[h..], e - h) && Quiet(m'[h..], e' - h)
  }

  ghost predicate CalmAlike(w: string, t: string, t': string) {
    t == t' || exists e: nat, e': nat, h: nat :: CalmTwins(w, t, e, t', e', h)
  }

  lemma CalmBehind(w: string, x: string, t: string, e: nat, t': string, e': nat, h: nat)
    requires CalmTwins(w, t, e, t', e', h)
    ensures CalmTwins(w, x + t, |x| + e, x + t', |x| + e', |x| + h)
  {
    var n := |x|;
    var u, u' := x + t, x + t';
    TwinsBehind(w, x, t, e, t', e', h);
    assert u[n + h..] == t[h..] && u'[n + h..] == t'[h..];
    assert forall k :: n + h <= k < n + e ==> u[k] == t[k - n];
    assert forall k :: n + h <= k < n + e' ==> u'[k] == t'[k - n];
    hide Twins;
    hide Quiet;
  }

  lemma CalmAlikeBehind(w: string, x: string, t: string, t': string)
    requires CalmAlike(w, t, t')
    ensures CalmAlike(w, x + t, x + t')
  {
    if t != t' {
      var e: nat, e': nat, h: nat :| CalmTwins(w, t, e, t', e', h);
      hide CalmTwins;
      CalmBehind(w, x, t, e, t', e', h);
    }
  }

  ghost predicate IsBearer(rule: Rule) {
    rule == Authorization || rule == Token("Bearer ") || rule == Token("bearer ")
  }

  lemma HeaderChars()
    ensures var u := "authorization:"; u[13] == ':' && forall k :: 0 <= k < 13 ==> !IsSpace(u[k])
    ensures var u := "Bearer "; u[6] == ' ' && forall k :: 0 <= k < 6 ==> !IsSpace(u[k])
    ensures var u := "bearer "; u[6] == ' ' && forall k :: 0 <= k < 6 ==> !IsSpace(u[k])
  {
  }

  lemma BearerLeads(rule: Rule)
    requires IsBearer(rule)
    ensures Led(rule.Needle())
  {
    hide Orderly;
    HeaderOrderly();
    BearerOrderly();
    assert Orderly(rule);
    OrderlyFacts(rule);
    hide Led;
  }

  lemma BearerFacts(rule: Rule)
    requires IsBearer(rule)
    ensures rule.Needle() != "" && Led(rule.Needle()) && !IsSpace(rule.Needle()[0]) && rule.Body() == NonDelimiters
    ensures var u := rule.Needle(); (u[|u| - 1] == ':' || u[|u| - 1] == ' ')
    ensures var u := rule.Needle(); forall k :: 0 <= k < |u| - 1 ==> !IsSpace(u[k])
  {
    BearerLeads(rule);
    hide Led;
    HeaderChars();
  }

  lemma CalmFree(rule: Rule, t: string, e: nat)
    requires IsBearer(rule) && Quiet(t, e)
    ensures Free(rule.Needle(), t, e)
  {
    AnyCase(t, e);
    hide Free;
  }

  // ---------------------------------------------------------------- at the URL

  lemma FreeUnhit(rule: Rule, m: string, h: nat, e: nat, k: nat)
    requires h <= k < e <= |m| && Free(rule.Needle(), m[h..], e - h)
    ensures !rule.Hits(m, k)
  {
    OccursInTail(m, h, m[h..], k - h, rule.Needle());
    assert !Occurs(m[h..], k - h, rule.Needle());
    hide Occurs;
  }

  lemma CalmUnhit(rule: Rule, m: string, h: nat, e: nat)
    requires IsBearer(rule) && h <= e <= |m| && Quiet(m[h..], e - h)
    ensures rule.Needle() != "" && Scan(rule, m, h) == m[h..e] + Scan(rule, m, e)
  {
    hide *;
    BearerFacts(rule);
    CalmFree(rule, m[h..], e - h);
    forall k | h <= k < e ensures !rule.Hits(m, k) {
      FreeUnhit(rule, m, h, e, k);
    }
    CopyUnhit(rule, m, h, e);
  }

  lemma StaysQuiet(m: string, t: string, e: nat)
    requires Quiet(m, e) && SameUpTo(m, t, e) && (e < |m| ==> IsSpace(m[e]))
    ensures Quiet(t, e)
  {
    BearerFacts(Authorization);
    BearerFacts(Token("bearer "));
    hide Free;
    StaysFree("authorization:", m, t, e);
    StaysFree("bearer ", m, t, e);
  }

  lemma RestSame(m: string, h: nat, e: nat, rest: string)
    requires h <= e <= |m| && (rest == "" <==> e == |m|) && (e < |m| ==> rest[0] == m[e])
    ensures SameUpTo(m[h..], m[h..e] + rest, e - h) && (m[h..e] + rest)[e - h..] == rest
  {
  }

  lemma CalmCopied(w: string, m: string, e: nat, h: nat, rest: string, t: string)
    requires Carries(w, m, h, e) && Unbroken(m, h, e) && Quiet(m[h..], e - h) && t == m[h..e] + rest
    requires (rest == "" <==> e == |m|) && (e < |m| ==> rest[0] == m[e])
    ensures e - h <= |t| && t[e - h..] == rest
    ensures Carries(w, t, 0, e - h) && Unbroken(t, 0, e - h) && Quiet(t[0..], e - h)
  {
    RestSame(m, h, e, rest);
    assert e - h < |m[h..]| ==> m[h..][e - h] == m[e];
    StaysQuiet(m[h..], t, e - h);
    assert t[0..] == t;
    OccursInTail(m, h, m[h..], 0, w);
    OccursSame(m[h..e], m[h..], 0, w);
    OccursSame(m[h..e], t, 0, w);
    assert forall k :: 0 <= k < e - h ==> t[k] == m[h + k];
    hide Quiet;
    hide Occurs;
  }

  lemma CalmUrls(rule: Rule, w: string, m: string, e: nat, m': string, e': nat, h: nat)
    requires IsBearer(rule) && CalmTwins(w, m, e, m', e', h)
    ensures rule.Needle() != "" && h <= |m| && h <= |m'| && CalmAlike(w, Scan(rule, m, h), Scan(rule, m', h))
  {
    BearerFacts(rule);
    TwinTails(rule, w, m, e, m', e', h);
    CalmUnhit(rule, m, h, e);
    CalmUnhit(rule, m', h, e');
    var rest := Scan(rule, m, e);
    assert |m[e..]| == |m'[e'..]| && (e < |m| ==> m[e..][0] == m'[e'..][0]);
    hide IsBearer;
    hide Scan;
    hide Quiet;
    hide Carries;
    CalmCopied(w, m, e, h, rest, Scan(rule, m, h));
    CalmCopied(w, m', e', h, rest, Scan(rule, m', h));
    assert CalmTwins(w, Scan(rule, m, h), e - h, Scan(rule, m', h), e' - h, 0);
  }

  // ---------------------------------------------------------------- in front of the URL

  /** The texts agree up to `h`. */
  ghost predicate Agree(m: string, m': string, h: nat) {
    h <= |m| && h <= |m'| && forall k :: 0 <= k < h ==> m[k] == m'[k]
  }

  lemma AgreeOccurs(m: string, m': string, h: nat, i: nat, u: string)
    requires Agree(m, m', h) && i + |u| <= h
    ensures Occurs(m, i, u) <==> Occurs(m', i, u)
  {
    if Occurs(m, i, u) {
      forall k | 0 <= k < |u| ensures Lower(m'[i + k]) == Lower(u[k]) {
        OccursChar(m, i, u, k);
      }
    }
    if Occurs(m', i, u) {
      forall k | 0 <= k < |u| ensures Lower(m[i + k]) == Lower(u[k]) {
        OccursChar(m', i, u, k);
      }
    }
  }

  /** A needle that starts in front of a scheme ends in front of it. */
  lemma EndsBefore(u: string, w: string, m: string, h: nat, i: nat)
    requires Led(u) && Led(w) && (u[|u| - 1] == ':' || u[|u| - 1] == ' ')
    requires i < h && Occurs(m, h, w) && Occurs(m, i, u)
    ensures i + |u| <= h
  {
    if i + |u| > h {
      NotInside(u, m, i, h - i, w);
    }
  }

  lemma AgreeNeedle(u: string, w: string, m: string, m': string, h: nat, i: nat)
    requires Led(u) && Led(w) && (u[|u| - 1] == ':' || u[|u| - 1] == ' ') && Agree(m, m', h)
    requires i < h && Occurs(m, h, w) && Occurs(m', h, w)
    ensures Occurs(m, i, u) <==> Occurs(m', i, u)
    ensures Occurs(m, i, u) ==> i + |u| <= h
  {
    hide Occurs;
    hide Led;
    if Occurs(m, i, u) {
      EndsBefore(u, w, m, h, i);
      AgreeOccurs(m, m', h, i, u);
    }
    if Occurs(m', i, u) {
      EndsBefore(u, w, m', h, i);
      AgreeOccurs(m, m', h, i, u);
    }
  }

  lemma AgreeRun(cl: Class, m: string, m': string, h: nat, i: nat)
    requires Agree(m, m', h) && i <= h
    ensures RunEnd(cl, m, i) < h ==> RunEnd(cl, m', i) == RunEnd(cl, m, i)
    ensures RunEnd(cl, m, i) >= h ==> RunEnd(cl, m, i) == RunEnd(cl, m, h) && RunEnd(cl, m', i) == RunEnd(cl, m', h)
  {
    RunIsMaximal(cl, m, i);
    RunIsMaximal(cl, m, h);
    RunIsMaximal(cl, m', h);
    if RunEnd(cl, m, i) < h {
      RunIs(cl, m', i, RunEnd(cl, m, i));
    } else {
      RunIs(cl, m, i, RunEnd(cl, m, h));
      RunIs(cl, m', i, RunEnd(cl, m', h));
    }
  }

  /** What both texts show from the URL on. */
  ghost predicate CalmUrl(w: string, m: string, h: nat, e: nat) {
    && Led(w) && Occurs(m, h, w) && h < e <= |m| && !Occurs(m, h, "bearer ")
    && RunEnd(Spaces, m, h) == h && RunEnd(NonDelimiters, m, h) == e
  }

  lemma CalmUrlIs(w: string, m: string, h: nat, e: nat)
    requires Led(w) && Carries(w, m, h, e) && Unbroken(m, h, e) && Quiet(m[h..], e - h)
    ensures CalmUrl(w, m, h, e)
  {
    LedStart(w);
    OccursInTail(m, h, m[h..], 0, "bearer ");
    assert !Occurs(m[h..], 0, "bearer ");
    assert h < e;
    hide Occurs;
    hide Led;
    RunIs(Spaces, m, h, h);
    RunIs(NonDelimiters, m, h, e);
  }

  lemma HeaderAgrees(w: string, m: string, m': string, h: nat, e: nat, e': nat, i: nat)
    requires Agree(m, m', h) && CalmUrl(w, m, h, e) && CalmUrl(w, m', h, e') && i + 14 <= h
    requires Occurs(m, i, "authorization:") && Occurs(m', i, "authorization:")
    ensures Authorization.Kept(m, i) == Authorization.Kept(m', i) <= h
    ensures Authorization.Head(m, i) == Authorization.Head(m', i)
  {
    var v := RunEnd(Spaces, m, i + 14);
    hide Occurs;
    hide Led;
    AgreeRun(Spaces, m, m', h, i + 14);
    hide RunEnd;
    if v < h {
      BearerLed();
      AgreeNeedle("bearer ", w, m, m', h, v);
    }
    assert m[i..v] == m'[i..v];
  }

  lemma KeptAgrees(rule: Rule, w: string, m: string, m': string, h: nat, e: nat, e': nat, i: nat)
    requires IsBearer(rule) && Agree(m, m', h) && CalmUrl(w, m, h, e) && CalmUrl(w, m', h, e')
    requires i + |rule.Needle()| <= h && Occurs(m, i, rule.Needle()) && Occurs(m', i, rule.Needle())
    ensures rule.Kept(m, i) == rule.Kept(m', i) <= h && rule.Head(m, i) == rule.Head(m', i)
  {
    hide Occurs;
    hide RunEnd;
    if rule.Authorization? {
      HeaderAgrees(w, m, m', h, e, e', i);
    } else {
      assert m[i..i + |rule.Needle()|] == m'[i..i + |rule.Needle()|];
    }
  }

  lemma CutAgrees(rule: Rule, w: string, m: string, m': string, h: nat, e: nat, e': nat, i: nat)
    requires IsBearer(rule) && Agree(m, m', h) && CalmUrl(w, m, h, e) && CalmUrl(w, m', h, e')
    requires Occurs(m, i, rule.Needle()) && Occurs(m', i, rule.Needle())
    requires rule.Kept(m, i) == rule.Kept(m', i) <= h
    ensures (rule.End(m, i) == rule.End(m', i) < h) || (rule.End(m, i) == e && rule.End(m', i) == e')
  {
    hide Occurs;
    AgreeRun(NonDelimiters, m, m', h, rule.Kept(m, i));
    hide RunEnd;
  }

  lemma AgreeHits(rule: Rule, w: string, m: string, m': string, h: nat, e: nat, e': nat, i: nat)
    requires IsBearer(rule) && Agree(m, m', h) && CalmUrl(w, m, h, e) && CalmUrl(w, m', h, e') && i < h
    ensures rule.Hits(m, i) <==> rule.Hits(m', i)
    ensures rule.Hits(m, i) ==> i + |rule.Needle()| <= h
  {
    BearerFacts(rule);
    hide IsBearer;
    hide Occurs;
    hide Led;
    AgreeNeedle(rule.Needle(), w, m, m', h, i);
  }

  lemma CalmHitStep(rule: Rule, w: string, m: string, a: nat, m': string, a': nat, i: nat)
    requires rule.Needle() != "" && i < |m| && i < |m'| && rule.Hits(m, i) && rule.Hits(m', i)
    requires Occurs(m, i, rule.Needle()) && Occurs(m', i, rule.Needle()) && rule.Head(m, i) == rule.Head(m', i)
    requires a == rule.End(m, i) && a' == rule.End(m', i) && CalmAlike(w, Scan(rule, m, a), Scan(rule, m', a'))
    ensures CalmAlike(w, Scan(rule, m, i), Scan(rule, m', i))
  {
    hide *;
    ScanHit(rule, m, i);
    ScanHit(rule, m', i);
    CalmAlikeBehind(w, rule.Head(m, i) + PLACEHOLDER, Scan(rule, m, a), Scan(rule, m', a'));
  }

  lemma CalmCopyStep(rule: Rule, w: string, m: string, m': string, h: nat, i: nat)
    requires rule.Needle() != "" && Agree(m, m', h) && i < h && !rule.Hits(m, i) && !rule.Hits(m', i)
    requires i < |m| && i < |m'| && CalmAlike(w, Scan(rule, m, i + 1), Scan(rule, m', i + 1))
    ensures CalmAlike(w, Scan(rule, m, i), Scan(rule, m', i))
  {
    hide *;
    AgreeAt(m, m', h, i);
    ScanCopy(rule, m, i);
    ScanCopy(rule, m', i);
    CalmAlikeBehind(w, [m[i]], Scan(rule, m, i + 1), Scan(rule, m', i + 1));
  }

  /** A bearer pass keeps calm twins alike, whatever it cuts in front of their URLs. */
  lemma {:induction false} CalmScan(rule: Rule, w: string, m: string, e: nat, m': string, e': nat, h: nat, i: nat)
    requires IsBearer(rule) && Led(w) && CalmTwins(w, m, e, m', e', h) && i <= h
    ensures rule.Needle() != "" && h <= |m| && h <= |m'| && CalmAlike(w, Scan(rule, m, i), Scan(rule, m', i))
    decreases h - i
  {
    hide *;
    CalmParts(w, m, e, m', e', h);
    BearerFacts(rule);
    if i == h {
      CalmUrls(rule, w, m, e, m', e', h);
    } else {
      AgreeHits(rule, w, m, m', h, e, e', i);
      if rule.Hits(m, i) {
        CalmHit(rule, w, m, e, m', e', h, i);
        if rule.End(m, i) < h {
          CalmScan(rule, w, m, e, m', e', h, rule.End(m, i));
        } else {
          TwinTails(rule, w, m, e, m', e', h);
          EqualAlike(w, Scan(rule, m, e), Scan(rule, m', e'));
        }
        CalmHitStep(rule, w, m, rule.End(m, i), m', rule.End(m', i), i);
      } else {
        CalmScan(rule, w, m, e, m', e', h, i + 1);
        CalmCopyStep(rule, w, m, m', h, i);
      }
    }
  }

  lemma AgreeAt(m: string, m': string, h: nat, i: nat)
    requires Agree(m, m', h) && i < h
    ensures i < |m| && i < |m'| && m[i] == m'[i]
  {
  }

  lemma EqualAlike(w: string, t: string, t': string)
    requires t == t'
    ensures CalmAlike(w, t, t')
  {
  }

  lemma CalmParts(w: string, m: string, e: nat, m': string, e': nat, h: nat)
    requires Led(w) && CalmTwins(w, m, e, m', e', h)
    ensures Twins(w, m, e, m', e', h) && Agree(m, m', h) && CalmUrl(w, m, h, e) && CalmUrl(w, m', h, e')
    ensures h < e <= |m| && h < e' <= |m'|
  {
    hide Led;
    hide Quiet;
    CalmUrlIs(w, m, h, e);
    CalmUrlIs(w, m', h, e');
    hide Occurs;
    hide RunEnd;
  }

  lemma CalmHit(rule: Rule, w: string, m: string, e: nat, m': string, e': nat, h: nat, i: nat)
    requires IsBearer(rule) && Agree(m, m', h) && CalmUrl(w, m, h, e) && CalmUrl(w, m', h, e')
    requires rule.Hits(m, i) && rule.Hits(m', i) && i + |rule.Needle()| <= h
    ensures Occurs(m, i, rule.Needle()) && Occurs(m', i, rule.Needle()) && rule.Head(m, i) == rule.Head(m', i)
    ensures i < rule.End(m, i)
    ensures (rule.End(m, i) == rule.End(m', i) < h) || (rule.End(m, i) == e && rule.End(m', i) == e')
  {
    hide *;
    BearerFacts(rule);
    HitOccurs(rule, m, i);
    HitOccurs(rule, m', i);
    KeptAgrees(rule, w, m, m', h, e, e', i);
    CutAgrees(rule, w, m, m', h, e, e', i);
    HitAdvances(rule, m, i);
  }

  // ---------------------------------------------------------------- the whole redactor

  lemma CalmPass(rule: Rule, w: string, t: string, t': string)
    requires IsBearer(rule) && Led(w) && CalmAlike(w, t, t')
    ensures rule.Needle() != "" && CalmAlike(w, Redact(rule, t), Redact(rule, t'))
  {
    BearerFacts(rule);
    hide IsBearer;
    hide Led;
    if t != t' {
      var e: nat, e': nat, h: nat :| CalmTwins(w, t, e, t', e', h);
      hide CalmTwins;
      hide Scan;
      CalmScan(rule, w, t, e, t', e', h, 0);
    }
  }

  lemma CalmBearer(w: string, m: string, m': string)
    requires Led(w) && CalmAlike(w, m, m')
    ensures Usable(BearerRules()) && CalmAlike(w, RedactAll(BearerRules(), m), RedactAll(BearerRules(), m'))
  {
    assert IsBearer(Authorization) && IsBearer(Token("Bearer ")) && IsBearer(Token("bearer "));
    hide *;
    ThreePasses(m);
    ThreePasses(m');
    CalmPass(Authorization, w, m, m');
    var t, t' := Redact(Authorization, m), Redact(Authorization, m');
    CalmPass(Token("Bearer "), w, t, t');
    CalmPass(Token("bearer "), w, Redact(Token("Bearer "), t), Redact(Token("Bearer "), t'));
  }

  lemma CalmIsAlike(w: string, t: string, t': string)
    requires CalmAlike(w, t, t')
    ensures Alike(w, t, t')
  {
    if t != t' {
      var e: nat, e': nat, h: nat :| CalmTwins(w, t, e, t', e', h);
      assert Twins(w, t, e, t', e', h);
    }
  }

  ghost predicate Whole(w: string) {
    forall k :: 0 <= k < |w| ==> !IsDelimiter(w[k])
  }

  lemma PostgresWhole() ensures Whole("postgres://") && Whole("postgresql://") { }
  lemma MysqlWhole() ensures Whole("mysql://") && Whole("mongodb://") { }
  lemma SqliteWhole() ensures Whole("sqlite://") && Whole("sqlite:") { }
  lemma RedisWhole() ensures Whole("redis://") && Whole("rediss://") { }

  lemma SchemeFacts(cfg: Config, w: string)
    requires Enabled(cfg, w)
    ensures Led(w) && Whole(w) && Spaceless(w)
  {
    var j := SchemeIndex(cfg, w);
    SchemesSpaceless(j);
    hide Enabled;
    hide Orderly;
    hide Whole;
    hide Spaceless;
    PostgresWhole();
    MysqlWhole();
    SqliteWhole();
    RedisWhole();
    PostgresOrderly();
    MysqlOrderly();
    SqliteOrderly();
    RedisOrderly();
    assert Orderly(Url(w));
    OrderlyFacts(Url(w));
    hide Led;
  }

  /** The secret holds no delimiter, and nothing the bearer passes look for starts in the URL. */
  ghost predicate CalmSecret(marker: string, secret: string, after: string) {
    Whole(secret) && Quiet(marker + secret + after, |marker + secret|)
  }

  lemma CalmUnbroken(w: string, before: string, marker: string, secret: string, after: string)
    requires Whole(w) && Whole(secret) && |marker| == |w| && Occurs(marker, 0, w)
    ensures var m, e := before + marker + secret + after, |before + marker + secret|;
            e <= |m| && Unbroken(m, |before|, e) && m[|before|..] == marker + secret + after
  {
    var m, h, e := before + marker + secret + after, |before|, |before + marker + secret|;
    forall k | h <= k < e ensures !IsDelimiter(m[k]) {
      if k < h + |marker| {
        OccursChar(marker, 0, w, k - h);
        assert m[k] == marker[k - h] && !IsDelimiter(w[k - h]);
      } else {
        assert m[k] == secret[k - h - |marker|];
      }
    }
  }

  lemma CalmTexts(w: string, before: string, marker: string, secret: string, secret': string, after: string)
    requires Led(w) && Whole(w) && Spaceless(w)
    requires UrlText(w, before, marker, secret, after) && UrlText(w, before, marker, secret', after)
    requires CalmSecret(marker, secret, after) && CalmSecret(marker, secret', after)
    ensures CalmAlike(w, before + marker + secret + after, before + marker + secret' + after)
  {
    TextTwins(w, before, marker, secret, secret', after);
    CalmUnbroken(w, before, marker, secret, after);
    CalmUnbroken(w, before, marker, secret', after);
    var m, m' := before + marker + secret + after, before + marker + secret' + after;
    var e, e', h := |before + marker + secret|, |before + marker + secret'|, |before|;
    hide Twins;
    hide Quiet;
    hide Unbroken;
    assert CalmTwins(w, m, e, m', e', h);
  }

  /** Whatever the message around it and whichever passes are on, the output does not depend on the secret of a
      redacted URL, if nothing the bearer passes look for starts in the URL, and the secret holds no delimiter or
      nothing of the kind starts in front of it, either. */
  lemma UrlSecretHidden(cfg: Config, scheme: string, before: string, marker: string, secret: string,
                        secret': string, after: string)
    requires Enabled(cfg, scheme)
    requires UrlText(scheme, before, marker, secret, after) && UrlText(scheme, before, marker, secret', after)
    requires cfg.bearerTokens ==>
               || (CalmSecret(marker, secret, after) && CalmSecret(marker, secret', after))
               || (Quiet(before + marker + secret + after, |before + marker + secret|)
                   && Quiet(before + marker + secret' + after, |before + marker + secret'|))
    ensures RedactString(before + marker + secret + after, cfg) == RedactString(before + marker + secret' + after, cfg)
  {
    hide *;
    if cfg.bearerTokens && CalmSecret(marker, secret, after) && CalmSecret(marker, secret', after) {
      SchemeFacts(cfg, scheme);
      CalmTexts(scheme, before, marker, secret, secret', after);
      var m, m' := before + marker + secret + after, before + marker + secret' + after;
      CalmBearer(scheme, m, m');
      CalmIsAlike(scheme, RedactAll(BearerRules(), m), RedactAll(BearerRules(), m'));
      BearerThenLater(cfg, m);
      BearerThenLater(cfg, m');
      LaterEqual(cfg, scheme, RedactAll(BearerRules(), m), RedactAll(BearerRules(), m'));
    } else {
      UrlSecretIsGone(cfg, scheme, before, marker, secret, secret', after);
    }
  }
}
