/** Why URL secrecy asks for quiet bearer passes: a secret that looks like a header shows. */
module RedactionOverreach {
  import opened Prelude
  import opened Redaction
  import opened RedactionProperties
  import opened RedactionPipeline
  import opened RedactionSecrecy
  import opened RedactionEndToEnd

  // ---------------------------------------------------------------- a last word that stays

  /** The text ends in a word of its own, behind a character no pass takes for the end of its needle. */
  ghost predicate Tail(m: string) {
    |m| >= 3 && m[|m| - 3] in "x]" && m[|m| - 2] == '\t' && m[|m| - 1] == 'w'
  }

  /** A needle that cannot reach that word. */
  ghost predicate Tame(w: string) {
    |w| >= 2 && (forall k :: 0 <= k < |w| ==> w[k] != '\t') && Lower(w[|w| - 1]) !in "x]"
  }

  lemma TailBehind(x: string, t: string)
    requires Tail(t)
    ensures Tail(x + t)
  {
  }

  lemma TailCut(x: string)
    ensures Tail(x + PLACEHOLDER + "\tw")
  {
    var t := x + PLACEHOLDER + "\tw";
    assert t[|x| + 9] == PLACEHOLDER[9];
  }

  /** No needle is found from the end of the front part on, nor across it. */
  lemma TameFits(w: string, m: string, i: nat)
    requires Tame(w) && Tail(m) && Occurs(m, i, w)
    ensures i + |w| <= |m| - 3
  {
    var q := |m| - 3;
    if i + |w| == q + 1 {
      OccursChar(m, i, w, |w| - 1);
    } else if i + |w| > q + 1 && i <= q + 1 {
      OccursChar(m, i, w, q + 1 - i);
    }
  }

  lemma BearerFits(m: string, v: nat)
    requires Tail(m) && v <= |m| - 3 && Occurs(m, v, "bearer ")
    ensures v + 7 <= |m| - 3
  {
    var q := |m| - 3;
    if v + 7 > q {
      OccursChar(m, v, "bearer ", q - v);
    }
  }

  lemma RunStops(cl: Class, m: string, i: nat, q: nat)
    requires i <= q < |m| && !cl.Has(m[q])
    ensures RunEnd(cl, m, i) <= q
  {
    RunIsMaximal(cl, m, i);
  }

  lemma TameCut(rule: Rule, m: string, i: nat)
    requires Tame(rule.Needle()) && Tail(m) && Occurs(m, i, rule.Needle())
    ensures rule.End(m, i) <= |m| - 2
    ensures rule.Kept(m, i) <= |m| - 3
  {
    var n, q := |rule.Needle()|, |m| - 3;
    TameFits(rule.Needle(), m, i);
    match rule
    case Authorization =>
      RunStops(Spaces, m, i + 14, q);
      if Occurs(m, RunEnd(Spaces, m, i + 14), "bearer ") {
        BearerFits(m, RunEnd(Spaces, m, i + 14));
      }
      TabStops(rule, m, i);
    case KeyValue(_) =>
      RunStops(SpacesAndQuotes, m, i + n, q);
      TabStops(rule, m, i);
    case _ =>
      TabStops(rule, m, i);
  }

  lemma TabStops(rule: Rule, m: string, i: nat)
    requires Tail(m) && Occurs(m, i, rule.Needle()) && rule.Kept(m, i) <= |m| - 3
    ensures rule.End(m, i) <= |m| - 2
  {
    hide Occurs;
    RunStops(rule.Body(), m, rule.Kept(m, i), |m| - 2);
  }

  lemma TailCopied(rule: Rule, m: string, q: nat)
    requires Tame(rule.Needle()) && Tail(m) && |m| - 3 <= q <= |m|
    ensures Scan(rule, m, q) == m[q..]
    decreases |m| - q
  {
    if q == |m| {
      ScanEnd(rule, m);
    } else {
      if Occurs(m, q, rule.Needle()) {
        TameFits(rule.Needle(), m, q);
      }
      hide Scan;
      hide Occurs;
      ScanCopy(rule, m, q);
      TailCopied(rule, m, q + 1);
      assert m[q..] == [m[q]] + m[q + 1..];
    }
  }

  lemma {:induction false} TailScan(rule: Rule, m: string, i: nat)
    requires Tame(rule.Needle()) && Tail(m) && i <= |m| - 3
    ensures Tail(Scan(rule, m, i))
    decreases |m| - i
  {
    var q := |m| - 3;
    hide Scan;
    hide Occurs;
    hide RunEnd;
    if i == q {
      TailCopied(rule, m, q);
    } else if rule.Hits(m, i) {
      TameCut(rule, m, i);
      ScanHit(rule, m, i);
      var e := rule.End(m, i);
      if e <= q {
        TailScan(rule, m, e);
        TailBehind(rule.Head(m, i) + PLACEHOLDER, Scan(rule, m, e));
      } else {
        TailCopied(rule, m, e);
        assert m[e..] == "\tw";
        TailCut(rule.Head(m, i));
      }
    } else {
      ScanCopy(rule, m, i);
      TailScan(rule, m, i + 1);
      TailBehind([m[i]], Scan(rule, m, i + 1));
    }
  }

  ghost predicate AllTame(rules: seq<Rule>) {
    forall i :: 0 <= i < |rules| ==> Tame(rules[i].Needle())
  }

  lemma {:induction false} TailAll(rules: seq<Rule>, m: string)
    requires Usable(rules) && AllTame(rules) && Tail(m)
    ensures Tail(RedactAll(rules, m))
    decreases |rules|
  {
    if rules != [] {
      TailScan(rules[0], m, 0);
      TailAll(rules[1..], Redact(rules[0], m));
    }
  }

  // ---------------------------------------------------------------- every needle is tame

  lemma TameSchemes(i: nat)
    requires i < 8
    ensures Tame(ALL_SCHEMES[i])
  {
  }

  /** Neither an 'a' nor a 'w' stands in the text. */
  ghost predicate Bare(t: string) {
    Lacks(t, 'a') && Lacks(t, 'w')
  }

  lemma PostgresBare() ensures Bare("postgres://") && Bare("postgresql://") { }
  lemma MysqlBare() ensures Bare("mysql://") && Bare("mongodb://") { }
  lemma SqliteBare() ensures Bare("sqlite://") && Bare("sqlite:") { }
  lemma RedisBare() ensures Bare("redis://") && Bare("rediss://") { }

  lemma SchemesBare(i: nat)
    requires i < 8
    ensures Bare(ALL_SCHEMES[i])
  {
    hide Bare;
    PostgresBare();
    MysqlBare();
    SqliteBare();
    RedisBare();
  }

  lemma TamePrefixes(i: nat)
    requires i < 4
    ensures Tame(PROVIDER_KEY_PREFIXES[i])
  {
  }

  lemma TameHeader()
    ensures Tame("authorization:") && Tame("Bearer ") && Tame("bearer ")
  {
  }

  ghost predicate Tabless(w: string) {
    w != "" && forall k :: 0 <= k < |w| ==> w[k] != '\t'
  }

  lemma KeysTabless(i: nat)
    requires i < 14
    ensures Tabless(KEY_VALUE_SECRET_KEYS[i])
  {
    KeysPlain(i);
    PlainTabless(KEY_VALUE_SECRET_KEYS[i]);
    hide Plain;
    hide Tabless;
  }

  lemma PlainTabless(key: string)
    requires Plain(key)
    ensures Tabless(key)
  {
  }

  lemma TameEnd(p: string, e: string)
    requires Tabless(p) && e in ["=", ":"]
    ensures Tame(p + e)
  {
    var w := p + e;
    assert w[|p|] == e[0];
  }

  lemma TablessQuoted(q: string, key: string)
    requires Tabless(key) && q in ["\"", "'"]
    ensures Tabless(q + key + q) && q + key + q + ":" == q + key + (q + ":")
  {
  }

  lemma TameKey(key: string)
    requires Tabless(key)
    ensures AllTame(KeyRules(key))
  {
    TameEnd(key, "=");
    TameEnd(key, ":");
    TablessQuoted("\"", key);
    TablessQuoted("'", key);
    TameEnd("\"" + key + "\"", ":");
    TameEnd("'" + key + "'", ":");
    assert "\"" + ":" == "\":" && "'" + ":" == "':";
    hide Tame;
    hide Tabless;
  }

  lemma TameConcat(a: seq<Rule>, b: seq<Rule>)
    requires AllTame(a) && AllTame(b)
    ensures AllTame(a + b)
  {
  }

  lemma {:induction false} TameKeys(keys: seq<string>)
    requires forall i :: 0 <= i < |keys| ==> Tabless(keys[i])
    ensures AllTame(KeyValues(keys))
  {
    if keys != [] {
      TameKey(keys[0]);
      TameKeys(keys[1..]);
      hide AllTame;
      TameConcat(KeyRules(keys[0]), KeyValues(keys[1..]));
    }
  }

  lemma TameUrls()
    ensures AllTame(DatabaseRules()) && AllTame(RedisRules())
  {
    hide Tame;
    forall i | 0 <= i < 8 ensures Tame(ALL_SCHEMES[i]) {
      TameSchemes(i);
    }
    assert DatabaseRules() == Urls(ALL_SCHEMES[..6]) && RedisRules() == Urls(ALL_SCHEMES[6..]);
  }

  lemma TameTokens()
    ensures AllTame(BearerRules()) && AllTame(ProviderRules())
  {
    hide Tame;
    TameHeader();
    forall i | 0 <= i < 4 ensures Tame(PROVIDER_KEY_PREFIXES[i]) {
      TamePrefixes(i);
    }
  }

  lemma TameApiKeys()
    ensures AllTame(ApiKeyRules())
  {
    hide Tabless;
    forall i | 0 <= i < 14 ensures Tabless(KEY_VALUE_SECRET_KEYS[i]) {
      KeysTabless(i);
    }
    hide AllTame;
    hide KeyValues;
    TameKeys(KEY_VALUE_SECRET_KEYS);
  }

  lemma TameWhen(enabled: bool, rules: seq<Rule>)
    requires AllTame(rules)
    ensures AllTame(When(enabled, rules))
  {
  }

  lemma RulesTame(cfg: Config)
    ensures AllTame(Rules(cfg))
  {
    hide BearerRules;
    hide DatabaseRules;
    hide RedisRules;
    hide ProviderRules;
    hide ApiKeyRules;
    hide AllTame;
    hide When;
    TameTokens();
    TameUrls();
    TameApiKeys();
    var b, d := When(cfg.bearerTokens, BearerRules()), When(cfg.databaseUrls, DatabaseRules());
    var r, p := When(cfg.redisUrls, RedisRules()), When(cfg.providerKeys, ProviderRules());
    TameWhen(cfg.bearerTokens, BearerRules());
    TameWhen(cfg.databaseUrls, DatabaseRules());
    TameWhen(cfg.redisUrls, RedisRules());
    TameWhen(cfg.providerKeys, ProviderRules());
    TameWhen(cfg.apiKeys, ApiKeyRules());
    TameConcat(b, d);
    TameConcat(b + d, r);
    TameConcat(b + d + r, p);
    TameConcat(b + d + r + p, When(cfg.apiKeys, ApiKeyRules()));
  }

  /** Whatever passes are on, the last word stays. */
  lemma TailStays(cfg: Config, m: string)
    requires Tail(m)
    ensures Tail(RedactString(m, cfg))
  {
    hide *;
    RulesTame(cfg);
    StringIsAll(cfg, m);
    TailAll(Rules(cfg), m);
  }

  // ---------------------------------------------------------------- a secret that reads like a header

  /** A text that ends in a header at `h` with the value "w", and has no other 'a' or 'w' in front of it. */
  ghost predicate HeaderText(m: string, h: nat) {
    && |m| == h + 16 && Occurs(m, h, "authorization:") && m[h + 14] == '\t' && m[h + 15] == 'w'
    && (forall i :: 0 <= i < h ==> Lower(m[i]) != 'a')
    && (forall k :: 0 <= k < h + 15 ==> Lower(m[k]) != 'w')
  }

  lemma HeaderFree(m: string, h: nat)
    requires HeaderText(m, h)
    ensures Free("authorization:", m, h) && !Occurs(m, h + 15, "bearer ")
  {
    forall i: nat | i < h ensures !Occurs(m, i, "authorization:") {
      OccursNext(m, i, "authorization:");
    }
    OccursNext(m, h + 15, "bearer ");
  }

  lemma HeaderRuns(m: string, h: nat)
    requires HeaderText(m, h)
    ensures RunEnd(Spaces, m, h + 14) == h + 15 && RunEnd(NonDelimiters, m, h + 15) == h + 16
  {
    hide Occurs;
    RunIs(Spaces, m, h + 14, h + 15);
    RunIs(NonDelimiters, m, h + 15, h + 16);
  }

  lemma HeaderTakes(m: string, h: nat)
    requires HeaderText(m, h)
    ensures Redact(Authorization, m) == m[..h + 15] + PLACEHOLDER
  {
    HeaderFree(m, h);
    HeaderRuns(m, h);
    assert |m| == h + 16 && Occurs(m, h, "authorization:");
    hide HeaderText;
    hide Occurs;
    hide RunEnd;
    hide Free;
    QuietScan(Authorization, m, h);
    HeaderScan(m, h, h + 15, h + 16);
    ScanEnd(Authorization, m);
    hide Scan;
    assert m[..h + 15] == m[..h] + m[h..h + 15];
  }

  lemma HeaderLacks(m: string, h: nat)
    requires HeaderText(m, h)
    ensures Lacks(Redact(Authorization, m), 'w') && Lacks(PLACEHOLDER, 'w')
  {
    assert Lacks(m[..h + 15], 'w') && Lacks(PLACEHOLDER, 'w');
    hide *;
    HeaderTakes(m, h);
    LacksConcat(m[..h + 15], PLACEHOLDER, 'w');
  }

  lemma HeaderLosesMore(cfg: Config, m: string, h: nat)
    requires cfg.bearerTokens && HeaderText(m, h)
    ensures Lacks(RedactString(m, cfg), 'w')
  {
    HeaderLacks(m, h);
    BearerThenLater(cfg, m);
    ThreePasses(m);
    hide *;
    TokensLack(Redact(Authorization, m));
    AllLack(LaterRules(cfg), RedactAll(BearerRules(), m), 'w');
  }

  lemma TokensLack(t: string)
    requires Lacks(t, 'w') && Lacks(PLACEHOLDER, 'w')
    ensures Lacks(Redact(Token("bearer "), Redact(Token("Bearer "), t)), 'w')
  {
    hide Scan;
    hide Lacks;
    ScanLacks(Token("Bearer "), t, 0, 'w');
    ScanLacks(Token("bearer "), Redact(Token("Bearer "), t), 0, 'w');
  }

  lemma TailsDiffer(t: string, u: string)
    requires Lacks(t, 'w') && Tail(u)
    ensures t != u
  {
    assert Lower(u[|u| - 1]) == 'w';
  }

  lemma HeaderSecretUrls(w: string)
    ensures UrlText(w, "", w, "authorization:", "\tw") && UrlText(w, "", w, "x", "\tw")
  {
    OccursSelf(w, "");
    assert w + "" == w;
    HeaderLacksW();
    hide Occurs;
  }

  lemma HeaderSecretText(w: string, header: string, m: string)
    requires Bare(w) && header == "authorization:" + "\tw" && m == w + header
    ensures HeaderText(m, |w|)
  {
    var h := |w|;
    OccursSelf("authorization:", "\tw");
    assert m[h..] == header;
    OccursInTail(m, h, header, 0, "authorization:");
    hide Occurs;
    HeaderLacksW();
    HeaderSecretChars(w, header, m);
    assert m[h + 14] == m[h..][14] && m[h + 15] == m[h..][15];
  }

  lemma HeaderSecretChars(w: string, header: string, m: string)
    requires Bare(w) && |header| == 16 && m == w + header && forall k :: 0 <= k < 15 ==> Lower(header[k]) != 'w'
    ensures forall i :: 0 <= i < |w| ==> Lower(m[i]) != 'a'
    ensures forall k :: 0 <= k < |w| + 15 ==> Lower(m[k]) != 'w'
  {
    assert forall k :: 0 <= k < |w| ==> m[k] == w[k];
    forall k | 0 <= k < |w| + 15 ensures Lower(m[k]) != 'w' {
      assert k >= |w| ==> m[k] == header[k - |w|];
    }
  }

  lemma HeaderSecretTexts(w: string)
    requires w != "" && Bare(w)
    ensures UrlText(w, "", w, "authorization:", "\tw") && UrlText(w, "", w, "x", "\tw")
    ensures HeaderText("" + w + "authorization:" + "\tw", |w|) && Tail("" + w + "x" + "\tw")
  {
    HeaderSecretUrls(w);
    assert Tail("" + w + "x" + "\tw");
    hide *;
    Assoc("" + w, "authorization:", "\tw");
    assert "" + w == w;
    HeaderSecretText(w, "authorization:" + "\tw", "" + w + "authorization:" + "\tw");
  }

  lemma HeaderLacksW()
    ensures var t := "authorization:" + "\tw"; forall k :: 0 <= k < 15 ==> Lower(t[k]) != 'w'
    ensures forall k :: 0 <= k < 14 ==> !IsSpace("authorization:"[k])
  {
  }

  /** With the bearer passes on, every enabled scheme has a message whose output depends on the URL's secret: one
      that reads like a header makes the bearer passes redact the word behind it. */
  lemma HeaderSecretShows(cfg: Config, w: string)
    requires cfg.bearerTokens && Enabled(cfg, w)
    ensures UrlText(w, "", w, "authorization:", "\tw") && UrlText(w, "", w, "x", "\tw")
    ensures RedactString("" + w + "authorization:" + "\tw", cfg) != RedactString("" + w + "x" + "\tw", cfg)
  {
    hide *;
    var j := SchemeIndex(cfg, w);
    TameSchemes(j);
    SchemesBare(j);
    TameNotEmpty(w);
    HeaderSecretTexts(w);
    HeaderLosesMore(cfg, "" + w + "authorization:" + "\tw", |w|);
    TailStays(cfg, "" + w + "x" + "\tw");
    TailsDiffer(RedactString("" + w + "authorization:" + "\tw", cfg), RedactString("" + w + "x" + "\tw", cfg));
  }

  lemma TameNotEmpty(w: string)
    requires Tame(w)
    ensures w != ""
  {
  }

  /** For every configuration, the output is independent of every redacted URL's secret in every message exactly
      when the bearer passes or all URL passes are off. */
  lemma UnconditionallyGoneIff(cfg: Config)
    ensures (forall scheme, before, marker, secret, secret', after ::
               Enabled(cfg, scheme)
               && UrlText(scheme, before, marker, secret, after) && UrlText(scheme, before, marker, secret', after)
               ==> RedactString(before + marker + secret + after, cfg)
                   == RedactString(before + marker + secret' + after, cfg))
            <==> !(cfg.bearerTokens && (cfg.databaseUrls || cfg.redisUrls))
  {
    hide RedactString;
    if cfg.bearerTokens && (cfg.databaseUrls || cfg.redisUrls) {
      var w := if cfg.databaseUrls then DATABASE_URL_SCHEMES[0] else REDIS_URL_SCHEMES[0];
      HeaderSecretShows(cfg, w);
    } else {
      hide UrlText;
      forall scheme, before, marker, secret, secret', after
        | Enabled(cfg, scheme)
          && UrlText(scheme, before, marker, secret, after) && UrlText(scheme, before, marker, secret', after)
        ensures RedactString(before + marker + secret + after, cfg)
                == RedactString(before + marker + secret' + after, cfg)
      {
        UrlSecretIsGone(cfg, scheme, before, marker, secret, secret', after);
      }
    }
  }
}
