/** The whole string redactor: every enabled pass in order. */
module RedactionPipeline {
  import opened Prelude
  import opened Redaction
  import opened RedactionProperties

  /** The switches of the redactor; the optional e-mail pass is not modelled. */
  datatype Config = Config(
    bearerTokens: bool,
    apiKeys: bool,
    databaseUrls: bool,
    providerKeys: bool,
    redisUrls: bool)

  const DATABASE_URL_SCHEMES := ["postgres://", "postgresql://", "mysql://", "mongodb://", "sqlite://"]

  const REDIS_URL_SCHEMES := ["redis://", "rediss://"]

  const PROVIDER_KEY_PREFIXES := ["sk-", "sk_live_", "sk_test_", "mc_live_"]

  const KEY_VALUE_SECRET_KEYS := [
    "api_key", "apikey", "access_token", "refresh_token", "password", "secret", "token", "key_hash",
    "provider_secret", "openai_api_key", "memcore_dev_api_key", "memcore_api_key_pepper",
    "memcore_postgres_url", "memcore_redis_url"]

  // ---------------------------------------------------------------- the passes, in order

  function Urls(schemes: seq<string>): (rules: seq<Rule>) {
    seq(|schemes|, i requires 0 <= i < |schemes| => Url(schemes[i]))
  }

  function Tokens(prefixes: seq<string>): (rules: seq<Rule>) {
    seq(|prefixes|, i requires 0 <= i < |prefixes| => Token(prefixes[i]))
  }

  function KeyPatterns(key: string): seq<string> {
    [key + "=", key + ":", "\"" + key + "\":", "'" + key + "':"]
  }

  function KeyRules(key: string): seq<Rule> {
    var p := KeyPatterns(key);
    [KeyValue(p[0]), KeyValue(p[1]), KeyValue(p[2]), KeyValue(p[3])]
  }

  function KeyValues(keys: seq<string>): seq<Rule> {
    if keys == [] then [] else KeyRules(keys[0]) + KeyValues(keys[1..])
  }

  function BearerRules(): seq<Rule> { [Authorization, Token("Bearer "), Token("bearer ")] }
  function DatabaseRules(): seq<Rule> { Urls(DATABASE_URL_SCHEMES) + [Url("sqlite:")] }
  function RedisRules(): seq<Rule> { Urls(REDIS_URL_SCHEMES) }
  function ProviderRules(): seq<Rule> { Tokens(PROVIDER_KEY_PREFIXES) }
  function ApiKeyRules(): seq<Rule> { KeyValues(KEY_VALUE_SECRET_KEYS) }

  function When(enabled: bool, rules: seq<Rule>): seq<Rule> { if enabled then rules else [] }

  function Rules(cfg: Config): seq<Rule> {
    When(cfg.bearerTokens, BearerRules())
    + When(cfg.databaseUrls, DatabaseRules())
    + When(cfg.redisUrls, RedisRules())
    + When(cfg.providerKeys, ProviderRules())
    + When(cfg.apiKeys, ApiKeyRules())
  }

  ghost predicate Usable(rules: seq<Rule>) {
    forall i :: 0 <= i < |rules| ==> rules[i].Needle() != ""
  }

  /** Each pass reads the output of the one before. */
  function RedactAll(rules: seq<Rule>, m: string): string
    requires Usable(rules)
  {
    if rules == [] then m else RedactAll(rules[1..], Redact(rules[0], m))
  }

  lemma {:induction false} RedactAllConcat(a: seq<Rule>, b: seq<Rule>, m: string)
    requires Usable(a) && Usable(b)
    ensures Usable(a + b) && RedactAll(a + b, m) == RedactAll(b, RedactAll(a, m))
    decreases |a|
  {
    if a == [] {
      assert a + b == b;
    } else {
      assert (a + b)[1..] == a[1..] + b;
      RedactAllConcat(a[1..], b, Redact(a[0], m));
    }
  }

  lemma RedactOneMore(rules: seq<Rule>, rule: Rule, m: string)
    requires Usable(rules) && rule.Needle() != ""
    ensures Usable(rules + [rule]) && RedactAll(rules + [rule], m) == Redact(rule, RedactAll(rules, m))
  {
    RedactAllConcat(rules, [rule], m);
    assert RedactAll([rule], RedactAll(rules, m)) == RedactAll([], Redact(rule, RedactAll(rules, m)));
  }

  method RedactUrls(message: string, schemes: seq<string>) returns (out: string)
    requires forall i :: 0 <= i < |schemes| ==> schemes[i] != ""
    ensures Usable(Urls(schemes)) && out == RedactAll(Urls(schemes), message)
  {
    out := message;
    for i := 0 to |schemes|
      invariant out == RedactAll(Urls(schemes[..i]), message)
    {
      assert Urls(schemes[..i + 1]) == Urls(schemes[..i]) + [Url(schemes[i])];
      RedactOneMore(Urls(schemes[..i]), Url(schemes[i]), message);
      out := RedactUrlScheme(out, schemes[i]);
    }
    assert schemes[..|schemes|] == schemes;
  }

  method RedactTokens(message: string, prefixes: seq<string>) returns (out: string)
    requires forall i :: 0 <= i < |prefixes| ==> prefixes[i] != ""
    ensures Usable(Tokens(prefixes)) && out == RedactAll(Tokens(prefixes), message)
  {
    out := message;
    for i := 0 to |prefixes|
      invariant out == RedactAll(Tokens(prefixes[..i]), message)
    {
      assert Tokens(prefixes[..i + 1]) == Tokens(prefixes[..i]) + [Token(prefixes[i])];
      RedactOneMore(Tokens(prefixes[..i]), Token(prefixes[i]), message);
      out := RedactPrefixedToken(out, prefixes[i]);
    }
    assert prefixes[..|prefixes|] == prefixes;
  }

  method RedactKeyValue(message: string, key: string) returns (out: string)
    ensures Usable(KeyRules(key)) && out == RedactAll(KeyRules(key), message)
  {
    var patterns := KeyPatterns(key);
    out := message;
    for i := 0 to 4
      invariant Usable(KeyRules(key)[..i]) && out == RedactAll(KeyRules(key)[..i], message)
    {
      assert KeyRules(key)[..i + 1] == KeyRules(key)[..i] + [KeyValue(patterns[i])];
      RedactOneMore(KeyRules(key)[..i], KeyValue(patterns[i]), message);
      out := RedactAfterPattern(out, patterns[i]);
    }
    assert KeyRules(key)[..4] == KeyRules(key);
  }

  lemma {:induction false} KeyValuesSnoc(keys: seq<string>, i: nat)
    requires i < |keys|
    ensures KeyValues(keys[..i + 1]) == KeyValues(keys[..i]) + KeyRules(keys[i])
    decreases i
  {
    if i == 0 {
      assert keys[..1][1..] == [] && KeyValues(keys[..0]) == [];
      assert KeyValues(keys[..1]) == KeyRules(keys[0]) + [];
    } else {
      KeyValuesSnoc(keys[1..], i - 1);
      assert keys[..i + 1][1..] == keys[1..][..i] && keys[..i][1..] == keys[1..][..i - 1];
    }
  }

  method RedactKeyValues(message: string, keys: seq<string>) returns (out: string)
    ensures Usable(KeyValues(keys)) && out == RedactAll(KeyValues(keys), message)
  {
    out := message;
    for i := 0 to |keys|
      invariant Usable(KeyValues(keys[..i])) && out == RedactAll(KeyValues(keys[..i]), message)
    {
      out := RedactKeyValue(out, keys[i]);
      KeyValuesSnoc(keys, i);
      RedactAllConcat(KeyValues(keys[..i]), KeyRules(keys[i]), message);
    }
    assert keys[..|keys|] == keys;
  }

  method RedactBearerTokens(input: string) returns (out: string)
    ensures Usable(BearerRules()) && out == RedactAll(BearerRules(), input)
  {
    RedactOneMore([], Authorization, input);
    out := RedactAuthorizationBearer(input);
    RedactOneMore([Authorization], Token("Bearer "), input);
    out := RedactPrefixedToken(out, "Bearer ");
    RedactOneMore([Authorization, Token("Bearer ")], Token("bearer "), input);
    out := RedactPrefixedToken(out, "bearer ");
    assert BearerRules() == [Authorization, Token("Bearer ")] + [Token("bearer ")];
  }

  method RedactDatabaseUrls(input: string) returns (out: string)
    ensures Usable(DatabaseRules()) && out == RedactAll(DatabaseRules(), input)
  {
    out := RedactUrls(input, DATABASE_URL_SCHEMES);
    RedactOneMore(Urls(DATABASE_URL_SCHEMES), Url("sqlite:"), input);
    out := RedactUrlScheme(out, "sqlite:");
  }

  /** One optional stage: its passes read what the earlier stages wrote. */
  lemma Stage(done: seq<Rule>, enabled: bool, rules: seq<Rule>, input: string, before: string, after: string)
    requires Usable(done) && before == RedactAll(done, input)
    requires if enabled then Usable(rules) && after == RedactAll(rules, before) else after == before
    ensures Usable(done + When(enabled, rules)) && after == RedactAll(done + When(enabled, rules), input)
  {
    if enabled {
      RedactAllConcat(done, rules, input);
    } else {
      assert done + [] == done;
    }
  }

  method RedactStrWithConfig(input: string, cfg: Config) returns (out: string)
    ensures out == RedactString(input, cfg)
  {
    hide BearerRules;
    hide DatabaseRules;
    hide Urls;
    hide Tokens;
    hide KeyValues;
    hide RedactAll;
    hide Usable;
    out := input;
    if cfg.bearerTokens {
      out := RedactBearerTokens(out);
    }
    ghost var done := When(cfg.bearerTokens, BearerRules());
    assert Usable(done) && out == RedactAll(done, input) by { NoRules(input); }
    ghost var prior := out;
    if cfg.databaseUrls {
      out := RedactDatabaseUrls(out);
    }
    Stage(done, cfg.databaseUrls, DatabaseRules(), input, prior, out);
    done, prior := done + When(cfg.databaseUrls, DatabaseRules()), out;
    if cfg.redisUrls {
      out := RedactUrls(out, REDIS_URL_SCHEMES);
    }
    Stage(done, cfg.redisUrls, RedisRules(), input, prior, out);
    done, prior := done + When(cfg.redisUrls, RedisRules()), out;
    if cfg.providerKeys {
      out := RedactTokens(out, PROVIDER_KEY_PREFIXES);
    }
    Stage(done, cfg.providerKeys, ProviderRules(), input, prior, out);
    done, prior := done + When(cfg.providerKeys, ProviderRules()), out;
    if cfg.apiKeys {
      out := RedactKeyValues(out, KEY_VALUE_SECRET_KEYS);
    }
    Stage(done, cfg.apiKeys, ApiKeyRules(), input, prior, out);
  }

  lemma NoRules(m: string)
    ensures Usable([]) && RedactAll([], m) == m
  {
  }

  // ---------------------------------------------------------------- what every message is promised

  ghost predicate AllForeign(rules: seq<Rule>) {
    forall i :: 0 <= i < |rules| ==> Foreign(rules[i].Needle())
  }

  lemma {:induction false} FollowedAll(rules: seq<Rule>, w: string, m: string)
    requires Usable(rules) && AllForeign(rules) && Foreign(w)
    requires Followed(w, m) || Url(w) in rules
    ensures Followed(w, RedactAll(rules, m))
    decreases |rules|
  {
    if rules != [] {
      if Followed(w, m) || rules[0] == Url(w) {
        FollowedScan(rules[0], w, m, 0);
      }
      FollowedAll(rules[1..], w, Redact(rules[0], m));
    }
  }

  lemma KeyForeign(key: string)
    requires NoBrackets(key)
    ensures AllForeign(KeyRules(key))
  {
  }

  lemma {:induction false} KeysForeign(keys: seq<string>)
    requires forall i :: 0 <= i < |keys| ==> NoBrackets(keys[i])
    ensures AllForeign(KeyValues(keys))
  {
    if keys != [] {
      KeyForeign(keys[0]);
      KeysForeign(keys[1..]);
    }
  }

  lemma PostgresForeign() ensures Foreign("postgres://") && Foreign("postgresql://") { }
  lemma MysqlForeign() ensures Foreign("mysql://") && Foreign("mongodb://") { }
  lemma SqliteForeign() ensures Foreign("sqlite://") && Foreign("sqlite:") { }
  lemma RedisForeign() ensures Foreign("redis://") && Foreign("rediss://") { }
  lemma SkForeign() ensures Foreign("sk-") && Foreign("sk_live_") { }
  lemma TestKeyForeign() ensures Foreign("sk_test_") && Foreign("mc_live_") { }
  lemma AuthorizationForeign() ensures Foreign("authorization:") { }
  lemma BearerForeign() ensures Foreign("Bearer ") && Foreign("bearer ") { }

  lemma UrlsForeign(schemes: seq<string>)
    requires forall s :: s in schemes ==> Foreign(s)
    ensures AllForeign(Urls(schemes))
  {
  }

  lemma TokensForeign(prefixes: seq<string>)
    requires forall s :: s in prefixes ==> Foreign(s)
    ensures AllForeign(Tokens(prefixes))
  {
  }

  lemma SchemesForeign(scheme: string)
    requires scheme in DATABASE_URL_SCHEMES || scheme in ["sqlite:"] || scheme in REDIS_URL_SCHEMES
    ensures Foreign(scheme)
  {
    hide Foreign;
    PostgresForeign();
    MysqlForeign();
    SqliteForeign();
    RedisForeign();
  }

  lemma PrefixesForeign(prefix: string)
    requires prefix in PROVIDER_KEY_PREFIXES
    ensures Foreign(prefix)
  {
    hide Foreign;
    SkForeign();
    TestKeyForeign();
  }

  lemma UrlRulesForeign()
    ensures AllForeign(DatabaseRules()) && AllForeign(RedisRules())
  {
    hide Foreign;
    forall s | s in DATABASE_URL_SCHEMES || s in ["sqlite:"] || s in REDIS_URL_SCHEMES ensures Foreign(s) {
      SchemesForeign(s);
    }
    UrlsForeign(DATABASE_URL_SCHEMES);
    UrlsForeign(REDIS_URL_SCHEMES);
    assert "sqlite:" in ["sqlite:"];
  }

  lemma TokenRulesForeign()
    ensures AllForeign(BearerRules()) && AllForeign(ProviderRules())
  {
    hide Foreign;
    AuthorizationForeign();
    BearerForeign();
    forall s | s in PROVIDER_KEY_PREFIXES ensures Foreign(s) {
      PrefixesForeign(s);
    }
    TokensForeign(PROVIDER_KEY_PREFIXES);
  }

  /** A key consists of lower-case letters and underscores. */
  ghost predicate Plain(key: string) {
    key != "" && forall k :: 0 <= k < |key| ==> 'a' <= key[k] <= 'z' || key[k] == '_'
  }

  lemma ApiKeyPlain() ensures Plain("api_key") && Plain("apikey") { }
  lemma TokenPlain() ensures Plain("access_token") && Plain("refresh_token") && Plain("token") { }
  lemma PasswordPlain() ensures Plain("password") && Plain("secret") && Plain("key_hash") { }
  lemma ProviderPlain() ensures Plain("provider_secret") && Plain("openai_api_key") { }
  lemma MemcoreKeyPlain() ensures Plain("memcore_dev_api_key") && Plain("memcore_api_key_pepper") { }
  lemma MemcoreUrlPlain() ensures Plain("memcore_postgres_url") && Plain("memcore_redis_url") { }

  lemma KeysPlain(i: nat)
    requires i < |KEY_VALUE_SECRET_KEYS|
    ensures Plain(KEY_VALUE_SECRET_KEYS[i])
  {
    hide Plain;
    ApiKeyPlain();
    TokenPlain();
    PasswordPlain();
    ProviderPlain();
    MemcoreKeyPlain();
    MemcoreUrlPlain();
  }

  lemma PlainNoBrackets(key: string)
    requires Plain(key)
    ensures NoBrackets(key)
  {
  }

  lemma ApiKeyForeign()
    ensures AllForeign(ApiKeyRules())
  {
    hide Plain;
    hide NoBrackets;
    hide AllForeign;
    hide KeyValues;
    forall i | 0 <= i < |KEY_VALUE_SECRET_KEYS| ensures NoBrackets(KEY_VALUE_SECRET_KEYS[i]) {
      KeysPlain(i);
      PlainNoBrackets(KEY_VALUE_SECRET_KEYS[i]);
    }
    KeysForeign(KEY_VALUE_SECRET_KEYS);
  }

  /** No needle of the redactor can overlap a placeholder. */
  lemma RulesForeign(cfg: Config)
    ensures AllForeign(Rules(cfg))
  {
    hide BearerRules;
    hide DatabaseRules;
    hide RedisRules;
    hide ProviderRules;
    hide ApiKeyRules;
    hide Foreign;
    UrlRulesForeign();
    TokenRulesForeign();
    ApiKeyForeign();
  }

  /** The redacted text: every enabled pass, in order. */
  function RedactString(s: string, cfg: Config): string {
    RulesForeign(cfg);
    RedactAll(Rules(cfg), s)
  }

  lemma ForeignUsable(rules: seq<Rule>)
    requires AllForeign(rules)
    ensures Usable(rules)
  {
  }

  lemma StringIsAll(cfg: Config, m: string)
    ensures Usable(Rules(cfg)) && RedactString(m, cfg) == RedactAll(Rules(cfg), m)
  {
    hide Rules;
    RulesForeign(cfg);
    ForeignUsable(Rules(cfg));
  }

  /** The URL schemes whose pass is switched on. */
  predicate Enabled(cfg: Config, scheme: string) {
    || (cfg.databaseUrls && (scheme in DATABASE_URL_SCHEMES || scheme in ["sqlite:"]))
    || (cfg.redisUrls && scheme in REDIS_URL_SCHEMES)
  }

  /** In the output for any message, every occurrence of an enabled URL scheme, in any case, is immediately
      followed by the placeholder: no later pass undoes a URL pass. */
  lemma UrlsStayRedacted(cfg: Config, m: string, scheme: string)
    requires Enabled(cfg, scheme)
    ensures Followed(scheme, RedactString(m, cfg))
  {
    RulesForeign(cfg);
    SchemesForeign(scheme);
    SchemeHasRule(cfg, scheme);
    hide Rules;
    FollowedAll(Rules(cfg), scheme, m);
  }

  lemma {:induction false} UrlInUrls(schemes: seq<string>, scheme: string)
    requires scheme in schemes
    ensures Url(scheme) in Urls(schemes)
  {
    var i :| 0 <= i < |schemes| && schemes[i] == scheme;
    assert Urls(schemes)[i] == Url(scheme);
  }

  lemma SchemeHasRule(cfg: Config, scheme: string)
    requires Enabled(cfg, scheme)
    ensures Url(scheme) in Rules(cfg)
  {
    hide Urls;
    hide ApiKeyRules;
    hide ProviderRules;
    hide BearerRules;
    if scheme in DATABASE_URL_SCHEMES {
      UrlInUrls(DATABASE_URL_SCHEMES, scheme);
    }
    if scheme in REDIS_URL_SCHEMES {
      UrlInUrls(REDIS_URL_SCHEMES, scheme);
    }
    assert cfg.databaseUrls && (scheme in DATABASE_URL_SCHEMES || scheme in ["sqlite:"])
           ==> Url(scheme) in When(cfg.databaseUrls, DatabaseRules());
    assert cfg.redisUrls && scheme in REDIS_URL_SCHEMES ==> Url(scheme) in When(cfg.redisUrls, RedisRules());
  }

  // ---------------------------------------------------------------- no pass invents characters

  /** No character of `t` is `c`, up to case. */
  ghost predicate Lacks(t: string, c: char) {
    forall k :: 0 <= k < |t| ==> Lower(t[k]) != c
  }

  lemma LacksConcat(a: string, b: string, c: char)
    requires Lacks(a, c) && Lacks(b, c)
    ensures Lacks(a + b, c)
  {
  }

  /** A pass writes no character that neither the text nor the placeholder has. */
  lemma {:induction false} ScanLacks(rule: Rule, m: string, i: nat, c: char)
    requires rule.Needle() != "" && i <= |m| && Lacks(m, c) && Lacks(PLACEHOLDER, c)
    ensures Lacks(Scan(rule, m, i), c)
    decreases |m| - i
  {
    hide Occurs;
    hide Scan;
    if i == |m| {
      ScanEnd(rule, m);
    } else if rule.Hits(m, i) {
      ScanHit(rule, m, i);
      HeadAgrees(rule, m, i);
      ScanLacks(rule, m, rule.End(m, i), c);
    } else {
      ScanCopy(rule, m, i);
      ScanLacks(rule, m, i + 1, c);
    }
  }

  lemma {:induction false} AllLack(rules: seq<Rule>, m: string, c: char)
    requires Usable(rules) && Lacks(m, c) && Lacks(PLACEHOLDER, c)
    ensures Lacks(RedactAll(rules, m), c)
    decreases |rules|
  {
    if rules != [] {
      ScanLacks(rules[0], m, 0, c);
      AllLack(rules[1..], Redact(rules[0], m), c);
    }
  }
}
