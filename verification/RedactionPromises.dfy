/** What the redactor promises of its output, secret by secret, for every message and configuration. */
module RedactionPromises {
  import opened Prelude
  import opened Redaction
  import opened RedactionProperties
  import opened RedactionPipeline
  import opened RedactionEndToEnd
  import opened RedactionStability
  import opened RedactionIdempotence
  import opened RedactionTokens
  import opened RedactionKeys
  import opened RedactionHeaders

  /** The placeholder stands in `t` at `v`. */
  ghost predicate PlaceholderAt(t: string, v: nat) {
    v + 10 <= |t| && t[v..v + 10] == "[REDACTED]"
  }

  /** `w` stands in `t` at `q`, up to ASCII case. */
  ghost predicate StandsAt(t: string, q: nat, w: string) {
    q + |w| <= |t| && forall k :: 0 <= k < |w| ==> SameLetter(t[q + k], w[k])
  }

  /** The character in front of `q` is a letter, a digit or an underscore. */
  ghost predicate InWord(t: string, q: nat) {
    0 < q <= |t| &&
    var c := t[q - 1];
    'a' <= c <= 'z' || 'A' <= c <= 'Z' || '0' <= c <= '9' || c == '_'
  }

  /** Tab, line feed, vertical tab, form feed, carriage return or blank. */
  predicate White(c: char) {
    c as int in {9, 10, 11, 12, 13, 32}
  }

  lemma StandsAtIs(t: string, q: nat, w: string)
    ensures StandsAt(t, q, w) <==> Occurs(t, q, w)
  {
    if q + |w| <= |t| {
      forall k | 0 <= k < |w| ensures SameLetter(t[q + k], w[k]) <==> Lower(t[q + k]) == Lower(w[k]) {
        LowerIs(t[q + k], w[k]);
      }
    }
  }

  lemma InWordIs(t: string, q: nat)
    requires q <= |t|
    ensures InWord(t, q) <==> q > 0 && IsWord(t[q - 1])
  {
  }

  // ---------------------------------------------------------------- what a hit is and what it cuts

  /** A pass hits where its needle stands, in any case; a token or key pass only where that continues no word. */
  lemma HitIff(rule: Rule, m: string, i: nat)
    ensures rule.Hits(m, i) <==> StandsAt(m, i, rule.Needle()) && (rule.Token? || rule.KeyValue? ==> !InWord(m, i))
  {
    StandsAtIs(m, i, rule.Needle());
    if i <= |m| {
      InWordIs(m, i);
    }
    hide Occurs;
    hide StandsAt;
  }

  /** The codes that end a secret: white space, and for all but URLs also quotes, comma and closing brace. */
  function Enders(rule: Rule): set<int> {
    if rule.Url? then {9, 10, 11, 12, 13, 32} else {9, 10, 11, 12, 13, 32, 34, 39, 44, 125}
  }

  /** A hit cuts from behind its needle, for a key pass from behind the quotes and white space that follow, up to the
      first character that ends a secret; the rest of the text is scanned from there. */
  lemma CutIs(rule: Rule, m: string, i: nat)
    requires rule.Needle() != "" && Occurs(m, i, rule.Needle())
    ensures var (a, e) := (rule.Kept(m, i), rule.End(m, i));
            && i + |rule.Needle()| <= a <= e <= |m|
            && (rule.Url? || rule.Token? ==> a == i + |rule.Needle()|)
            && (rule.KeyValue? ==>
                  && (forall k :: i + |rule.Needle()| <= k < a ==> m[k] as int in {9, 10, 11, 12, 13, 32, 34, 39})
                  && (a < |m| ==> m[a] as int !in {9, 10, 11, 12, 13, 32, 34, 39}))
            && (forall k :: a <= k < e ==> m[k] as int !in Enders(rule))
            && (e < |m| ==> m[e] as int in Enders(rule))
  {
    var n := |rule.Needle()|;
    RunIsMaximal(rule.Body(), m, rule.Kept(m, i));
    OccursFits(m, i, rule.Needle());
    RunIsMaximal(SpacesAndQuotes, m, i + n);
    hide Occurs;
    hide RunEnd;
  }

  // ---------------------------------------------------------------- URLs

  /** Behind every scheme of an enabled kind, in any case, stands the placeholder. */
  lemma UrlsPromised(cfg: Config, m: string, scheme: string, q: nat)
    requires || (cfg.databaseUrls
                 && scheme in ["postgres://", "postgresql://", "mysql://", "mongodb://", "sqlite://", "sqlite:"])
             || (cfg.redisUrls && scheme in ["redis://", "rediss://"])
    requires StandsAt(RedactString(m, cfg), q, scheme)
    ensures PlaceholderAt(RedactString(m, cfg), q + |scheme|)
  {
    assert Enabled(cfg, scheme) by { SchemesAre(cfg, scheme); }
    UrlsStayRedacted(cfg, m, scheme);
    StandsAtIs(RedactString(m, cfg), q, scheme);
    hide RedactString;
    hide Occurs;
    hide StandsAt;
    assert Marked(RedactString(m, cfg), q + |scheme|);
  }

  lemma SchemesAre(cfg: Config, scheme: string)
    requires || (cfg.databaseUrls
                 && scheme in ["postgres://", "postgresql://", "mysql://", "mongodb://", "sqlite://", "sqlite:"])
             || (cfg.redisUrls && scheme in ["redis://", "rediss://"])
    ensures Enabled(cfg, scheme)
  {
    assert ["postgres://", "postgresql://", "mysql://", "mongodb://", "sqlite://", "sqlite:"]
           == DATABASE_URL_SCHEMES + ["sqlite:"];
  }

  // ---------------------------------------------------------------- tokens

  lemma TokenPromised(cfg: Config, m: string, w: string, q: nat)
    requires Clean(w) && Token(w) in Rules(cfg) && StandsAt(RedactString(m, cfg), q, w)
             && !InWord(RedactString(m, cfg), q)
    ensures PlaceholderAt(RedactString(m, cfg), q + |w|)
  {
    var t := RedactString(m, cfg);
    StandsAtIs(t, q, w);
    InWordIs(t, q);
    RulesForeign(cfg);
    StringIsAll(cfg, m);
    hide RedactString;
    hide Rules;
    ShutAll(Rules(cfg), w, m);
    hide Occurs;
    hide StandsAt;
    hide InWord;
    assert Stands(w, t, q, false);
    ShutAt(w, t, q);
  }

  lemma SkClean() ensures Clean("sk-") && Clean("sk_live_") { }
  lemma TestKeyClean() ensures Clean("sk_test_") && Clean("mc_live_") { }

  lemma PrefixClean(p: string)
    requires p in ["sk-", "sk_live_", "sk_test_", "mc_live_"]
    ensures Clean(p)
  {
    hide Clean;
    SkClean();
    TestKeyClean();
  }

  lemma BearerClean() ensures Clean("bearer ") { }

  lemma PrefixIsRule(cfg: Config, p: string)
    requires cfg.providerKeys && p in ["sk-", "sk_live_", "sk_test_", "mc_live_"]
    ensures Token(p) in Rules(cfg)
  {
    var i :| 0 <= i < 4 && ["sk-", "sk_live_", "sk_test_", "mc_live_"][i] == p;
    assert PROVIDER_KEY_PREFIXES[i] == p;
    assert ProviderRules()[i] == Token(p);
    hide ProviderRules;
    hide ApiKeyRules;
    hide BearerRules;
    hide DatabaseRules;
    hide RedisRules;
  }

  lemma BearerIsRule(cfg: Config)
    requires cfg.bearerTokens
    ensures Token("bearer ") in Rules(cfg)
  {
    assert BearerRules()[2] == Token("bearer ");
    hide ProviderRules;
    hide ApiKeyRules;
    hide BearerRules;
    hide DatabaseRules;
    hide RedisRules;
  }

  /** Behind every provider-key prefix that continues no word, in any case, stands the placeholder. */
  lemma ProviderKeysPromised(cfg: Config, m: string, p: string, q: nat)
    requires cfg.providerKeys && p in ["sk-", "sk_live_", "sk_test_", "mc_live_"]
    requires StandsAt(RedactString(m, cfg), q, p) && !InWord(RedactString(m, cfg), q)
    ensures PlaceholderAt(RedactString(m, cfg), q + |p|)
  {
    hide *;
    PrefixClean(p);
    PrefixIsRule(cfg, p);
    TokenPromised(cfg, m, p, q);
  }

  /** Behind every "bearer " that continues no word, in any case, stands the placeholder. */
  lemma BearerTokensPromised(cfg: Config, m: string, q: nat)
    requires cfg.bearerTokens && StandsAt(RedactString(m, cfg), q, "bearer ") && !InWord(RedactString(m, cfg), q)
    ensures PlaceholderAt(RedactString(m, cfg), q + 7)
  {
    assert |"bearer "| == 7;
    BearerClean();
    BearerIsRule(cfg);
    hide *;
    TokenPromised(cfg, m, "bearer ", q);
  }

  // ---------------------------------------------------------------- keys

  /** Lower-case letters and underscores without 'z', beginning like a key. */
  ghost predicate KeyName(key: string) {
    && Plain(key) && (forall k :: 0 <= k < |key| ==> key[k] != 'z')
    && exists k :: 0 <= k < |KEY_LEADS| && Occurs(key, 0, KEY_LEADS[k])
  }

  lemma IsKeyName(key: string, k: nat)
    requires Plain(key) && k < |KEY_LEADS| && Occurs(key, 0, KEY_LEADS[k])
    requires forall j :: 0 <= j < |key| ==> key[j] != 'z'
    ensures KeyName(key)
  {
  }

  lemma ApiKeyNames()
    ensures KeyName("api_key") && KeyName("apikey")
  {
    hide KeyName;
    IsKeyName("api_key", 0);
    IsKeyName("apikey", 0);
  }

  lemma TokenNames()
    ensures KeyName("access_token") && KeyName("refresh_token") && KeyName("token")
  {
    hide KeyName;
    IsKeyName("access_token", 1);
    IsKeyName("refresh_token", 2);
    IsKeyName("token", 5);
  }

  lemma PasswordNames()
    ensures KeyName("password") && KeyName("secret") && KeyName("key_hash")
  {
    hide KeyName;
    IsKeyName("password", 3);
    IsKeyName("secret", 4);
    IsKeyName("key_hash", 6);
  }

  lemma ProviderNames()
    ensures KeyName("provider_secret") && KeyName("openai_api_key")
  {
    hide KeyName;
    IsKeyName("provider_secret", 7);
    IsKeyName("openai_api_key", 8);
  }

  lemma MemcoreKeyNames()
    ensures KeyName("memcore_dev_api_key") && KeyName("memcore_api_key_pepper")
  {
    hide KeyName;
    IsKeyName("memcore_dev_api_key", 9);
    IsKeyName("memcore_api_key_pepper", 9);
  }

  lemma MemcoreUrlNames()
    ensures KeyName("memcore_postgres_url") && KeyName("memcore_redis_url")
  {
    hide KeyName;
    IsKeyName("memcore_postgres_url", 9);
    IsKeyName("memcore_redis_url", 9);
  }

  lemma KeysAreNames(i: nat)
    requires i < |KEY_VALUE_SECRET_KEYS|
    ensures KeyName(KEY_VALUE_SECRET_KEYS[i])
  {
    hide KeyName;
    ApiKeyNames();
    TokenNames();
    PasswordNames();
    ProviderNames();
    MemcoreKeyNames();
    MemcoreUrlNames();
  }

  lemma BareKeyed(key: string, sep: string)
    requires KeyName(key) && sep in ["=", ":"]
    ensures Bareword(key + sep) && Foreign(key + sep) && Keyed(key + sep)
  {
    var w := key + sep;
    assert forall k :: 0 <= k < |key| ==> w[k] == key[k];
    assert w[|key|] == sep[0];
    var k :| 0 <= k < |KEY_LEADS| && Occurs(key, 0, KEY_LEADS[k]);
    OccursSelf(key, sep);
    OccursChain(w, 0, key, 0, KEY_LEADS[k]);
    hide Occurs;
  }

  lemma QuotedKeyed(q: string, key: string, x: string)
    requires KeyName(key) && q in ["\"", "'"] && x == q + key + (q + ":")
    ensures Pattern(x) && Keyed(x)
  {
    var n := |key|;
    assert x[0] == q[0] && x[n + 1] == q[0] && x[n + 2] == ':' && |x| == n + 3;
    assert forall k :: 1 <= k < n + 1 ==> x[k] == key[k - 1];
    hide Occurs;
  }

  lemma KeyRulesKeyed(key: string)
    requires KeyName(key)
    ensures AllPatterns(KeyRules(key)) && AllKeyed(KeyRules(key))
  {
    BareKeyed(key, "=");
    BareKeyed(key, ":");
    assert "\"" + ":" == "\":" && "'" + ":" == "':";
    QuotedKeyed("\"", key, "\"" + key + "\":");
    QuotedKeyed("'", key, "'" + key + "':");
    hide KeyName;
    hide Keyed;
    hide Bareword;
    hide Quotation;
    hide Foreign;
  }

  ghost predicate AllKeyed(rules: seq<Rule>) {
    forall i :: 0 <= i < |rules| ==> rules[i].KeyValue? && Keyed(rules[i].pattern)
  }

  lemma KeyedConcat(a: seq<Rule>, b: seq<Rule>)
    requires AllPatterns(a) && AllKeyed(a) && AllPatterns(b) && AllKeyed(b)
    ensures AllPatterns(a + b) && AllKeyed(a + b)
  {
    hide Pattern;
    hide Keyed;
  }

  lemma {:induction false} KeyValuesKeyed(keys: seq<string>)
    requires forall i :: 0 <= i < |keys| ==> KeyName(keys[i])
    ensures AllPatterns(KeyValues(keys)) && AllKeyed(KeyValues(keys))
  {
    hide KeyName;
    if keys != [] {
      KeyRulesKeyed(keys[0]);
      KeyValuesKeyed(keys[1..]);
      KeyedConcat(KeyRules(keys[0]), KeyValues(keys[1..]));
    }
  }

  lemma ApiKeysKeyed()
    ensures AllPatterns(ApiKeyRules()) && AllKeyed(ApiKeyRules())
  {
    hide KeyName;
    forall i | 0 <= i < |KEY_VALUE_SECRET_KEYS| ensures KeyName(KEY_VALUE_SECRET_KEYS[i]) {
      KeysAreNames(i);
    }
    hide KeyValues;
    hide AllPatterns;
    hide AllKeyed;
    KeyValuesKeyed(KEY_VALUE_SECRET_KEYS);
  }

  lemma {:induction false} KeyIsRule(keys: seq<string>, key: string)
    requires key in keys
    ensures KeyValue(key + "=") in KeyValues(keys) && KeyValue(key + ":") in KeyValues(keys)
  {
    if keys[0] == key {
      var rules := KeyRules(key);
      assert rules[0] == KeyValue(key + "=") && rules[1] == KeyValue(key + ":");
      assert rules[0] in rules && rules[1] in rules;
    } else {
      KeyIsRule(keys[1..], key);
    }
  }

  lemma KeysAreListed(key: string) returns (i: nat)
    requires key in ["api_key", "apikey", "access_token", "refresh_token", "password", "secret", "token", "key_hash",
                     "provider_secret", "openai_api_key", "memcore_dev_api_key", "memcore_api_key_pepper",
                     "memcore_postgres_url", "memcore_redis_url"]
    ensures i < |KEY_VALUE_SECRET_KEYS| && KEY_VALUE_SECRET_KEYS[i] == key
  {
    var literal := ["api_key", "apikey", "access_token", "refresh_token", "password", "secret", "token", "key_hash",
                    "provider_secret", "openai_api_key", "memcore_dev_api_key", "memcore_api_key_pepper",
                    "memcore_postgres_url", "memcore_redis_url"];
    i :| i < 14 && literal[i] == key;
  }

  lemma ApiKeyIsRule(key: string, sep: string, i: nat)
    requires i < |KEY_VALUE_SECRET_KEYS| && KEY_VALUE_SECRET_KEYS[i] == key && sep in ["=", ":"]
    ensures KeyValue(key + sep) in ApiKeyRules()
  {
    assert key in KEY_VALUE_SECRET_KEYS;
    KeyIsRule(KEY_VALUE_SECRET_KEYS, key);
    hide KeyValues;
  }

  lemma OthersThenKeys(cfg: Config, m: string)
    requires cfg.apiKeys
    ensures Usable(Others(cfg)) && Usable(ApiKeyRules())
    ensures RedactString(m, cfg) == RedactAll(ApiKeyRules(), RedactAll(Others(cfg), m))
  {
    hide *;
    OthersFirst(cfg);
    StringIsAll(cfg, m);
    UsableParts(Others(cfg), ApiKeyRules());
    RedactAllConcat(Others(cfg), ApiKeyRules(), m);
  }

  lemma UsableParts(a: seq<Rule>, b: seq<Rule>)
    requires Usable(a + b)
    ensures Usable(a) && Usable(b)
  {
    forall i | 0 <= i < |a| ensures a[i].Needle() != "" {
      assert (a + b)[i] == a[i];
    }
    forall i | 0 <= i < |b| ensures b[i].Needle() != "" {
      assert (a + b)[|a| + i] == b[i];
    }
  }

  lemma HeldGives(w: string, t: string, q: nat)
    requires Held(w, t, false) && Stands(w, t, q, false)
    ensures exists v: nat :: q + |w| <= v && PlaceholderAt(t, v)
                             && forall k :: q + |w| <= k < v ==> White(t[k]) || t[k] == '"' || t[k] == '\''
  {
    HeldHere(w, t, q);
    var v := RunEnd(SpacesAndQuotes, t, q + |w|);
    HeldParts(w, t, q, v);
    hide HeldAt;
    hide Held;
    assert forall k :: q + |w| <= k < v ==> White(t[k]) || t[k] == '"' || t[k] == '\'';
    assert PlaceholderAt(t, v);
  }

  /** Behind every secret key and "=" or ":" that continues no word, in any case, stands the placeholder, with at most
      white space and quotes between. */
  lemma KeysPromised(cfg: Config, m: string, key: string, sep: string, q: nat)
    requires key in ["api_key", "apikey", "access_token", "refresh_token", "password", "secret", "token", "key_hash",
                     "provider_secret", "openai_api_key", "memcore_dev_api_key", "memcore_api_key_pepper",
                     "memcore_postgres_url", "memcore_redis_url"]
    requires cfg.apiKeys && sep in ["=", ":"]
    requires StandsAt(RedactString(m, cfg), q, key + sep) && !InWord(RedactString(m, cfg), q)
    ensures var t := RedactString(m, cfg);
            exists v: nat :: q + |key + sep| <= v && PlaceholderAt(t, v)
                             && forall k :: q + |key + sep| <= k < v ==> White(t[k]) || t[k] == '"' || t[k] == '\''
  {
    var w, t := key + sep, RedactString(m, cfg);
    var i := KeysAreListed(key);
    StandsAtIs(t, q, w);
    InWordIs(t, q);
    hide RedactString;
    hide Occurs;
    KeysAreNames(i);
    BareKeyed(key, sep);
    ApiKeyIsRule(key, sep, i);
    ApiKeysKeyed();
    OthersThenKeys(cfg, m);
    hide *;
    HeldAll(ApiKeyRules(), w, RedactAll(Others(cfg), m));
    StandsFrom(t, q, w);
    HeldGives(w, t, q);
  }

  lemma StandsFrom(t: string, q: nat, w: string)
    requires Occurs(t, q, w) && !(q > 0 && IsWord(t[q - 1]))
    ensures Stands(w, t, q, false)
  {
    hide Occurs;
  }

  // ---------------------------------------------------------------- headers

  lemma FollowsConcat(a: seq<Rule>, b: seq<Rule>)
    requires Follows(a) && Follows(b)
    ensures Follows(a + b)
  {
    hide Orderly;
    hide Keyed;
  }

  lemma FollowsWhen(enabled: bool, rules: seq<Rule>)
    requires Follows(rules)
    ensures Follows(When(enabled, rules))
  {
    hide Orderly;
    hide Keyed;
  }

  lemma PartsFollow()
    ensures Follows(DatabaseRules()) && Follows(RedisRules()) && Follows(ProviderRules()) && Follows(ApiKeyRules())
    ensures Follows([Token("Bearer "), Token("bearer ")])
  {
    hide Orderly;
    hide Keyed;
    LaterParts();
    BearerOrderly();
    ApiKeysKeyed();
    hide DatabaseRules;
    hide RedisRules;
    hide ProviderRules;
    hide ApiKeyRules;
  }

  lemma LaterFollow(cfg: Config)
    ensures Follows(LaterRules(cfg))
  {
    var d, r := When(cfg.databaseUrls, DatabaseRules()), When(cfg.redisUrls, RedisRules());
    var p, a := When(cfg.providerKeys, ProviderRules()), When(cfg.apiKeys, ApiKeyRules());
    assert LaterRules(cfg) == d + r + p + a;
    hide *;
    PartsFollow();
    FollowsWhen(cfg.databaseUrls, DatabaseRules());
    FollowsWhen(cfg.redisUrls, RedisRules());
    FollowsWhen(cfg.providerKeys, ProviderRules());
    FollowsWhen(cfg.apiKeys, ApiKeyRules());
    FollowsConcat(d, r);
    FollowsConcat(d + r, p);
    FollowsConcat(d + r + p, a);
  }

  /** In every output, headers are sealed. */
  lemma HeadersSealed(cfg: Config, m: string)
    requires cfg.bearerTokens
    ensures Sealed(Authorization, RedactString(m, cfg), false)
  {
    hide *;
    HeaderOrderly();
    OrderlyFacts(Authorization);
    SealedScan(Authorization, Authorization, m, 0);
    RedactIs(Authorization, m);
    BearerThenLater(cfg, m);
    ThreePasses(m);
    PartsFollow();
    var tokens := [Token("Bearer "), Token("bearer ")];
    TwoPasses(Redact(Authorization, m));
    HeaderAll(tokens, Redact(Authorization, m));
    LaterFollow(cfg);
    HeaderAll(LaterRules(cfg), RedactAll(BearerRules(), m));
  }

  lemma RedactIs(rule: Rule, m: string)
    requires rule.Needle() != ""
    ensures Redact(rule, m) == Scan(rule, m, 0)
  {
  }

  lemma TwoPasses(t: string)
    ensures Usable([Token("Bearer "), Token("bearer ")])
    ensures RedactAll([Token("Bearer "), Token("bearer ")], t) == Redact(Token("bearer "), Redact(Token("Bearer "), t))
  {
    hide Redact;
    NoRules(t);
    RedactOneMore([], Token("Bearer "), t);
    RedactOneMore([] + [Token("Bearer ")], Token("bearer "), t);
    assert [Token("Bearer "), Token("bearer ")] == [] + [Token("Bearer ")] + [Token("bearer ")];
  }

  lemma SealedGives(t: string, q: nat)
    requires Sealed(Authorization, t, false) && Occurs(t, q, "authorization:")
    ensures exists v: nat ::
              && q + 14 <= v <= |t| && (forall k :: q + 14 <= k < v ==> White(t[k]))
              && (PlaceholderAt(t, v) || (v + 7 <= |t| && t[v..v + 7] == "Bearer " && PlaceholderAt(t, v + 7)))
  {
    SealedFacts(t, q);
    var v := RunEnd(Spaces, t, q + 14);
    SpacesBetween(t, q, v);
    assert forall k :: q + 14 <= k < v ==> White(t[k]);
    HeadIs(t, q, v);
    assert PlaceholderAt(t, Authorization.Kept(t, q));
    hide Occurs;
    hide RunEnd;
    hide Sealed;
  }

  lemma HeadIs(t: string, q: nat, v: nat)
    requires Occurs(t, q, "authorization:") && v == RunEnd(Spaces, t, q + 14) && Closed(Authorization, t, q)
    ensures Authorization.Kept(t, q) == v
            || (Authorization.Kept(t, q) == v + 7 && v + 7 <= |t| && t[v..v + 7] == "Bearer ")
  {
    hide RunEnd;
    if Occurs(t, v, "bearer ") {
      assert t[q..v + 7] == t[q..v] + "Bearer ";
      assert t[v..v + 7] == t[q..v + 7][v - q..];
    }
    hide Occurs;
  }

  /** Behind every authorization header, in any case, stand white space, "Bearer " if it was a bearer header, and the
      placeholder. */
  lemma HeadersPromised(cfg: Config, m: string, q: nat)
    requires cfg.bearerTokens && StandsAt(RedactString(m, cfg), q, "authorization:")
    ensures var t := RedactString(m, cfg);
            exists v: nat ::
              && q + 14 <= v <= |t| && (forall k :: q + 14 <= k < v ==> White(t[k]))
              && (PlaceholderAt(t, v) || (v + 7 <= |t| && t[v..v + 7] == "Bearer " && PlaceholderAt(t, v + 7)))
  {
    hide *;
    StandsAtIs(RedactString(m, cfg), q, "authorization:");
    HeadersSealed(cfg, m);
    SealedGives(RedactString(m, cfg), q);
  }

  // ---------------------------------------------------------------- ordinary text

  predicate Mark(c: char) { c == ':' || c == '=' || c == '-' || c == '_' }

  /** A needle that is "bearer " or holds a colon, an equals sign, a dash or an underscore. */
  ghost predicate Telling(w: string) {
    (exists k :: 0 <= k < |w| && Mark(w[k])) || (|w| == 7 && Occurs(w, 0, "bearer "))
  }

  ghost predicate AllTelling(rules: seq<Rule>) {
    forall i :: 0 <= i < |rules| ==> Telling(rules[i].Needle())
  }

  lemma TellingAt(w: string, k: nat)
    requires k < |w| && Mark(w[k])
    ensures Telling(w)
  {
  }

  lemma UrlsTelling(schemes: seq<string>)
    requires forall i :: 0 <= i < |schemes| ==> Telling(schemes[i])
    ensures AllTelling(Urls(schemes))
  {
    hide Telling;
  }

  lemma TokensOfTelling(prefixes: seq<string>)
    requires forall i :: 0 <= i < |prefixes| ==> Telling(prefixes[i])
    ensures AllTelling(Tokens(prefixes))
  {
    hide Telling;
  }

  lemma DatabaseTelling()
    ensures AllTelling(DatabaseRules())
  {
    TellingAt("postgres://", 8);
    TellingAt("postgresql://", 10);
    TellingAt("mysql://", 5);
    TellingAt("mongodb://", 7);
    TellingAt("sqlite://", 6);
    TellingAt("sqlite:", 6);
    hide Telling;
    hide Urls;
    UrlsTelling(DATABASE_URL_SCHEMES);
    TellingConcat(Urls(DATABASE_URL_SCHEMES), [Url("sqlite:")]);
  }

  lemma RedisTelling()
    ensures AllTelling(RedisRules())
  {
    TellingAt("redis://", 5);
    TellingAt("rediss://", 6);
    hide Telling;
    UrlsTelling(REDIS_URL_SCHEMES);
  }

  lemma BearersTelling()
    ensures Telling("Bearer ") && Telling("bearer ")
  {
  }

  lemma TokensTelling()
    ensures AllTelling(BearerRules()) && AllTelling(ProviderRules())
  {
    BearersTelling();
    TellingAt("authorization:", 13);
    ProvidersTelling();
    hide Telling;
    hide ProviderRules;
  }

  lemma ProvidersTelling()
    ensures AllTelling(ProviderRules())
  {
    TellingAt("sk-", 2);
    TellingAt("sk_live_", 2);
    TellingAt("sk_test_", 2);
    TellingAt("mc_live_", 2);
    hide Telling;
    hide Tokens;
    TokensOfTelling(PROVIDER_KEY_PREFIXES);
  }

  lemma PatternTelling(x: string)
    requires Pattern(x)
    ensures Telling(x)
  {
    TellingAt(x, |x| - 1);
  }

  lemma KeysTelling()
    ensures AllTelling(ApiKeyRules())
  {
    ApiKeysKeyed();
    hide ApiKeyRules;
    forall i | 0 <= i < |ApiKeyRules()| ensures Telling(ApiKeyRules()[i].Needle()) {
      PatternTelling(ApiKeyRules()[i].pattern);
    }
  }

  lemma TellingConcat(a: seq<Rule>, b: seq<Rule>)
    requires AllTelling(a) && AllTelling(b)
    ensures AllTelling(a + b)
  {
    hide Telling;
  }

  lemma TellingWhen(enabled: bool, rules: seq<Rule>)
    requires AllTelling(rules)
    ensures AllTelling(When(enabled, rules))
  {
    hide Telling;
  }

  lemma RulesTelling(cfg: Config)
    ensures AllTelling(Rules(cfg))
  {
    var b, d := When(cfg.bearerTokens, BearerRules()), When(cfg.databaseUrls, DatabaseRules());
    var r, p := When(cfg.redisUrls, RedisRules()), When(cfg.providerKeys, ProviderRules());
    var a := When(cfg.apiKeys, ApiKeyRules());
    assert Rules(cfg) == b + d + r + p + a;
    hide *;
    DatabaseTelling();
    RedisTelling();
    TokensTelling();
    KeysTelling();
    TellingWhen(cfg.bearerTokens, BearerRules());
    TellingWhen(cfg.databaseUrls, DatabaseRules());
    TellingWhen(cfg.redisUrls, RedisRules());
    TellingWhen(cfg.providerKeys, ProviderRules());
    TellingWhen(cfg.apiKeys, ApiKeyRules());
    TellingConcat(b, d);
    TellingConcat(b + d, r);
    TellingConcat(b + d + r, p);
    TellingConcat(b + d + r + p, a);
  }

  /** Text with none of these characters, and no "bearer ". */
  ghost predicate Ordinary(m: string) {
    (forall k :: 0 <= k < |m| ==> m[k] !in ":=-_") && forall q: nat :: !StandsAt(m, q, "bearer ")
  }

  lemma TellingNot(w: string, m: string, i: nat)
    requires Telling(w) && Ordinary(m)
    ensures !Occurs(m, i, w)
  {
    if k :| 0 <= k < |w| && w[k] in ":=-_" {
      if i + |w| <= |m| {
        assert Lower(m[i + k]) != Lower(w[k]);
      }
    } else {
      StandsAtIs(m, i, "bearer ");
      if Occurs(m, i, w) {
        hide Ordinary;
        OccursChain(m, i, w, 0, "bearer ");
      }
    }
  }

  lemma {:induction false} OrdinaryAll(rules: seq<Rule>, m: string)
    requires Usable(rules) && AllTelling(rules) && Ordinary(m)
    ensures RedactAll(rules, m) == m
    decreases |rules|
  {
    hide Telling;
    hide Ordinary;
    if rules != [] {
      forall k | 0 <= k < |m| ensures !rules[0].Hits(m, k) {
        TellingNot(rules[0].Needle(), m, k);
      }
      hide Occurs;
      CopyUnhit(rules[0], m, 0, |m|);
      ScanEnd(rules[0], m);
      hide Scan;
      assert m[0..|m|] + "" == m;
      OrdinaryAll(rules[1..], m);
    }
  }

  /** Text without ":", "=", "-", "_" and "bearer " comes through unchanged, whatever passes are on. */
  lemma OrdinaryTextStays(cfg: Config, m: string)
    requires Ordinary(m)
    ensures RedactString(m, cfg) == m
  {
    hide *;
    RulesTelling(cfg);
    StringIsAll(cfg, m);
    OrdinaryAll(Rules(cfg), m);
  }
}
