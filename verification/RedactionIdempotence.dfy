/** Redacting twice is redacting once for every message exactly when the key patterns are off. */
module RedactionIdempotence {
  import opened Prelude
  import opened Redaction
  import opened RedactionProperties
  import opened RedactionPipeline
  import opened RedactionSecrecy
  import opened RedactionEndToEnd
  import opened RedactionStability

  // ---------------------------------------------------------------- without key patterns

  lemma HeaderOrderly()
    ensures Orderly(Authorization)
  {
    HeaderLed();
    AuthorizationForeign();
    hide Led;
    hide Foreign;
  }

  lemma TokenOrderly(w: string, k: nat)
    requires k < |LEADS| && Occurs(w, 0, LEADS[k]) && (forall q :: 1 <= q <= |w| - 3 ==> !LooksLed(w, q))
    requires Foreign(w) && w[|w| - 1] !in "/:" && Lower(w[0]) != 'a'
    requires Lower(w[0]) == 'b' ==> |w| == 7 && Occurs(w, 0, "bearer ")
    ensures Orderly(Token(w))
  {
    IsLed(w, k);
    hide Led;
    hide LooksLed;
    hide Foreign;
    hide Occurs;
  }

  lemma UrlOrderly(w: string, k: nat)
    requires k < |LEADS| && Occurs(w, 0, LEADS[k]) && (forall q :: 1 <= q <= |w| - 3 ==> !LooksLed(w, q))
    requires Foreign(w) && (forall j :: 0 <= j < |w| ==> Lower(w[j]) == w[j]) && w[|w| - 1] in "/:"
    requires Lower(w[0]) != 'a' && Lower(w[0]) != 'b'
    ensures Orderly(Url(w))
  {
    IsLed(w, k);
    hide Led;
    hide LooksLed;
    hide Foreign;
    hide Occurs;
  }

  lemma BearerOrderly()
    ensures Orderly(Token("Bearer ")) && Orderly(Token("bearer "))
  {
    hide Orderly;
    hide Foreign;
    BearerForeign();
    TokenOrderly("Bearer ", 1);
    TokenOrderly("bearer ", 1);
  }

  lemma SkOrderly()
    ensures Orderly(Token("sk-")) && Orderly(Token("sk_live_"))
  {
    hide Orderly;
    hide Foreign;
    SkForeign();
    TokenOrderly("sk-", 7);
    TokenOrderly("sk_live_", 8);
  }

  lemma TestKeyOrderly()
    ensures Orderly(Token("sk_test_")) && Orderly(Token("mc_live_"))
  {
    hide Orderly;
    hide Foreign;
    TestKeyForeign();
    TokenOrderly("sk_test_", 8);
    TokenOrderly("mc_live_", 9);
  }

  lemma PostgresOrderly()
    ensures Orderly(Url("postgres://")) && Orderly(Url("postgresql://"))
  {
    hide Orderly;
    hide Foreign;
    PostgresForeign();
    UrlOrderly("postgres://", 2);
    UrlOrderly("postgresql://", 2);
  }

  lemma MysqlOrderly()
    ensures Orderly(Url("mysql://")) && Orderly(Url("mongodb://"))
  {
    hide Orderly;
    hide Foreign;
    MysqlForeign();
    UrlOrderly("mysql://", 3);
    UrlOrderly("mongodb://", 4);
  }

  lemma SqliteOrderly()
    ensures Orderly(Url("sqlite://")) && Orderly(Url("sqlite:"))
  {
    hide Orderly;
    hide Foreign;
    SqliteForeign();
    UrlOrderly("sqlite://", 5);
    UrlOrderly("sqlite:", 5);
  }

  lemma RedisOrderly()
    ensures Orderly(Url("redis://")) && Orderly(Url("rediss://"))
  {
    hide Orderly;
    hide Foreign;
    RedisForeign();
    UrlOrderly("redis://", 6);
    UrlOrderly("rediss://", 6);
  }

  /** Orderly passes, none of them the header pass. */
  ghost predicate Later(rules: seq<Rule>) {
    forall i :: 0 <= i < |rules| ==> Orderly(rules[i]) && !rules[i].Authorization?
  }

  lemma LaterParts()
    ensures Later(DatabaseRules()) && Later(RedisRules()) && Later(ProviderRules())
  {
    hide Orderly;
    PostgresOrderly();
    MysqlOrderly();
    SqliteOrderly();
    RedisOrderly();
    SkOrderly();
    TestKeyOrderly();
  }

  lemma BearerInOrder()
    ensures InOrder(BearerRules())
  {
    hide Orderly;
    HeaderOrderly();
    BearerOrderly();
  }

  lemma LaterConcat(a: seq<Rule>, b: seq<Rule>)
    requires InOrder(a) && Later(b)
    ensures InOrder(a + b)
  {
    hide Orderly;
  }

  lemma LaterWhen(enabled: bool, rules: seq<Rule>)
    ensures Later(rules) ==> Later(When(enabled, rules))
    ensures InOrder(rules) ==> InOrder(When(enabled, rules))
  {
    hide Orderly;
  }

  lemma RulesInOrder(cfg: Config)
    requires !cfg.apiKeys
    ensures InOrder(Rules(cfg))
  {
    var b, d := When(cfg.bearerTokens, BearerRules()), When(cfg.databaseUrls, DatabaseRules());
    var r, p := When(cfg.redisUrls, RedisRules()), When(cfg.providerKeys, ProviderRules());
    assert Rules(cfg) == b + d + r + p + [] == b + d + r + p;
    hide *;
    LaterParts();
    BearerInOrder();
    LaterWhen(cfg.bearerTokens, BearerRules());
    LaterWhen(cfg.databaseUrls, DatabaseRules());
    LaterWhen(cfg.redisUrls, RedisRules());
    LaterWhen(cfg.providerKeys, ProviderRules());
    LaterConcat(b, d);
    LaterConcat(b + d, r);
    LaterConcat(b + d + r, p);
  }

  lemma QuietConfigIdempotent(cfg: Config, m: string)
    requires !cfg.apiKeys
    ensures RedactString(RedactString(m, cfg), cfg) == RedactString(m, cfg)
  {
    hide *;
    RulesInOrder(cfg);
    OrderlyIdempotent(Rules(cfg), m);
    StringIsAll(cfg, m);
    StringIsAll(cfg, RedactString(m, cfg));
  }

  // ---------------------------------------------------------------- with key patterns

  // `key_hash=a"password":z`: the quoted key continues a word, so its pass skips it; the later pass of key_hash puts
  // a placeholder in front of it, and a second redaction finds it.

  const HASH := "key_hash="
  const QUOTED := "\"password\":"

  /** Pairs of neighbours that stand in neither text. */
  ghost predicate OddPair(a: char, b: char) {
    || (a == 'a' && (b == 'u' || b == 'p')) || (a == 'b' && b == 'e') || (a == 'p' && (b == 'o' || b == 'r'))
    || (a == 'm' && (b == 'y' || b == 'o' || b == 'c' || b == 'e')) || (a == 's' && (b == 'q' || b == 'k' || b == 'e'))
    || (a == 'd' && (b == 'i' || b == '=' || b == ':')) || (a == 'c' && b == 'c') || (a == 'e' && b == 'f')
    || (a == 't' && b == 'o') || (a == 'h' && b == ':') || (a == 'o' && b == 'p') || a == '\'' || (a == '"' && b == 'k')
  }

  ghost predicate Odd(w: string) {
    exists k :: 0 <= k < |w| - 1 && OddPair(Lower(w[k]), Lower(w[k + 1]))
  }

  /** A text without such pairs. */
  ghost predicate Even(t: string) {
    forall k :: 0 <= k < |t| - 1 ==> !OddPair(Lower(t[k]), Lower(t[k + 1]))
  }

  lemma OddAt(w: string, k: nat)
    requires k + 1 < |w| && OddPair(Lower(w[k]), Lower(w[k + 1]))
    ensures Odd(w)
  {
  }

  lemma OddFree(w: string, t: string, i: nat)
    requires Odd(w) && Even(t)
    ensures !Occurs(t, i, w)
  {
    var k :| 0 <= k < |w| - 1 && OddPair(Lower(w[k]), Lower(w[k + 1]));
    if i + |w| <= |t| {
      EvenAt(t, i + k);
      assert Lower(t[i + k]) != Lower(w[k]) || Lower(t[i + (k + 1)]) != Lower(w[k + 1]);
    }
  }

  lemma EvenAt(t: string, k: nat)
    requires Even(t) && k + 1 < |t|
    ensures !OddPair(Lower(t[k]), Lower(t[k + 1]))
  {
  }

  lemma OddIdle(rule: Rule, t: string)
    requires Odd(rule.Needle()) && Even(t)
    ensures rule.Needle() != "" && Redact(rule, t) == t
  {
    hide Occurs;
    hide Even;
    forall k | 0 <= k < |t| ensures !rule.Hits(t, k) {
      OddFree(rule.Needle(), t, k);
    }
    CopyUnhit(rule, t, 0, |t|);
    ScanEnd(rule, t);
    hide Scan;
    assert t[0..|t|] + "" == t;
  }

  // ---------------------------------------------------------------- every other needle is odd

  ghost predicate AllOdd(rules: seq<Rule>) {
    forall i :: 0 <= i < |rules| ==> Odd(rules[i].Needle())
  }

  lemma {:induction false} AllIdle(rules: seq<Rule>, t: string)
    requires Usable(rules) && AllOdd(rules) && Even(t)
    ensures RedactAll(rules, t) == t
    decreases |rules|
  {
    hide Odd;
    hide Even;
    if rules != [] {
      OddIdle(rules[0], t);
      AllIdle(rules[1..], t);
    }
  }

  lemma AuthorizationOdd()
    ensures Odd("authorization:")
  {
    hide Odd;
    OddAt("authorization:", 0);
  }

  lemma BearerOdd()
    ensures Odd("Bearer ") && Odd("bearer ")
  {
    hide Odd;
    OddAt("Bearer ", 0);
    OddAt("bearer ", 0);
  }

  lemma SkOdd()
    ensures Odd("sk-") && Odd("sk_live_")
  {
    hide Odd;
    OddAt("sk-", 0);
    OddAt("sk_live_", 0);
  }

  lemma TestKeyOdd()
    ensures Odd("sk_test_") && Odd("mc_live_")
  {
    hide Odd;
    OddAt("sk_test_", 0);
    OddAt("mc_live_", 0);
  }

  lemma PostgresOdd()
    ensures Odd("postgres://") && Odd("postgresql://")
  {
    hide Odd;
    OddAt("postgres://", 0);
    OddAt("postgresql://", 0);
  }

  lemma MysqlOdd()
    ensures Odd("mysql://") && Odd("mongodb://")
  {
    hide Odd;
    OddAt("mysql://", 0);
    OddAt("mongodb://", 0);
  }

  lemma SqliteOdd()
    ensures Odd("sqlite://") && Odd("sqlite:")
  {
    hide Odd;
    OddAt("sqlite://", 0);
    OddAt("sqlite:", 0);
  }

  lemma RedisOdd()
    ensures Odd("redis://") && Odd("rediss://")
  {
    hide Odd;
    OddAt("redis://", 2);
    OddAt("rediss://", 2);
  }

  lemma OddTokens()
    ensures AllOdd(BearerRules()) && AllOdd(ProviderRules())
  {
    hide Odd;
    AuthorizationOdd();
    BearerOdd();
    SkOdd();
    TestKeyOdd();
  }

  lemma OddUrls()
    ensures AllOdd(DatabaseRules()) && AllOdd(RedisRules())
  {
    hide Odd;
    PostgresOdd();
    MysqlOdd();
    SqliteOdd();
    RedisOdd();
  }

  lemma OddKey(key: string)
    requires Odd(key)
    ensures AllOdd(KeyRules(key))
  {
    hide Odd;
    OddEnd(key, "=");
    OddEnd(key, ":");
    OddInside("\"", key, "\":");
    OddInside("'", key, "':");
  }

  lemma OddEnd(key: string, e: string)
    requires Odd(key)
    ensures Odd(key + e)
  {
    var k :| 0 <= k < |key| - 1 && OddPair(Lower(key[k]), Lower(key[k + 1]));
    var w := key + e;
    assert w[k] == key[k] && w[k + 1] == key[k + 1];
    OddAt(w, k);
  }

  lemma OddInside(p: string, key: string, e: string)
    requires Odd(key)
    ensures Odd(p + key + e)
  {
    var k :| 0 <= k < |key| - 1 && OddPair(Lower(key[k]), Lower(key[k + 1]));
    var w := p + key + e;
    assert w[|p| + k] == key[k] && w[|p| + k + 1] == key[k + 1];
    OddAt(w, |p| + k);
  }

  lemma OddConcat(a: seq<Rule>, b: seq<Rule>)
    requires AllOdd(a) && AllOdd(b)
    ensures AllOdd(a + b)
  {
    hide Odd;
  }

  lemma {:induction false} OddKeys(keys: seq<string>)
    requires forall i :: 0 <= i < |keys| ==> Odd(keys[i])
    ensures AllOdd(KeyValues(keys))
  {
    hide Odd;
    if keys != [] {
      OddKey(keys[0]);
      OddKeys(keys[1..]);
      OddConcat(KeyRules(keys[0]), KeyValues(keys[1..]));
    }
  }

  lemma ApiKeyOdd()
    ensures Odd("api_key") && Odd("apikey")
  {
    hide Odd;
    OddAt("api_key", 0);
    OddAt("apikey", 0);
  }

  lemma AccessOdd()
    ensures Odd("access_token") && Odd("refresh_token")
  {
    hide Odd;
    OddAt("access_token", 1);
    OddAt("refresh_token", 1);
  }

  lemma SecretOdd()
    ensures Odd("secret") && Odd("token")
  {
    hide Odd;
    OddAt("secret", 0);
    OddAt("token", 0);
  }

  lemma ProviderOdd()
    ensures Odd("provider_secret") && Odd("openai_api_key")
  {
    hide Odd;
    OddAt("provider_secret", 0);
    OddAt("openai_api_key", 0);
  }

  lemma DevKeyOdd()
    ensures Odd("memcore_dev_api_key")
  {
    hide Odd;
    OddAt("memcore_dev_api_key", 0);
  }

  lemma PepperOdd()
    ensures Odd("memcore_api_key_pepper")
  {
    hide Odd;
    OddAt("memcore_api_key_pepper", 0);
  }

  lemma PostgresUrlOdd()
    ensures Odd("memcore_postgres_url")
  {
    hide Odd;
    OddAt("memcore_postgres_url", 0);
  }

  lemma RedisUrlOdd()
    ensures Odd("memcore_redis_url")
  {
    hide Odd;
    OddAt("memcore_redis_url", 0);
  }

  /** The keys but "password" and "key_hash". */
  lemma KeysOdd(i: nat)
    requires i < |KEY_VALUE_SECRET_KEYS| && i != 4 && i != 7
    ensures Odd(KEY_VALUE_SECRET_KEYS[i])
  {
    hide Odd;
    ApiKeyOdd();
    AccessOdd();
    SecretOdd();
    ProviderOdd();
    DevKeyOdd();
    PepperOdd();
    PostgresUrlOdd();
    RedisUrlOdd();
  }

  // ---------------------------------------------------------------- the two texts

  function Message(): string { HASH + "a" + QUOTED + "z" }

  function Once(): string { HASH + PLACEHOLDER + QUOTED + "z" }

  lemma EvenConcat(a: string, b: string)
    requires Even(a) && Even(b) && a != "" && b != "" && !OddPair(Lower(a[|a| - 1]), Lower(b[0]))
    ensures Even(a + b)
  {
    var t := a + b;
    forall k | 0 <= k < |t| - 1 ensures !OddPair(Lower(t[k]), Lower(t[k + 1])) {
      if k < |a| - 1 {
        EvenAt(a, k);
      } else if k >= |a| {
        EvenAt(b, k - |a|);
      }
    }
  }

  lemma KeyEven() ensures Even("key_") && Even("hash=") { }
  lemma QuotedEven() ensures Even("\"passw") && Even("ord\":") { }
  lemma PlaceholderEven() ensures Even("[REDA") && Even("CTED]") { }
  lemma LettersEven() ensures Even("a") && Even("z") { }

  lemma PiecesEven()
    ensures Even(HASH) && Even(QUOTED) && Even(PLACEHOLDER)
  {
    KeyEven();
    QuotedEven();
    PlaceholderEven();
    hide Even;
    EvenConcat("key_", "hash=");
    EvenConcat("\"passw", "ord\":");
    EvenConcat("[REDA", "CTED]");
    assert "key_" + "hash=" == HASH && "\"passw" + "ord\":" == QUOTED && "[REDA" + "CTED]" == PLACEHOLDER;
  }

  lemma TailEven()
    ensures Even(QUOTED + "z")
  {
    hide Even;
    PiecesEven();
    LettersEven();
    EvenConcat(QUOTED, "z");
  }

  lemma MessageEven()
    ensures Even(Message())
  {
    hide Even;
    PiecesEven();
    LettersEven();
    TailEven();
    EvenConcat(HASH, "a");
    EvenConcat(HASH + "a", QUOTED + "z");
    Assoc(HASH + "a", QUOTED, "z");
  }

  lemma OnceEven()
    ensures Even(Once())
  {
    hide Even;
    PiecesEven();
    TailEven();
    EvenConcat(HASH, PLACEHOLDER);
    EvenConcat(HASH + PLACEHOLDER, QUOTED + "z");
    Assoc(HASH + PLACEHOLDER, QUOTED, "z");
  }

  lemma MessageChars(m: string)
    requires m == Message()
    ensures |m| == 22 && m[9] == 'a' && m[10] == '"' && m[0..9] == HASH && m[10..22] == QUOTED + "z"
    ensures forall k :: 0 <= k < 10 ==> m[k] != '"'
    ensures forall k :: 10 <= k < 22 ==> Lower(m[k]) != 'k'
  {
    assert m == "key_hash=a\"password\":z";
  }

  lemma OnceChars(n: string)
    requires n == Once()
    ensures |n| == 31 && n[18] == ']' && n[30] == 'z' && n[0..19] == HASH + PLACEHOLDER && n[19..30] == QUOTED
    ensures forall k :: 0 <= k < 19 ==> n[k] != '"'
  {
    assert n == "key_hash=[REDACTED]\"password\":z";
  }

  /** The quoted key continues a word, so its pass leaves the message alone. */
  lemma QuotedSkips(m: string)
    requires m == Message()
    ensures Redact(KeyValue(QUOTED), m) == m
  {
    MessageChars(m);
    hide Message;
    forall k | 0 <= k < |m| ensures !KeyValue(QUOTED).Hits(m, k) {
      if k < 10 {
        QuotedNot(m, k);
      }
    }
    hide Occurs;
    CopyUnhit(KeyValue(QUOTED), m, 0, |m|);
    ScanEnd(KeyValue(QUOTED), m);
    hide Scan;
    assert m[0..|m|] + "" == m;
  }

  /** The pass of key_hash takes that word away. */
  lemma HashTakes(m: string)
    requires m == Message()
    ensures Redact(KeyValue(HASH), m) == Once()
  {
    var rule := KeyValue(HASH);
    MessageChars(m);
    hide Message;
    assert m == m[0..9] + m[9..];
    OccursSelf(HASH, m[9..]);
    forall k | 10 <= k < |m| ensures !rule.Hits(m, k) {
      OccursNext(m, k, HASH);
    }
    RunIs(SpacesAndQuotes, m, 9, 9);
    RunIs(NonDelimiters, m, 9, 10);
    hide Occurs;
    hide RunEnd;
    CopyUnhit(rule, m, 10, |m|);
    ScanEnd(rule, m);
    hide Scan;
    ScanHit(rule, m, 0);
    assert m[10..|m|] == QUOTED + "z";
    assert HASH + PLACEHOLDER + (QUOTED + "z" + "") == Once();
  }

  lemma QuotedHit(n: string)
    requires |n| == 31 && n[18] == ']' && n[19..30] == QUOTED
    ensures KeyValue(QUOTED).Hits(n, 19)
  {
    assert n[19..] == n[19..30] + n[30..];
    OccursSelf(QUOTED, n[30..]);
    OccursInTail(n, 19, n[19..], 0, QUOTED);
    hide Occurs;
  }

  lemma QuotedNot(n: string, k: nat)
    requires k < |n| && n[k] != '"'
    ensures !KeyValue(QUOTED).Hits(n, k)
  {
    OccursNext(n, k, QUOTED);
    hide Occurs;
  }

  lemma QuotedAt(n: string, rule: Rule)
    requires n == Once() && rule == KeyValue(QUOTED)
    ensures |n| == 31 && rule.Hits(n, 19) && (forall k :: 0 <= k < 19 ==> !rule.Hits(n, k))
    ensures RunEnd(SpacesAndQuotes, n, 30) == 30 && RunEnd(NonDelimiters, n, 30) == 31 && n[19..30] == QUOTED
  {
    hide Once;
    hide Occurs;
    OnceChars(n);
    RunIs(SpacesAndQuotes, n, 30, 30);
    RunIs(NonDelimiters, n, 30, 31);
    QuotedHit(n);
    forall k | 0 <= k < 19 ensures !rule.Hits(n, k) {
      QuotedNot(n, k);
    }
  }

  lemma QuotedCut(n: string, rule: Rule)
    requires rule == KeyValue(QUOTED) && |n| == 31 && rule.Hits(n, 19) && n[19..30] == QUOTED
    requires RunEnd(SpacesAndQuotes, n, 30) == 30 && RunEnd(NonDelimiters, n, 30) == 31
    ensures Occurs(n, 19, rule.Needle()) && rule.Head(n, 19) == QUOTED && rule.End(n, 19) == 31
  {
    hide Occurs;
    hide RunEnd;
  }

  /** Behind the placeholder the quoted key is found. */
  lemma QuotedTakes(n: string)
    requires n == Once()
    ensures Redact(KeyValue(QUOTED), n) == n[0..19] + (QUOTED + PLACEHOLDER + "")
  {
    var rule := KeyValue(QUOTED);
    assert rule.Needle() != "";
    hide Once;
    hide Occurs;
    hide RunEnd;
    hide Scan;
    QuotedAt(n, rule);
    QuotedCut(n, rule);
    CopyUnhit(rule, n, 0, 19);
    ScanHit(rule, n, 19);
    ScanEnd(rule, n);
  }

  lemma PartsLack()
    ensures Lacks(HASH, 'z') && Lacks(QUOTED, 'z') && Lacks(PLACEHOLDER, 'z') && Lacks("", 'z')
  {
  }

  lemma TwiceLacks(n: string)
    requires n == Once()
    ensures Lacks(Redact(KeyValue(QUOTED), n), 'z')
  {
    OnceChars(n);
    QuotedTakes(n);
    PartsLack();
    hide *;
    LacksConcat(HASH, PLACEHOLDER, 'z');
    LacksConcat(QUOTED, PLACEHOLDER, 'z');
    LacksConcat(QUOTED + PLACEHOLDER, "", 'z');
    LacksConcat(n[0..19], QUOTED + PLACEHOLDER + "", 'z');
  }

  // ---------------------------------------------------------------- the passes in order

  lemma PasswordOdd()
    ensures Odd("password=") && Odd("password:") && Odd("'password':")
  {
    hide Odd;
    OddAt("password=", 7);
    OddAt("password:", 7);
    OddAt("'password':", 0);
  }

  lemma HashOdd()
    ensures Odd("key_hash:") && Odd("\"key_hash\":") && Odd("'key_hash':")
  {
    hide Odd;
    OddAt("key_hash:", 7);
    OddAt("\"key_hash\":", 0);
    OddAt("'key_hash':", 0);
  }

  lemma PasswordRules()
    ensures KeyRules("password")
         == [KeyValue("password="), KeyValue("password:"), KeyValue(QUOTED), KeyValue("'password':")]
  {
    assert "password" + "=" == "password=" && "password" + ":" == "password:";
    assert "\"" + "password" + "\":" == QUOTED && "'" + "password" + "':" == "'password':";
  }

  lemma HashRules()
    ensures KeyRules("key_hash")
         == [KeyValue(HASH), KeyValue("key_hash:"), KeyValue("\"key_hash\":"), KeyValue("'key_hash':")]
  {
    assert "key_hash" + "=" == HASH && "key_hash" + ":" == "key_hash:";
    assert "\"" + "key_hash" + "\":" == "\"key_hash\":" && "'" + "key_hash" + "':" == "'key_hash':";
  }

  lemma FourPasses(a: Rule, b: Rule, c: Rule, d: Rule, t: string)
    requires a.Needle() != "" && b.Needle() != "" && c.Needle() != "" && d.Needle() != ""
    ensures RedactAll([a, b, c, d], t) == Redact(d, Redact(c, Redact(b, Redact(a, t))))
  {
    hide Redact;
    NoRules(t);
    RedactOneMore([], a, t);
    RedactOneMore([] + [a], b, t);
    RedactOneMore([] + [a] + [b], c, t);
    RedactOneMore([] + [a] + [b] + [c], d, t);
    assert [a, b, c, d] == [] + [a] + [b] + [c] + [d];
  }

  /** The passes of the quoted key skip the message, and find the key in the redacted one. */
  lemma PasswordPasses(m: string, n: string)
    requires m == Message() && n == Once()
    ensures Usable(KeyRules("password")) && RedactAll(KeyRules("password"), m) == m
    ensures Lacks(RedactAll(KeyRules("password"), n), 'z')
  {
    PasswordRules();
    var a, b, c, d := KeyValue("password="), KeyValue("password:"), KeyValue(QUOTED), KeyValue("'password':");
    assert a.Needle() != "" && b.Needle() != "" && c.Needle() != "" && d.Needle() != "";
    assert a.Needle() == "password=" && b.Needle() == "password:" && d.Needle() == "'password':";
    assert KeyRules("password") == [a, b, c, d] && Usable([a, b, c, d]);
    hide *;
    PasswordOdd();
    MessageEven();
    OnceEven();
    PartsLack();
    FourPasses(a, b, c, d, m);
    FourPasses(a, b, c, d, n);
    OddIdle(a, m);
    OddIdle(b, m);
    QuotedSkips(m);
    OddIdle(d, m);
    OddIdle(a, n);
    OddIdle(b, n);
    TwiceLacks(n);
    RedactLacks(d, Redact(c, n));
  }

  lemma RedactLacks(rule: Rule, t: string)
    requires rule.Needle() != "" && Lacks(t, 'z') && Lacks(PLACEHOLDER, 'z')
    ensures Lacks(Redact(rule, t), 'z')
  {
    ScanLacks(rule, t, 0, 'z');
  }

  lemma HashPasses(m: string, n: string)
    requires m == Message() && n == Once()
    ensures Usable(KeyRules("key_hash")) && RedactAll(KeyRules("key_hash"), m) == n
  {
    HashRules();
    var a, b, c, d := KeyValue(HASH), KeyValue("key_hash:"), KeyValue("\"key_hash\":"), KeyValue("'key_hash':");
    assert a.Needle() != "" && b.Needle() != "" && c.Needle() != "" && d.Needle() != "";
    assert b.Needle() == "key_hash:" && c.Needle() == "\"key_hash\":" && d.Needle() == "'key_hash':";
    assert KeyRules("key_hash") == [a, b, c, d] && Usable([a, b, c, d]);
    hide *;
    HashOdd();
    OnceEven();
    FourPasses(a, b, c, d, m);
    HashTakes(m);
    OddIdle(b, n);
    OddIdle(c, n);
    OddIdle(d, n);
  }

  lemma {:induction false} KeyValuesConcat(a: seq<string>, b: seq<string>)
    ensures KeyValues(a + b) == KeyValues(a) + KeyValues(b)
  {
    if a == [] {
      assert a + b == b;
    } else {
      assert (a + b)[1..] == a[1..] + b;
      KeyValuesConcat(a[1..], b);
    }
  }

  /** The passes in front of the quoted key's, between it and key_hash, and behind. */
  function Before(cfg: Config): seq<Rule> { Others(cfg) + Front() }

  function Front(): seq<Rule> { KeyValues(KEY_VALUE_SECRET_KEYS[..4]) }

  function Others(cfg: Config): seq<Rule> {
    When(cfg.bearerTokens, BearerRules()) + When(cfg.databaseUrls, DatabaseRules())
    + When(cfg.redisUrls, RedisRules()) + When(cfg.providerKeys, ProviderRules())
  }

  function Between(): seq<Rule> { KeyValues(KEY_VALUE_SECRET_KEYS[5..7]) }

  function Behind(): seq<Rule> { KeyValues(KEY_VALUE_SECRET_KEYS[8..]) }

  lemma KeyAt(keys: seq<string>, k: nat)
    requires k < |keys|
    ensures KeyValues(keys[k..]) == KeyRules(keys[k]) + KeyValues(keys[k + 1..])
  {
    hide KeyRules;
    assert keys[k..][1..] == keys[k + 1..];
  }

  lemma KeySplit(keys: seq<string>, i: nat, k: nat)
    requires i <= k <= |keys|
    ensures KeyValues(keys[i..]) == KeyValues(keys[i..k]) + KeyValues(keys[k..])
  {
    assert keys[i..] == keys[i..k] + keys[k..];
    KeyValuesConcat(keys[i..k], keys[k..]);
    hide KeyValues;
  }

  lemma KeyOrder(keys: seq<string>)
    requires |keys| == 14
    ensures KeyValues(keys)
         == KeyValues(keys[..4])
            + (KeyRules(keys[4]) + (KeyValues(keys[5..7]) + (KeyRules(keys[7]) + KeyValues(keys[8..]))))
  {
    assert keys[0..] == keys && keys[0..4] == keys[..4];
    hide *;
    KeySplit(keys, 0, 4);
    KeyAt(keys, 4);
    KeySplit(keys, 5, 7);
    KeyAt(keys, 7);
  }

  lemma ApiKeyOrder()
    ensures ApiKeyRules() == Front() + (KeyRules("password") + (Between() + (KeyRules("key_hash") + Behind())))
  {
    hide KeyValues;
    hide KeyRules;
    KeyOrder(KEY_VALUE_SECRET_KEYS);
    assert KEY_VALUE_SECRET_KEYS[4] == "password" && KEY_VALUE_SECRET_KEYS[7] == "key_hash";
  }

  lemma OthersFirst(cfg: Config)
    requires cfg.apiKeys
    ensures Rules(cfg) == Others(cfg) + ApiKeyRules()
  {
    hide BearerRules;
    hide DatabaseRules;
    hide RedisRules;
    hide ProviderRules;
    hide ApiKeyRules;
  }

  lemma BeforeIs(cfg: Config)
    ensures Before(cfg) == Others(cfg) + Front()
  {
    hide Others;
    hide Front;
  }

  lemma Regroup3(x: seq<Rule>, y: seq<Rule>, z: seq<Rule>)
    ensures x + (y + z) == x + y + z
  {
  }

  lemma RulesOrder(cfg: Config)
    requires cfg.apiKeys
    ensures Rules(cfg) == Before(cfg) + (KeyRules("password") + (Between() + (KeyRules("key_hash") + Behind())))
  {
    hide *;
    ApiKeyOrder();
    OthersFirst(cfg);
    BeforeIs(cfg);
    Regroup3(Others(cfg), Front(), KeyRules("password") + (Between() + (KeyRules("key_hash") + Behind())));
  }

  lemma OddWhen(enabled: bool, rules: seq<Rule>)
    requires AllOdd(rules)
    ensures AllOdd(When(enabled, rules))
  {
    hide Odd;
  }

  lemma KeySliceOdd(i: nat, j: nat)
    requires i <= j <= |KEY_VALUE_SECRET_KEYS| && (j <= 4 || (5 <= i && j <= 7) || 8 <= i)
    ensures AllOdd(KeyValues(KEY_VALUE_SECRET_KEYS[i..j]))
  {
    hide Odd;
    var keys := KEY_VALUE_SECRET_KEYS[i..j];
    forall k | 0 <= k < |keys| ensures Odd(keys[k]) {
      KeysOdd(i + k);
    }
    hide KeyValues;
    OddKeys(keys);
  }

  lemma PartsOdd(cfg: Config)
    ensures AllOdd(Before(cfg)) && AllOdd(Between()) && AllOdd(Behind())
  {
    var keys := KEY_VALUE_SECRET_KEYS;
    assert keys[0..4] == keys[..4] && keys[8..14] == keys[8..];
    hide AllOdd;
    hide KeyValues;
    KeySliceOdd(0, 4);
    KeySliceOdd(5, 7);
    KeySliceOdd(8, 14);
    hide BearerRules;
    hide DatabaseRules;
    hide RedisRules;
    hide ProviderRules;
    hide When;
    OddTokens();
    OddUrls();
    var b, d := When(cfg.bearerTokens, BearerRules()), When(cfg.databaseUrls, DatabaseRules());
    var r, p := When(cfg.redisUrls, RedisRules()), When(cfg.providerKeys, ProviderRules());
    OddWhen(cfg.bearerTokens, BearerRules());
    OddWhen(cfg.databaseUrls, DatabaseRules());
    OddWhen(cfg.redisUrls, RedisRules());
    OddWhen(cfg.providerKeys, ProviderRules());
    OddConcat(b, d);
    OddConcat(b + d, r);
    OddConcat(b + d + r, p);
    OddConcat(b + d + r + p, KeyValues(keys[..4]));
  }

  lemma OddUsable(rules: seq<Rule>)
    requires AllOdd(rules)
    ensures Usable(rules)
  {
  }

  lemma StagesIs(cfg: Config, t: string)
    requires cfg.apiKeys && Usable(Before(cfg)) && Usable(Between()) && Usable(Behind())
    requires Usable(KeyRules("password")) && Usable(KeyRules("key_hash"))
    ensures RedactString(t, cfg)
         == RedactAll(Behind(), RedactAll(KeyRules("key_hash"), RedactAll(Between(),
              RedactAll(KeyRules("password"), RedactAll(Before(cfg), t)))))
  {
    hide *;
    RulesOrder(cfg);
    StringIsAll(cfg, t);
    var a, p, b, h, e := Before(cfg), KeyRules("password"), Between(), KeyRules("key_hash"), Behind();
    var t1 := RedactAll(a, t);
    var t2 := RedactAll(p, t1);
    var t3 := RedactAll(b, t2);
    RedactAllConcat(h, e, t3);
    RedactAllConcat(b, h + e, t2);
    RedactAllConcat(p, b + (h + e), t1);
    RedactAllConcat(a, p + (b + (h + e)), t);
  }

  lemma FirstTime(cfg: Config, m: string, n: string)
    requires cfg.apiKeys && m == Message() && n == Once()
    ensures RedactString(m, cfg) == n && Lacks(RedactString(n, cfg), 'z')
  {
    hide *;
    PartsOdd(cfg);
    OddUsable(Before(cfg));
    OddUsable(Between());
    OddUsable(Behind());
    PasswordPasses(m, n);
    HashPasses(m, n);
    StagesIs(cfg, m);
    StagesIs(cfg, n);
    MessageEven();
    OnceEven();
    PartsLack();
    AllIdle(Before(cfg), m);
    AllIdle(Before(cfg), n);
    AllIdle(Between(), m);
    AllIdle(Behind(), n);
    var t2 := RedactAll(KeyRules("password"), n);
    AllLack(Between(), t2, 'z');
    AllLack(KeyRules("key_hash"), RedactAll(Between(), t2), 'z');
    AllLack(Behind(), RedactAll(KeyRules("key_hash"), RedactAll(Between(), t2)), 'z');
  }

  lemma OnceHas(n: string, t: string)
    requires n == Once() && Lacks(t, 'z')
    ensures t != n
  {
    OnceChars(n);
    hide Once;
    assert Lower(n[30]) == 'z';
  }

  /** With the key patterns on, redacting this message twice is not redacting it once. */
  lemma KeyConfigIsNot(cfg: Config)
    requires cfg.apiKeys
    ensures RedactString(RedactString(Message(), cfg), cfg) != RedactString(Message(), cfg)
  {
    hide *;
    FirstTime(cfg, Message(), Once());
    OnceHas(Once(), RedactString(Once(), cfg));
  }

  /** For every configuration: redacting twice is redacting once on every message exactly when the key patterns
      are off. */
  lemma RedactTwiceIff(cfg: Config)
    ensures (forall m :: RedactString(RedactString(m, cfg), cfg) == RedactString(m, cfg)) <==> !cfg.apiKeys
  {
    hide *;
    if cfg.apiKeys {
      KeyConfigIsNot(cfg);
    } else {
      forall m ensures RedactString(RedactString(m, cfg), cfg) == RedactString(m, cfg) {
        QuietConfigIdempotent(cfg, m);
      }
    }
  }
}
