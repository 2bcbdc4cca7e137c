/** Redaction of JSON values: secret-bearing keys lose their value, every other string is redacted in place. */
module JsonRedaction {
  import opened Prelude
  import opened Redaction
  import opened RedactionProperties
  import opened RedactionPipeline

  datatype Json =
    | Null
    | Bool(b: bool)
    | Number(n: real)
    | String(s: string)
    | Array(items: seq<Json>)
    | Object(fields: map<string, Json>)

  const SENSITIVE_JSON_KEYS := [
    "password", "secret", "token", "api_key", "apikey", "access_token", "refresh_token", "key_hash",
    "provider_secret", "authorization", "openai_api_key", "bearer", "raw_key", "pepper"]

  // ---------------------------------------------------------------- keys

  function Normalize(key: string): string {
    Normalized(Trim(key))
  }

  function Normalized(t: string): string {
    seq(|t|, i requires 0 <= i < |t| => if t[i] == '-' then '_' else Lower(t[i]))
  }

  predicate IsSensitiveKey(key: string) {
    Normalize(key) in SENSITIVE_JSON_KEYS
  }

  // ---------------------------------------------------------------- values

  function RedactJson(v: Json, cfg: Config): Json
    decreases v, 0
  {
    match v
    case Object(fields) => Object(map k | k in fields :: RedactField(k, fields[k], cfg))
    case Array(items) => Array(seq(|items|, i requires 0 <= i < |items| => RedactJson(items[i], cfg)))
    case String(s) => String(RedactString(s, cfg))
    case _ => v
  }

  function RedactField(key: string, v: Json, cfg: Config): Json
    decreases v, 1
  {
    if IsSensitiveKey(key) then String(PLACEHOLDER) else RedactJson(v, cfg)
  }

  method RedactJsonValue(value: Json, cfg: Config) returns (r: Json)
    ensures r == RedactJson(value, cfg)
    decreases value, 1
  {
    hide IsSensitiveKey;
    hide RedactString;
    match value
    case Object(fields) =>
      var out := RedactObject(fields, cfg, value);
      r := Object(out);
    case Array(items) =>
      var out: seq<Json> := [];
      for i := 0 to |items|
        invariant |out| == i && forall k :: 0 <= k < i ==> out[k] == RedactJson(items[k], cfg)
      {
        var item := RedactJsonValue(items[i], cfg);
        out := out + [item];
      }
      r := Array(out);
    case String(text) =>
      var out := RedactStrWithConfig(text, cfg);
      r := String(out);
    case _ => r := value;
  }

  /** Fills a new object, visiting the fields in any order. */
  method RedactObject(fields: map<string, Json>, cfg: Config, ghost whole: Json) returns (out: map<string, Json>)
    requires whole == Object(fields)
    ensures Object(out) == RedactJson(whole, cfg)
    decreases whole, 0
  {
    hide IsSensitiveKey;
    hide RedactString;
    out := map[];
    var rest := fields.Keys;
    while rest != {}
      invariant rest <= fields.Keys && out.Keys == fields.Keys - rest
      invariant forall k :: k in out ==> out[k] == RedactField(k, fields[k], cfg)
      decreases |rest|
    {
      var key :| key in rest;
      rest := rest - {key};
      if IsSensitiveKey(key) {
        out := out[key := String(PLACEHOLDER)];
      } else {
        var value := RedactJsonValue(fields[key], cfg);
        out := out[key := value];
      }
    }
    assert out == RedactJson(whole, cfg).fields;
  }

  // ---------------------------------------------------------------- secrecy

  /** The two values differ at most beneath sensitive keys. */
  ghost predicate SameOutside(v: Json, w: Json) {
    match (v, w)
    case (Object(f), Object(g)) =>
      f.Keys == g.Keys && forall k :: k in f && !IsSensitiveKey(k) ==> SameOutside(f[k], g[k])
    case (Array(a), Array(b)) => |a| == |b| && forall i :: 0 <= i < |a| ==> SameOutside(a[i], b[i])
    case _ => v == w
  }

  /** What stands beneath a sensitive key, at any depth, has no influence on the redacted value. */
  lemma {:induction false} SecretsAreGone(v: Json, w: Json, cfg: Config)
    requires SameOutside(v, w)
    ensures RedactJson(v, cfg) == RedactJson(w, cfg)
  {
    hide IsSensitiveKey;
    hide RedactString;
    match (v, w)
    case (Object(f), Object(g)) =>
      forall k | k in f && !IsSensitiveKey(k) ensures RedactJson(f[k], cfg) == RedactJson(g[k], cfg) {
        SecretsAreGone(f[k], g[k], cfg);
      }
      assert RedactJson(v, cfg).fields == RedactJson(w, cfg).fields;
    case (Array(a), Array(b)) =>
      forall i | 0 <= i < |a| ensures RedactJson(a[i], cfg) == RedactJson(b[i], cfg) {
        SecretsAreGone(a[i], b[i], cfg);
      }
      assert RedactJson(v, cfg).items == RedactJson(w, cfg).items;
    case _ =>
  }

  // ---------------------------------------------------------------- shape

  datatype Step = Key(key: string) | Index(i: nat)

  /** The value reached by following a path, if there is one. */
  function At(v: Json, path: seq<Step>): Option<Json>
    decreases |path|
  {
    if path == [] then Some(v)
    else match (v, path[0])
      case (Object(fields), Key(k)) => if k in fields then At(fields[k], path[1..]) else None
      case (Array(items), Index(i)) => if i < |items| then At(items[i], path[1..]) else None
      case _ => None
  }

  /** Length of the part of a path in front of its first sensitive key. */
  function Exposed(path: seq<Step>): (n: nat)
    ensures n <= |path|
    ensures n < |path| ==> path[n].Key? && IsSensitiveKey(path[n].key)
    ensures forall j :: 0 <= j < n ==> !(path[j].Key? && IsSensitiveKey(path[j].key))
  {
    if path == [] || (path[0].Key? && IsSensitiveKey(path[0].key)) then 0 else 1 + Exposed(path[1..])
  }

  /** Two values with the same outside: scalars that are no strings agree, containers have the same members. */
  ghost predicate SameShape(v: Json, r: Json, cfg: Config) {
    match (v, r)
    case (String(s), String(t)) => t == RedactString(s, cfg)
    case (Array(a), Array(b)) => |a| == |b|
    case (Object(f), Object(g)) => f.Keys == g.Keys
    case _ => v == r
  }

  /** Along every path: up to the first sensitive key the value has the shape it had, at that key it is the
      placeholder, and there is nothing below. */
  lemma {:induction false} ShapeIsKept(v: Json, cfg: Config, path: seq<Step>)
    ensures var n := Exposed(path);
            var r := At(RedactJson(v, cfg), path);
            if n == |path| then
              && (r.Some? <==> At(v, path).Some?)
              && (r.Some? ==> SameShape(At(v, path).value, r.value, cfg))
            else if n + 1 == |path| then
              r == if At(v, path).Some? then Some(String(PLACEHOLDER)) else None
            else r.None?
    decreases |path|
  {
    hide IsSensitiveKey;
    hide RedactString;
    if path != [] {
      match (v, path[0])
      case (Object(fields), Key(k)) =>
        if k in fields {
          if IsSensitiveKey(k) {
            assert At(RedactJson(v, cfg), path) == At(String(PLACEHOLDER), path[1..]);
          } else {
            ShapeIsKept(fields[k], cfg, path[1..]);
          }
        }
      case (Array(items), Index(i)) =>
        if i < |items| {
          ShapeIsKept(items[i], cfg, path[1..]);
        }
      case _ =>
    }
  }

  // ---------------------------------------------------------------- every string at every depth

  lemma PlaceholderFollowed(w: string)
    requires Foreign(w)
    ensures Followed(w, PLACEHOLDER)
  {
    forall q: nat ensures !Occurs(PLACEHOLDER, q, w) {
      if q < 10 {
        assert PLACEHOLDER[0..10] == PLACEHOLDER;
        NotInPlaceholder(PLACEHOLDER, 0, q, w);
      }
    }
  }

  /** Wherever a string stands in a redacted value, the URL schemes in it are followed by the placeholder. */
  lemma {:induction false} JsonUrlsStayRedacted(v: Json, cfg: Config, path: seq<Step>, scheme: string)
    requires Enabled(cfg, scheme)
    requires At(RedactJson(v, cfg), path).Some? && At(RedactJson(v, cfg), path).value.String?
    ensures Followed(scheme, At(RedactJson(v, cfg), path).value.s)
    decreases |path|
  {
    SchemesForeign(scheme);
    PlaceholderFollowed(scheme);
    hide IsSensitiveKey;
    hide Followed;
    if path == [] {
      UrlsStayRedacted(cfg, v.s, scheme);
    } else {
      match (v, path[0])
      case (Object(fields), Key(k)) =>
        if IsSensitiveKey(k) {
          assert path[1..] == [];
        } else {
          JsonUrlsStayRedacted(fields[k], cfg, path[1..], scheme);
        }
      case (Array(items), Index(i)) =>
        JsonUrlsStayRedacted(items[i], cfg, path[1..], scheme);
    }
  }

  // ---------------------------------------------------------------- which keys are secret

  /** `v` is the name in any case, with dashes for underscores at will. */
  predicate Spells(v: string, name: string) {
    |v| == |name| && forall k :: 0 <= k < |v| ==> SameLetter(v[k], name[k]) || (name[k] == '_' && v[k] == '-')
  }

  predicate AllWhite(s: string) {
    forall k :: 0 <= k < |s| ==> IsWhite(s[k])
  }

  /** A secret name, with white space around it. */
  ghost predicate Named(key: string) {
    exists a: string, v: string, b: string, i: nat ::
      key == a + v + b && AllWhite(a) && AllWhite(b) && i < 14
      && Spells(v, ["password", "secret", "token", "api_key", "apikey", "access_token", "refresh_token", "key_hash",
                    "provider_secret", "authorization", "openai_api_key", "bearer", "raw_key", "pepper"][i])
  }

  lemma {:induction false} TrimStartParts(s: string) returns (a: string)
    ensures AllWhite(a) && s == a + TrimStart(s) && (TrimStart(s) != "" ==> !IsWhite(TrimStart(s)[0]))
  {
    if s != "" && IsWhite(s[0]) {
      var rest := TrimStartParts(s[1..]);
      a := [s[0]] + rest;
    } else {
      a := "";
    }
  }

  lemma {:induction false} TrimEndParts(s: string) returns (b: string)
    ensures AllWhite(b) && s == TrimEnd(s) + b
  {
    if s != "" && IsWhite(s[|s| - 1]) {
      var rest := TrimEndParts(s[..|s| - 1]);
      b := rest + [s[|s| - 1]];
    } else {
      b := "";
    }
  }

  lemma {:induction false} TrimStartOf(a: string, v: string)
    requires AllWhite(a) && v != "" && !IsWhite(v[0])
    ensures TrimStart(a + v) == v
  {
    if a == "" {
      assert a + v == v;
    } else {
      assert (a + v)[1..] == a[1..] + v;
      TrimStartOf(a[1..], v);
    }
  }

  lemma {:induction false} TrimEndOf(v: string, b: string)
    requires AllWhite(b) && v != "" && !IsWhite(v[|v| - 1])
    ensures TrimEnd(v + b) == v
    decreases |b|
  {
    if b == "" {
      assert v + b == v;
    } else {
      assert (v + b)[..|v + b| - 1] == v + b[..|b| - 1];
      TrimEndOf(v, b[..|b| - 1]);
    }
  }

  lemma TrimOf(a: string, v: string, b: string)
    requires AllWhite(a) && AllWhite(b) && v != "" && !IsWhite(v[0]) && !IsWhite(v[|v| - 1])
    ensures Trim(a + v + b) == v
  {
    assert a + v + b == a + (v + b);
    TrimStartOf(a, v + b);
    TrimEndOf(v, b);
  }

  lemma NamesArePlain(i: nat)
    requires i < 14
    ensures SENSITIVE_JSON_KEYS[i] != ""
    ensures forall k :: 0 <= k < |SENSITIVE_JSON_KEYS[i]| ==>
              'a' <= SENSITIVE_JSON_KEYS[i][k] <= 'z' || SENSITIVE_JSON_KEYS[i][k] == '_'
  {
  }

  /** Normalizing compares a trimmed key with a plain name as spelling does. */
  lemma SpellsIs(t: string, name: string)
    requires forall k :: 0 <= k < |name| ==> 'a' <= name[k] <= 'z' || name[k] == '_'
    ensures Normalized(t) == name <==> Spells(t, name)
  {
    if |t| == |name| {
      forall k | 0 <= k < |t|
        ensures Normalized(t)[k] == name[k] <==> SameLetter(t[k], name[k]) || (name[k] == '_' && t[k] == '-')
      {
        LowerIs(t[k], name[k]);
      }
    }
  }

  lemma SpelledEnds(v: string, name: string)
    requires Spells(v, name) && name != "" && forall k :: 0 <= k < |name| ==> 'a' <= name[k] <= 'z' || name[k] == '_'
    ensures v != "" && !IsWhite(v[0]) && !IsWhite(v[|v| - 1])
  {
  }

  /** A key is sensitive exactly when it is one of the fourteen names, in any case, with dashes for underscores and
      white space around it at will. */
  lemma SensitiveIff(key: string)
    ensures IsSensitiveKey(key) <==> Named(key)
  {
    if IsSensitiveKey(key) {
      var i :| 0 <= i < |SENSITIVE_JSON_KEYS| && SENSITIVE_JSON_KEYS[i] == Normalize(key);
      NamesArePlain(i);
      SpellsIs(Trim(key), SENSITIVE_JSON_KEYS[i]);
      var a := TrimStartParts(key);
      var b := TrimEndParts(TrimStart(key));
      assert key == a + Trim(key) + b;
    }
    if a: string, v: string, b: string, i: nat :|
      key == a + v + b && AllWhite(a) && AllWhite(b) && i < 14 && Spells(v, SENSITIVE_JSON_KEYS[i]) {
      NamesArePlain(i);
      SpelledEnds(v, SENSITIVE_JSON_KEYS[i]);
      TrimOf(a, v, b);
      SpellsIs(v, SENSITIVE_JSON_KEYS[i]);
    }
  }

  /** In a redacted object the value of a secret name is the placeholder, and no other value is touched but by
      redacting it in turn. */
  lemma KeyDecides(fields: map<string, Json>, key: string, cfg: Config)
    requires key in fields
    ensures var r := RedactJson(Object(fields), cfg);
            && r.Object? && r.fields.Keys == fields.Keys
            && r.fields[key] == if Named(key) then String("[REDACTED]") else RedactJson(fields[key], cfg)
  {
    SensitiveIff(key);
    hide IsSensitiveKey;
    hide Named;
    hide RedactString;
  }
}
