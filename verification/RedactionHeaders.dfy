/** After the header pass, every authorization header stays redacted through all later passes. */
module RedactionHeaders {
  import opened Prelude
  import opened Redaction
  import opened RedactionProperties
  import opened RedactionPipeline
  import opened RedactionTokens
  import opened RedactionStability
  import opened RedactionKeys

  // ---------------------------------------------------------------- keys do not begin inside a header

  const KEY_LEADS := ["api", "acc", "ref", "pas", "sec", "tok", "key", "pro", "ope", "mem"]

  /** A pattern that begins with a quote or with one of these, and has no 'z'. */
  ghost predicate Keyed(x: string) {
    && Pattern(x) && (forall k :: 0 <= k < |x| ==> Lower(x[k]) != 'z')
    && (IsQuote(x[0]) || exists k :: 0 <= k < |KEY_LEADS| && Occurs(x, 0, KEY_LEADS[k]))
  }

  lemma KeyLeadChars(k: nat)
    requires k < |KEY_LEADS|
    ensures |KEY_LEADS[k]| == 3
    ensures forall j :: 0 <= j < 3 ==> 'a' <= KEY_LEADS[k][j] <= 'z'
  {
  }

  /** The first letters of a key stand in `w` at `q`. */
  ghost predicate LooksKeyed(w: string, q: nat)
    requires q + 3 <= |w|
  {
    var a, b, c := Lower(w[q]), Lower(w[q + 1]), Lower(w[q + 2]);
    || (a == 'a' && (b == 'p' || b == 'c')) || (a == 'r' && b == 'e' && c == 'f') || (a == 'p'
        && (b == 'a' || b == 'r'))
    || (a == 's' && b == 'e') || (a == 't' && b == 'o') || (a == 'k' && b == 'e') || (a == 'o' && b == 'p')
    || (a == 'm' && b == 'e')
  }

  lemma KeyLeadLooks(w: string, q: nat, k: nat)
    requires k < |KEY_LEADS| && Occurs(w, q, KEY_LEADS[k])
    ensures q + 3 <= |w| && LooksKeyed(w, q)
  {
    KeyLeadChars(k);
    OccursFits(w, q, KEY_LEADS[k]);
    OccursChar(w, q, KEY_LEADS[k], 0);
    OccursChar(w, q, KEY_LEADS[k], 1);
    OccursChar(w, q, KEY_LEADS[k], 2);
    hide Occurs;
  }

  ghost predicate Keyless(w: string) {
    && |w| >= 3 && (w[|w| - 1] == ':' || w[|w| - 1] == ' ')
    && (forall q :: 1 <= q <= |w| - 3 ==> !LooksKeyed(w, q))
    && (forall k :: 0 <= k < |w| ==> !IsQuote(w[k]))
  }

  lemma AuthorizationKeyless() ensures Keyless("authorization:") { }
  lemma BearerKeyless() ensures Keyless("bearer ") { }

  lemma KeyLeadNotInside(w: string, m: string, h: nat, d: nat, k: nat)
    requires Occurs(m, h, w) && Keyless(w) && 1 <= d < |w| && k < |KEY_LEADS|
    ensures !Occurs(m, h + d, KEY_LEADS[k])
  {
    var lead := KEY_LEADS[k];
    KeyLeadChars(k);
    var j: nat;
    if d + 3 <= |w| {
      if Occurs(w, d, lead) {
        KeyLeadLooks(w, d, k);
      }
      j :| 0 <= j < 3 && Lower(w[d + j]) != Lower(lead[j]);
    } else {
      j := |w| - 1 - d;
    }
    OccursChar(m, h, w, d + j);
    assert h + d + 3 <= |m| ==> Lower(m[h + d + j]) != Lower(lead[j]);
  }

  /** A key pattern does not begin inside a text that ends in a colon or a space and looks like no key. */
  lemma KeyNotInside(w: string, m: string, h: nat, d: nat, x: string)
    requires Occurs(m, h, w) && Keyless(w) && Keyed(x) && 1 <= d < |w|
    ensures !Occurs(m, h + d, x)
  {
    if IsQuote(x[0]) {
      OccursFits(m, h, w);
      OccursChar(m, h, w, d);
      OccursNext(m, h + d, x);
    } else {
      var k :| 0 <= k < |KEY_LEADS| && Occurs(x, 0, KEY_LEADS[k]);
      KeyLeadNotInside(w, m, h, d, k);
      hide Occurs;
      if Occurs(m, h + d, x) {
        OccursChain(m, h + d, x, 0, KEY_LEADS[k]);
      }
    }
  }

  lemma KeyNotAtBearer(m: string, v: nat, x: string)
    requires Occurs(m, v, "bearer ") && Keyed(x)
    ensures !Occurs(m, v, x)
  {
    OccursNext(m, v, "bearer ");
    if IsQuote(x[0]) {
      OccursNext(m, v, x);
    } else {
      var k :| 0 <= k < |KEY_LEADS| && Occurs(x, 0, KEY_LEADS[k]);
      KeyFirst(k);
      OccursChar(x, 0, KEY_LEADS[k], 0);
      OccursNext(m, v, x);
    }
  }

  lemma KeyFirst(k: nat)
    requires k < |KEY_LEADS|
    ensures |KEY_LEADS[k]| == 3 && KEY_LEADS[k][0] != 'b' && Lower(KEY_LEADS[k][0]) == KEY_LEADS[k][0]
  {
  }

  lemma KeyNotOnSpace(m: string, k: nat, x: string)
    requires Keyed(x) && k < |m| && IsSpace(m[k])
    ensures !Occurs(m, k, x)
  {
    OccursNext(m, k, x);
  }

  lemma SpacesBetween(m: string, i: nat, v: nat)
    requires Occurs(m, i, "authorization:") && v == RunEnd(Spaces, m, i + 14)
    ensures v <= |m| && forall k :: i + 14 <= k < v ==> IsSpace(m[k])
  {
    RunIsMaximal(Spaces, m, i + 14);
    hide Occurs;
  }

  lemma KeyedFacts(x: string)
    requires Keyed(x)
    ensures x != "" && Foreign(x) && KeyValue(x).Needle() == x && Pattern(x)
  {
    hide Occurs;
  }

  /** Up to the end of its placeholder, no key pass finds anything in a closed header. */
  lemma HeaderUnkeyed(m: string, i: nat, k: nat, x: string)
    requires Occurs(m, i, "authorization:") && Keyed(x) && Marked(m, Authorization.Kept(m, i))
    requires i < k < Authorization.Kept(m, i) + 10
    ensures !KeyValue(x).Hits(m, k)
  {
    hide *;
    HeaderIs();
    KeyedFacts(x);
    OccursFits(m, i, "authorization:");
    assert |"bearer "| == 7;
    var v, a := RunEnd(Spaces, m, i + 14), Authorization.Kept(m, i);
    HeaderPlaces(m, i, v);
    SpacesBetween(m, i, v);
    AuthorizationKeyless();
    BearerKeyless();
    if k >= a {
      NotInPlaceholder(m, a, k, x);
    } else if k < i + 14 {
      KeyNotInside("authorization:", m, i, k - i, x);
    } else if k < v {
      KeyNotOnSpace(m, k, x);
    } else if k == v {
      KeyNotAtBearer(m, v, x);
    } else {
      KeyNotInside("bearer ", m, v, k - v, x);
    }
    NotHit(x, m, k);
  }

  lemma NotHit(x: string, m: string, k: nat)
    requires !Occurs(m, k, x)
    ensures !KeyValue(x).Hits(m, k)
  {
    hide Occurs;
  }

  // ---------------------------------------------------------------- a key pass keeps headers sealed

  lemma SealedFacts(m: string, i: nat)
    requires Sealed(Authorization, m, false) && Occurs(m, i, "authorization:")
    ensures Closed(Authorization, m, i) && Marked(m, Authorization.Kept(m, i)) && Authorization.Kept(m, i) + 10 <= |m|
  {
    assert Met(Authorization, m, i, false);
    hide Occurs;
    hide RunEnd;
  }

  /** The first character of the rest keeps its kind. */
  lemma RestKind(x: string, m: string, e: nat)
    requires Keyed(x) && e <= |m| && (e < |m| ==> IsDelimiter(m[e])) && KeyValue(x).Needle() != ""
    ensures var rest := Scan(KeyValue(x), m, e); rest == "" || IsDelimiter(rest[0])
  {
    var rule := KeyValue(x);
    if e < |m| {
      if rule.Hits(m, e) {
        ScanHit(rule, m, e);
        HeadAgrees(rule, m, e);
        assert Lower(rule.Head(m, e)[0]) == Lower(m[e + 0]);
        assert Scan(rule, m, e)[0] == rule.Head(m, e)[0];
        hide Scan;
        hide Occurs;
        hide RunEnd;
      } else {
        ScanCopy(rule, m, e);
      }
    } else {
      ScanEnd(rule, m);
    }
  }

  lemma HeaderEnds(m: string, i: nat, e: nat)
    requires Occurs(m, i, "authorization:") && Closed(Authorization, m, i) && e == Authorization.Kept(m, i) + 10
    ensures e <= |m| && (e < |m| ==> IsDelimiter(m[e]))
  {
    hide Occurs;
    hide RunEnd;
  }

  lemma CopiedHeader(x: string, m: string, i: nat)
    requires Keyed(x) && Sealed(Authorization, m, false) && i < |m| && !KeyValue(x).Hits(m, i)
    requires KeyValue(x).Needle() != "" && Occurs(m, i, "authorization:")
    ensures var t := Scan(KeyValue(x), m, i); Occurs(t, 0, "authorization:") && Closed(Authorization, t, 0)
  {
    hide *;
    HeaderIs();
    SealedFacts(m, i);
    var e := Authorization.Kept(m, i) + 10;
    HeaderEnds(m, i, e);
    forall k | i <= k < e ensures !KeyValue(x).Hits(m, k) {
      if k > i {
        HeaderUnkeyed(m, i, k, x);
      }
    }
    CopyUnhit(KeyValue(x), m, i, e);
    RestKind(x, m, e);
    HeaderMoved(m, i, e, Scan(KeyValue(x), m, e), Scan(KeyValue(x), m, i));
  }

  lemma HeaderMoved(m: string, i: nat, e: nat, rest: string, t: string)
    requires Occurs(m, i, "authorization:") && Closed(Authorization, m, i) && e == Authorization.Kept(m, i) + 10 <= |m|
    requires t == m[i..e] + rest && (rest == "" || IsDelimiter(rest[0]))
    ensures Occurs(t, 0, "authorization:") && Closed(Authorization, t, 0)
  {
    hide *;
    HeaderIs();
    var n := e - 10 - i;
    ClosedFacts(Authorization, m, i, n);
    FrontSlices(m, i, n, rest, t);
    NeedleKept(Authorization, m, i, n);
    FrontOccurs(m, i, n, t, "authorization:");
    BodyStops(t, n + 10, rest);
    ClosedMoved(Authorization, m, i, t, 0, n);
  }

  lemma HeaderIs()
    ensures Authorization.Needle() == "authorization:" && "authorization:" != "" && |"authorization:"| == 14
  {
  }

  lemma BodyStops(t: string, n: nat, rest: string)
    requires n <= |t| && t[n..] == rest && (rest == "" || IsDelimiter(rest[0]))
    ensures n < |t| ==> !Authorization.Body().Has(t[n])
  {
    assert n < |t| ==> t[n..][0] == t[n];
  }

  lemma HeaderForeign()
    ensures Foreign("authorization:") && NoBrackets("authorization:")
  {
    AuthorizationForeign();
  }

  lemma HeaderMet(t: string, q: nat, word: bool)
    ensures Met(Authorization, t, q, word) <==> Occurs(t, q, "authorization:")
  {
    hide Occurs;
  }

  lemma SpaceIsNoZ(c: char)
    requires SpacesAndQuotes.Has(c)
    ensures Lower(c) != 'z'
  {
  }

  lemma KeyedHasNoZ(x: string, k: nat)
    requires Keyed(x) && k < |x|
    ensures Lower(x[k]) != 'z'
  {
  }

  /** Nothing in a pattern and the quotes and space behind it is a 'z'. */
  lemma HeadHasNoZ(x: string, m: string, i: nat, k: nat)
    requires Keyed(x) && Occurs(m, i, KeyValue(x).Needle()) && k < |KeyValue(x).Head(m, i)|
    ensures i + k < |m| && Lower(m[i + k]) != 'z'
  {
    hide *;
    KeyHead(x, m, i);
    KeyNeedle(x);
    if k < |x| {
      OccursChar(m, i, x, k);
      KeyedHasNoZ(x, k);
    } else {
      SpaceIsNoZ(m[i + k]);
    }
  }

  lemma KeyNeedle(x: string)
    ensures KeyValue(x).Needle() == x
  {
  }

  lemma OtherChar(m: string, i: nat, w: string, k: nat)
    requires k < |w| && i + k < |m| && Lower(m[i + k]) != Lower(w[k])
    ensures !Occurs(m, i, w)
  {
  }

  /** A pattern and the quotes and space behind it hold no header. */
  lemma NoHeaderInKey(x: string, m: string, i: nat, q: nat)
    requires Keyed(x) && Occurs(m, i, KeyValue(x).Needle()) && q + 14 <= |KeyValue(x).Head(m, i)|
    ensures !Occurs(m, i + q, "authorization:")
  {
    HasZ();
    HeadHasNoZ(x, m, i, q + 7);
    hide *;
    OtherChar(m, i + q, "authorization:", 7);
  }

  lemma HasZ()
    ensures "authorization:"[7] == 'z' && Lower("authorization:"[7]) == 'z'
  {
  }

  lemma NoHeaderWritten(x: string, m: string, i: nat, q: nat, word: bool)
    requires Keyed(x) && i < |m| && KeyValue(x).Needle() != "" && KeyValue(x).Hits(m, i)
    requires Occurs(m, i, KeyValue(x).Needle()) && q < |KeyValue(x).Head(m, i)| + 10
    ensures !Met(Authorization, Scan(KeyValue(x), m, i), q, word)
  {
    hide *;
    HeaderIs();
    HeaderForeign();
    HeaderMet(Scan(KeyValue(x), m, i), q, word);
    if Met(Authorization, Scan(KeyValue(x), m, i), q, word) {
      InHead(Authorization, KeyValue(x), m, i, q);
      NoHeaderInKey(x, m, i, q);
    }
  }

  lemma HitHeader(x: string, m: string, i: nat, word: bool)
    requires Keyed(x) && i < |m| && KeyValue(x).Needle() != "" && KeyValue(x).Hits(m, i)
    requires Occurs(m, i, KeyValue(x).Needle())
    requires Sealed(Authorization, Scan(KeyValue(x), m, KeyValue(x).End(m, i)), false)
    ensures Sealed(Authorization, Scan(KeyValue(x), m, i), word)
  {
    hide *;
    KeyedFacts(x);
    HeaderIs();
    HeaderForeign();
    var rule := KeyValue(x);
    var rest := Scan(rule, m, rule.End(m, i));
    var y := rule.Head(m, i) + PLACEHOLDER;
    PlaceholderLength();
    ScanHit(rule, m, i);
    forall q: nat | q < |y| ensures !Met(Authorization, y + rest, q, word) {
      NoHeaderWritten(x, m, i, q, word);
    }
    SealedUnguarded(rest, false, IsWord(y[|y| - 1]));
    SealedBehind(Authorization, y, rest, word);
  }

  lemma SealedUnguarded(t: string, word: bool, word': bool)
    requires Sealed(Authorization, t, word)
    ensures Sealed(Authorization, t, word')
  {
    hide Closed;
    hide Occurs;
    forall q: nat | Met(Authorization, t, q, word')
      ensures Occurs(t, q, Authorization.Needle()) && Closed(Authorization, t, q)
    {
      assert Met(Authorization, t, q, word);
    }
  }

  lemma CopyHeader(x: string, m: string, i: nat, word: bool)
    requires Keyed(x) && Sealed(Authorization, m, false) && i < |m| && !KeyValue(x).Hits(m, i)
    requires KeyValue(x).Needle() != "" && Sealed(Authorization, Scan(KeyValue(x), m, i + 1), false)
    ensures Sealed(Authorization, Scan(KeyValue(x), m, i), word)
  {
    hide *;
    KeyedFacts(x);
    HeaderIs();
    HeaderForeign();
    var y, rest := [m[i]], Scan(KeyValue(x), m, i + 1);
    ScanCopy(KeyValue(x), m, i);
    forall q: nat | q < |y| && Met(Authorization, y + rest, q, word)
      ensures Occurs(y + rest, q, Authorization.Needle()) && Closed(Authorization, y + rest, q)
    {
      HeaderMet(y + rest, q, word);
      WordKept(KeyValue(x), m, i, "authorization:");
      CopiedHeader(x, m, i);
    }
    SealedUnguarded(rest, false, IsWord(y[|y| - 1]));
    SealedBehind(Authorization, y, rest, word);
  }

  lemma NoHeader(word: bool)
    ensures Sealed(Authorization, "", word)
  {
    HeaderIs();
  }

  /** A key pass keeps every header sealed. */
  lemma {:induction false} HeaderKeyScan(x: string, m: string, i: nat)
    requires Keyed(x) && Sealed(Authorization, m, false) && i <= |m|
    ensures KeyValue(x).Needle() != "" && Sealed(Authorization, Scan(KeyValue(x), m, i), false)
    decreases |m| - i
  {
    hide *;
    KeyedFacts(x);
    if i == |m| {
      ScanEnd(KeyValue(x), m);
      NoHeader(false);
    } else if KeyValue(x).Hits(m, i) {
      HitFacts(KeyValue(x), m, i);
      HeaderKeyScan(x, m, KeyValue(x).End(m, i));
      HitHeader(x, m, i, false);
    } else {
      HeaderKeyScan(x, m, i + 1);
      CopyHeader(x, m, i, false);
    }
  }

  /** Rules that may follow the header pass. */
  ghost predicate Follows(rules: seq<Rule>) {
    forall i :: 0 <= i < |rules| ==>
      (Orderly(rules[i]) && !rules[i].Authorization?) || (rules[i].KeyValue? && Keyed(rules[i].pattern))
  }

  lemma {:induction false} HeaderAll(rules: seq<Rule>, m: string)
    requires Usable(rules) && Follows(rules) && Orderly(Authorization) && Sealed(Authorization, m, false)
    ensures Sealed(Authorization, RedactAll(rules, m), false)
    decreases |rules|
  {
    hide Orderly;
    hide Keyed;
    hide Sealed;
    if rules != [] {
      if rules[0].KeyValue? && Keyed(rules[0].pattern) {
        HeaderKeyScan(rules[0].pattern, m, 0);
      } else {
        SealedScan(Authorization, rules[0], m, 0);
      }
      HeaderAll(rules[1..], Redact(rules[0], m));
    }
  }
}
