/** Redacting a redacted text again: the passes without key patterns leave it as it is. */
module RedactionStability {
  import opened Prelude
  import opened Redaction
  import opened RedactionProperties
  import opened RedactionPipeline

  // ---------------------------------------------------------------- texts a pass leaves alone

  /** A hit of `t`, if the character in front of `t` is a word character or not. */
  ghost predicate Met(rule: Rule, t: string, q: nat, word: bool) {
    Occurs(t, q, rule.Needle()) && !(rule.Guarded() && if q == 0 then word else IsWord(t[q - 1]))
  }

  /** What stands at `q` is what the pass would write there. */
  ghost predicate Closed(rule: Rule, t: string, q: nat)
    requires Occurs(t, q, rule.Needle())
  {
    var a := rule.Kept(t, q);
    rule.Head(t, q) == t[q..a] && Marked(t, a) && (a + 10 < |t| ==> !rule.Body().Has(t[a + 10]))
  }

  ghost predicate Sealed(rule: Rule, t: string, word: bool) {
    forall q: nat :: Met(rule, t, q, word) ==> Closed(rule, t, q)
  }

  lemma ClosedEnd(rule: Rule, t: string, q: nat)
    requires Occurs(t, q, rule.Needle()) && Closed(rule, t, q)
    ensures rule.End(t, q) == rule.Kept(t, q) + 10
  {
    var a := rule.Kept(t, q);
    hide Occurs;
    hide RunEnd;
    assert a + 10 < |t| ==> t[a + 10..][0] == t[a + 10];
    CutAgain(rule.Body(), t, a, t[a + 10..]);
  }

  lemma ClosedScan(rule: Rule, t: string, i: nat, rest: string)
    requires rule.Needle() != "" && i < |t| && rule.Hits(t, i) && Closed(rule, t, i)
    requires rest == t[rule.Kept(t, i) + 10..] && Scan(rule, t, rule.Kept(t, i) + 10) == rest
    ensures Scan(rule, t, i) == t[i..]
  {
    hide Scan;
    hide Occurs;
    ClosedEnd(rule, t, i);
    hide RunEnd;
    ScanHit(rule, t, i);
    Slices(t, i, rule.Kept(t, i));
  }

  lemma {:induction false} SealedScanIs(rule: Rule, t: string, i: nat)
    requires rule.Needle() != "" && Sealed(rule, t, false) && i <= |t|
    ensures Scan(rule, t, i) == t[i..]
    decreases |t| - i
  {
    hide Scan;
    hide Occurs;
    hide RunEnd;
    if i == |t| {
      ScanEnd(rule, t);
    } else if rule.Hits(t, i) {
      assert Met(rule, t, i, false);
      var a := rule.Kept(t, i);
      assert Closed(rule, t, i) && a + 10 <= |t|;
      SealedScanIs(rule, t, a + 10);
      hide Closed;
      ClosedScan(rule, t, i, t[a + 10..]);
    } else {
      ScanCopy(rule, t, i);
      SealedScanIs(rule, t, i + 1);
      assert t[i..] == [t[i]] + t[i + 1..];
    }
  }

  lemma Slices(t: string, i: nat, a: nat)
    requires i <= a && a + 10 <= |t| && t[a..a + 10] == PLACEHOLDER
    ensures t[i..a] + PLACEHOLDER + t[a + 10..] == t[i..]
  {
    assert t[i..a] + t[a..a + 10] + t[a + 10..] == t[i..];
  }

  /** A pass changes nothing where every hit is closed already. */
  lemma SealedIsStable(rule: Rule, t: string)
    requires rule.Needle() != "" && Sealed(rule, t, false)
    ensures Redact(rule, t) == t
  {
    SealedScanIs(rule, t, 0);
    assert t[0..] == t;
  }

  // ---------------------------------------------------------------- a text behind another one

  /** The text from `i` on, moved to `j`, up to the character behind its placeholder: still closed. */
  lemma ClosedMoved(rule: Rule, m: string, i: nat, t: string, j: nat, n: nat)
    requires rule.Needle() != "" && Occurs(m, i, rule.Needle()) && Closed(rule, m, i) && rule.Kept(m, i) == i + n
    requires Marked(t, j + n) && t[j..j + n] == m[i..i + n]
    requires j + n + 10 < |t| ==> !rule.Body().Has(t[j + n + 10])
    requires Occurs(t, j, rule.Needle())
    ensures Closed(rule, t, j)
  {
    hide Occurs;
    hide RunEnd;
    PlaceholderChar(t, j + n, j + n);
    KeptMoved(rule, m, i, t, j, n);
    hide Marked;
  }

  lemma KeptMoved(rule: Rule, m: string, i: nat, t: string, j: nat, n: nat)
    requires rule.Needle() != "" && Occurs(m, i, rule.Needle()) && Occurs(t, j, rule.Needle())
    requires n == rule.Kept(m, i) - i && rule.Head(m, i) == m[i..i + n]
    requires j + n < |t| && t[j..j + n] == m[i..i + n] && t[j + n] == '['
    ensures rule.Kept(t, j) == j + n && rule.Head(t, j) == t[j..j + n]
  {
    hide Occurs;
    hide RunEnd;
    HeadAgain(rule, m, i, t, j);
  }

  lemma TailSlice(u: string, h: nat, q: nat, a: nat)
    requires h <= |u| && q <= a <= |u[h..]|
    ensures u[h + q..h + a] == u[h..][q..a]
  {
  }

  lemma TailSlices(u: string, h: nat, t: string, q: nat, n: nat)
    requires h <= |u| && u[h..] == t && Marked(t, q + n)
    ensures u[h + q..h + q + n] == t[q..q + n] && Marked(u, h + q + n) && |u| == h + |t|
    ensures h + q + n + 10 < |u| ==> u[h + q + n + 10] == t[q + n + 10]
  {
    TailSlice(u, h, q, q + n);
    TailSlice(u, h, q + n, q + n + 10);
  }

  lemma ClosedFacts(rule: Rule, t: string, q: nat, n: nat)
    requires Occurs(t, q, rule.Needle()) && Closed(rule, t, q) && rule.Kept(t, q) == q + n
    ensures Marked(t, q + n) && q + n + 10 <= |t| && (q + n + 10 < |t| ==> !rule.Body().Has(t[q + n + 10]))
  {
    hide Occurs;
    hide RunEnd;
  }

  lemma ClosedInTail(rule: Rule, u: string, h: nat, t: string, q: nat)
    requires rule.Needle() != "" && h <= |u| && u[h..] == t && Occurs(t, q, rule.Needle()) && Closed(rule, t, q)
    ensures Occurs(u, h + q, rule.Needle()) && Closed(rule, u, h + q)
  {
    hide *;
    OccursInTail(u, h, t, q, rule.Needle());
    var n := rule.Kept(t, q) - q;
    ClosedFacts(rule, t, q, n);
    TailSlices(u, h, t, q, n);
    ClosedMoved(rule, t, q, u, h + q, n);
  }

  lemma MetBehind(rule: Rule, x: string, t: string, q: nat, word: bool)
    requires x != "" && q >= |x| && Met(rule, x + t, q, word)
    ensures Met(rule, t, q - |x|, IsWord(x[|x| - 1]))
  {
    var u := x + t;
    assert u[|x|..] == t;
    OccursInTail(u, |x|, t, q - |x|, rule.Needle());
    hide Occurs;
    assert u[q - 1] == if q == |x| then x[|x| - 1] else t[q - 1 - |x|];
  }

  lemma SealedBehind(rule: Rule, x: string, t: string, word: bool)
    requires rule.Needle() != "" && x != "" && Sealed(rule, t, IsWord(x[|x| - 1]))
    requires forall q: nat :: q < |x| && Met(rule, x + t, q, word) ==> Closed(rule, x + t, q)
    ensures Sealed(rule, x + t, word)
  {
    hide Closed;
    hide Occurs;
    var u := x + t;
    assert u[|x|..] == t;
    forall q: nat | Met(rule, u, q, word) ensures Closed(rule, u, q) {
      if q >= |x| {
        MetBehind(rule, x, t, q, word);
        ClosedInTail(rule, u, |x|, t, q - |x|);
      }
    }
  }

  lemma SealedAnyContext(rule: Rule, t: string, word: bool, word': bool)
    requires Sealed(rule, t, word) && !Occurs(t, 0, rule.Needle())
    ensures Sealed(rule, t, word')
  {
    hide Closed;
    hide Occurs;
    forall q: nat | Met(rule, t, q, word') ensures Occurs(t, q, rule.Needle()) && Closed(rule, t, q) {
      assert Met(rule, t, q, word);
    }
  }

  // ---------------------------------------------------------------- needles that do not overlap

  const LEADS := ["auth", "bear", "post", "mysq", "mong", "sqli", "redi", "sk-", "sk_", "mc_"]

  /** One of these beginnings stands in `t` at `q`. */
  ghost predicate LeadAt(t: string, q: nat) {
    exists k :: 0 <= k < |LEADS| && Occurs(t, q, LEADS[k])
  }

  /** A word that begins with one of them and holds no other. */
  ghost predicate Led(w: string) {
    LeadAt(w, 0) && forall q: nat :: q >= 1 ==> !LeadAt(w, q)
  }

  lemma LeadChars(k: nat, j: nat)
    requires k < |LEADS| && j < |LEADS[k]|
    ensures !IsDelimiter(LEADS[k][j]) && LEADS[k][j] != ':' && Lower(LEADS[k][j]) == LEADS[k][j]
  {
  }

  lemma LeadSize(k: nat)
    requires k < |LEADS|
    ensures 3 <= |LEADS[k]| <= 4
  {
  }

  lemma OccursChain(m: string, i: nat, w: string, d: nat, x: string)
    requires Occurs(m, i, w) && Occurs(w, d, x)
    ensures Occurs(m, i + d, x)
  {
    forall k | 0 <= k < |x| ensures Lower(m[i + d + k]) == Lower(x[k]) {
      OccursChar(w, d, x, k);
      OccursChar(m, i, w, d + k);
    }
  }

  lemma LeadIn(m: string, i: nat, w: string)
    requires Led(w) && Occurs(m, i, w)
    ensures LeadAt(m, i)
  {
    var k :| 0 <= k < |LEADS| && Occurs(w, 0, LEADS[k]);
    hide Occurs;
    OccursChain(m, i, w, 0, LEADS[k]);
  }

  /** No needle lies inside another one. */
  lemma LedOnce(w: string, q: nat, x: string)
    requires Led(w) && Led(x) && Occurs(w, q, x)
    ensures q == 0
  {
    LeadIn(w, q, x);
  }

  lemma LedStart(w: string)
    requires Led(w)
    ensures w != "" && !IsDelimiter(w[0])
  {
    var k :| 0 <= k < |LEADS| && Occurs(w, 0, LEADS[k]);
    LeadSize(k);
    OccursFits(w, 0, LEADS[k]);
    OccursChar(w, 0, LEADS[k], 0);
    LeadChars(k, 0);
  }

  lemma NoDelimiterLeads(m: string, i: nat, w: string)
    requires Led(w) && (i < |m| ==> IsDelimiter(m[i]))
    ensures !Occurs(m, i, w)
  {
    LedStart(w);
    OccursNext(m, i, w);
  }

  /** Nor does one begin inside a word that ends in a colon or a space, whatever follows. */
  lemma LeadNotInside(w: string, m: string, h: nat, d: nat, k: nat)
    requires Occurs(m, h, w) && 1 <= d < |w| && k < |LEADS| && !Occurs(w, d, LEADS[k])
    requires w[|w| - 1] == ':' || w[|w| - 1] == ' '
    ensures !Occurs(m, h + d, LEADS[k])
  {
    var lead := LEADS[k];
    LeadSize(k);
    var j: nat;
    if d + |lead| <= |w| {
      j :| 0 <= j < |lead| && Lower(w[d + j]) != Lower(lead[j]);
    } else {
      j := |w| - 1 - d;
      LeadChars(k, j);
    }
    OccursChar(m, h, w, d + j);
    assert h + d + |lead| <= |m| ==> Lower(m[h + d + j]) != Lower(lead[j]);
  }

  lemma NotInside(w: string, m: string, h: nat, d: nat, x: string)
    requires Occurs(m, h, w) && 1 <= d < |w| && Led(x) && Led(w)
    requires w[|w| - 1] == ':' || w[|w| - 1] == ' '
    ensures !Occurs(m, h + d, x)
  {
    hide Occurs;
    assert !LeadAt(w, d);
    forall k | 0 <= k < |LEADS| ensures !Occurs(m, h + d, LEADS[k]) {
      LeadNotInside(w, m, h, d, k);
    }
    if Occurs(m, h + d, x) {
      LeadIn(m, h + d, x);
    }
  }

  // ---------------------------------------------------------------- the passes without key patterns

  ghost predicate Orderly(rule: Rule) {
    var w := rule.Needle();
    && !rule.KeyValue? && Foreign(w) && Led(w)
    && (rule.Url? ==> (forall k :: 0 <= k < |w| ==> Lower(w[k]) == w[k]) && w[|w| - 1] in "/:")
    && (rule.Token? ==> w[|w| - 1] !in "/:")
    && (!rule.Authorization? ==> Lower(w[0]) != 'a')
    && (Lower(w[0]) == 'b' ==> rule.Token? && |w| == 7 && Occurs(w, 0, "bearer "))
  }

  /** The first characters of a lead stand in `w` at `q`. */
  ghost predicate LooksLed(w: string, q: nat)
    requires q + 3 <= |w|
  {
    var a, b, c := Lower(w[q]), Lower(w[q + 1]), Lower(w[q + 2]);
    || (a == 'a' && b == 'u' && c == 't') || (a == 'b' && b == 'e' && c == 'a') || (a == 'p' && b == 'o' && c == 's')
    || (a == 'm' && b == 'y' && c == 's') || (a == 'm' && b == 'o' && c == 'n')
    || (a == 's' && b == 'q' && c == 'l' && q + 3 < |w| && Lower(w[q + 3]) == 'i')
    || (a == 'r' && b == 'e' && c == 'd') || (a == 's' && b == 'k') || (a == 'm' && b == 'c')
  }

  lemma LeadLooks(w: string, q: nat, k: nat)
    requires k < |LEADS| && Occurs(w, q, LEADS[k])
    ensures q + 3 <= |w| && LooksLed(w, q)
  {
    LeadSize(k);
    OccursFits(w, q, LEADS[k]);
    OccursChar(w, q, LEADS[k], 0);
    OccursChar(w, q, LEADS[k], 1);
    OccursChar(w, q, LEADS[k], 2);
    if |LEADS[k]| == 4 {
      OccursChar(w, q, LEADS[k], 3);
    }
    hide Occurs;
  }

  lemma NoLeads(w: string)
    requires forall q :: 1 <= q <= |w| - 3 ==> !LooksLed(w, q)
    ensures forall q: nat :: q >= 1 ==> !LeadAt(w, q)
  {
    hide Occurs;
    forall q: nat | q >= 1 ensures !LeadAt(w, q) {
      if LeadAt(w, q) {
        var k :| 0 <= k < |LEADS| && Occurs(w, q, LEADS[k]);
        LeadLooks(w, q, k);
      }
    }
  }

  lemma IsLed(w: string, k: nat)
    requires k < |LEADS| && Occurs(w, 0, LEADS[k]) && forall q :: 1 <= q <= |w| - 3 ==> !LooksLed(w, q)
    ensures Led(w)
  {
    hide Occurs;
    NoLeads(w);
  }

  lemma HeaderLed()
    ensures Led("authorization:") && "authorization:"[13] == ':'
  {
    IsLed("authorization:", 0);
  }

  lemma BearerLed()
    ensures Led("bearer ") && "bearer "[6] == ' '
  {
    IsLed("bearer ", 1);
  }

  lemma HeaderPlaces(m: string, i: nat, v: nat)
    requires Occurs(m, i, "authorization:") && v == RunEnd(Spaces, m, i + 14)
    ensures forall k :: i + 14 <= k < v ==> k < |m| && IsDelimiter(m[k])
    ensures Authorization.Kept(m, i) > v ==> Occurs(m, v, "bearer ") && Authorization.Kept(m, i) == v + 7
  {
    RunIsMaximal(Spaces, m, i + 14);
    hide Occurs;
    hide RunEnd;
  }

  /** In what a header keeps, another needle can only be that of a bearer token. */
  lemma HeaderOnlyBearer(m: string, i: nat, k: nat, x: string)
    requires Occurs(m, i, "authorization:") && i < k < Authorization.Kept(m, i) && Led(x) && Occurs(m, k, x)
    ensures var v := RunEnd(Spaces, m, i + 14); k == v && Occurs(m, v, "bearer ")
  {
    hide *;
    OccursFits(m, i, "authorization:");
    assert |"authorization:"| == 14;
    var v := RunEnd(Spaces, m, i + 14);
    HeaderPlaces(m, i, v);
    HeaderLed();
    BearerLed();
    if k < i + 14 {
      NotInside("authorization:", m, i, k - i, x);
    } else if k < v {
      NoDelimiterLeads(m, k, x);
    } else if k > v {
      NotInside("bearer ", m, v, k - v, x);
    }
  }

  // ---------------------------------------------------------------- what a later pass makes of a closed hit

  lemma {:induction false} CopyUnhit(rule: Rule, m: string, i: nat, e: nat)
    requires rule.Needle() != "" && i <= e <= |m| && forall k :: i <= k < e ==> !rule.Hits(m, k)
    ensures Scan(rule, m, i) == m[i..e] + Scan(rule, m, e)
    decreases e - i
  {
    hide Scan;
    hide Occurs;
    if i == e {
      assert m[i..e] == "";
    } else {
      ScanCopy(rule, m, i);
      CopyUnhit(rule, m, i + 1, e);
      Cons(m, i, e, Scan(rule, m, e));
    }
  }

  lemma OccursUnder(m: string, i: nat, w: string, q: nat, x: string)
    requires Occurs(m, i, w) && Occurs(m, i + q, x) && q + |x| <= |w|
    ensures Occurs(w, q, x)
  {
    forall k | 0 <= k < |x| ensures Lower(w[q + k]) == Lower(x[k]) {
      OccursChar(m, i, w, q + k);
      OccursChar(m, i + q, x, k);
    }
  }

  /** In front of a placeholder, no needle begins inside another one. */
  lemma NoneInNeedle(w: string, x: string, m: string, i: nat, k: nat)
    requires Led(w) && Led(x) && NoBrackets(x) && Occurs(m, i, w) && Marked(m, i + |w|) && i < k < i + |w|
    ensures !Occurs(m, k, x)
  {
    if Occurs(m, k, x) {
      PlaceholderChar(m, i + |w|, i + |w|);
      if k + |x| > i + |w| {
        NotAcross(m, k, i + |w|, x);
      } else {
        OccursUnder(m, i, w, k - i, x);
        LedOnce(w, k - i, x);
      }
    }
  }

  lemma MarkedFits(m: string, v: nat)
    requires Marked(m, v)
    ensures v + 10 <= |m|
  {
  }

  lemma NeedleUnhit(w: string, b: Rule, m: string, i: nat, k: nat)
    requires Led(w) && Led(b.Needle()) && Foreign(b.Needle()) && Occurs(m, i, w) && Marked(m, i + |w|)
    requires i < k < i + |w| + 10
    ensures !b.Hits(m, k)
  {
    if k < i + |w| {
      NoneInNeedle(w, b.Needle(), m, i, k);
    } else {
      NotInPlaceholder(m, i + |w|, k, b.Needle());
    }
  }

  /** The later pass copies the closed hit of a scheme or a prefix. */
  lemma NeedleCopied(a: Rule, b: Rule, m: string, i: nat, e: nat)
    requires Orderly(a) && Orderly(b) && !a.Authorization? && a.Hits(m, i) && Closed(a, m, i) && !b.Hits(m, i)
    requires e == a.Kept(m, i) + 10
    ensures e <= |m| && Scan(b, m, i) == m[i..e] + Scan(b, m, e)
  {
    hide *;
    OrderlyFacts(a);
    OrderlyFacts(b);
    HitOccurs(a, m, i);
    PlainKept(a, m, i);
    MarkedFits(m, e - 10);
    var w := a.Needle();
    forall k | i <= k < e ensures !b.Hits(m, k) {
      if k > i {
        NeedleUnhit(w, b, m, i, k);
      }
    }
    CopyUnhit(b, m, i, e);
  }

  lemma HeaderHits(b: Rule, m: string, i: nat, k: nat)
    requires Orderly(b) && !b.Authorization? && Occurs(m, i, "authorization:") && Closed(Authorization, m, i)
    requires i < k < Authorization.Kept(m, i) + 10 && b.Hits(m, k)
    ensures var v := RunEnd(Spaces, m, i + 14); k == v && Authorization.Kept(m, i) == v + 7
    ensures b.Token? && |b.Needle()| == 7
  {
    var e := Authorization.Kept(m, i);
    if k >= e {
      NotInPlaceholder(m, e, k, b.Needle());
    } else {
      HeaderOnlyBearer(m, i, k, b.Needle());
      OccursNext(m, k, b.Needle());
      OccursNext(m, k, "bearer ");
      hide Occurs;
      hide RunEnd;
    }
  }

  lemma MarkSlice(m: string, v: nat, a: nat)
    requires v <= a && Marked(m, a)
    ensures m[v..a] + PLACEHOLDER == m[v..a + 10]
  {
    assert m[v..a] + m[a..a + 10] == m[v..a + 10];
  }

  lemma TokenEnds(b: Rule, m: string, v: nat, e: nat)
    requires b.Token? && Occurs(m, v, b.Needle()) && Marked(m, v + |b.Needle()|) && e == v + |b.Needle()| + 10
    requires e < |m| ==> IsDelimiter(m[e])
    ensures e <= |m| && b.End(m, v) == e
  {
    assert e < |m| ==> m[e..][0] == m[e];
    CutAgain(NonDelimiters, m, v + |b.Needle()|, m[e..]);
    hide Occurs;
    hide RunEnd;
  }

  lemma TokenHead(b: Rule, m: string, v: nat)
    requires b.Token? && b.Hits(m, v)
    ensures Occurs(m, v, b.Needle()) && b.Head(m, v) == m[v..v + |b.Needle()|]
  {
    hide Occurs;
  }

  /** A token pass writes a closed token again. */
  lemma TokenAgain(b: Rule, m: string, v: nat, e: nat)
    requires b.Token? && b.Needle() != "" && v < |m| && b.Hits(m, v) && Marked(m, v + |b.Needle()|)
    requires e == v + |b.Needle()| + 10 && (e < |m| ==> IsDelimiter(m[e]))
    ensures e <= |m| && Scan(b, m, v) == m[v..e] + Scan(b, m, e)
  {
    hide *;
    TokenHead(b, m, v);
    TokenEnds(b, m, v, e);
    MarkSlice(m, v, v + |b.Needle()|);
    ScanHit(b, m, v);
  }

  lemma Split3(m: string, i: nat, k: nat, e: nat, rest: string)
    requires i <= k <= e <= |m|
    ensures m[i..k] + (m[k..e] + rest) == m[i..e] + rest
  {
    assert m[i..k] + m[k..e] == m[i..e];
  }

  lemma HeaderFacts(b: Rule, m: string, i: nat, e: nat)
    requires Orderly(b) && Occurs(m, i, "authorization:") && Closed(Authorization, m, i)
    requires e == Authorization.Kept(m, i) + 10
    ensures e <= |m| && (e < |m| ==> IsDelimiter(m[e])) && b.Needle() != "" && Marked(m, e - 10)
  {
    hide Occurs;
    hide RunEnd;
  }

  lemma HeaderUnhit(b: Rule, m: string, i: nat, k: nat)
    requires Orderly(b) && !b.Authorization? && Occurs(m, i, "authorization:") && Closed(Authorization, m, i)
    requires !b.Hits(m, i) && i < k < Authorization.Kept(m, i) + 10 && b.Hits(m, k) && k <= |m| && b.Needle() != ""
    ensures Scan(b, m, i) == m[i..k] + Scan(b, m, k)
  {
    hide *;
    HeaderHits(b, m, i, k);
    forall j | i <= j < k ensures !b.Hits(m, j) {
      if j > i && b.Hits(m, j) {
        HeaderHits(b, m, i, j);
      }
    }
    CopyUnhit(b, m, i, k);
  }

  lemma HeaderCopiedHit(b: Rule, m: string, i: nat, k: nat, e: nat)
    requires Orderly(b) && !b.Authorization? && Occurs(m, i, "authorization:") && Closed(Authorization, m, i)
    requires !b.Hits(m, i) && e == Authorization.Kept(m, i) + 10 && i < k < e && b.Hits(m, k)
    ensures e <= |m| && Scan(b, m, i) == m[i..e] + Scan(b, m, e)
  {
    hide *;
    HeaderFacts(b, m, i, e);
    HeaderHits(b, m, i, k);
    HeaderUnhit(b, m, i, k);
    TokenAgain(b, m, k, e);
    Split3(m, i, k, e, Scan(b, m, e));
  }

  lemma HeaderCopied(b: Rule, m: string, i: nat, e: nat)
    requires Orderly(b) && !b.Authorization? && i < |m| && Occurs(m, i, "authorization:") && Closed(Authorization, m, i)
    requires !b.Hits(m, i) && e == Authorization.Kept(m, i) + 10
    ensures e <= |m| && Scan(b, m, i) == m[i..e] + Scan(b, m, e)
  {
    assert e <= |m| && b.Needle() != "";
    hide Occurs;
    hide RunEnd;
    hide Scan;
    hide Orderly;
    hide Closed;
    if k :| i < k < e && b.Hits(m, k) {
      HeaderCopiedHit(b, m, i, k, e);
    } else {
      CopyUnhit(b, m, i, e);
    }
  }

  lemma ClosedCopied(a: Rule, b: Rule, m: string, i: nat, e: nat)
    requires Orderly(a) && Orderly(b) && !b.Authorization? && i < |m| && a.Hits(m, i) && Closed(a, m, i)
             && !b.Hits(m, i)
    requires e == a.Kept(m, i) + 10
    ensures e <= |m| && Scan(b, m, i) == m[i..e] + Scan(b, m, e)
  {
    hide Occurs;
    hide RunEnd;
    hide Scan;
    hide Orderly;
    hide Closed;
    if a.Authorization? {
      HeaderCopied(b, m, i, e);
    } else {
      NeedleCopied(a, b, m, i, e);
    }
  }

  /** What a rule must be to come later. */
  lemma OrderlyFacts(rule: Rule)
    requires Orderly(rule)
    ensures rule.Needle() != "" && Foreign(rule.Needle()) && Led(rule.Needle()) && NoBrackets(rule.Needle())
    ensures CleanStart(rule) && !rule.KeyValue?
  {
    LedStart(rule.Needle());
  }

  /** A non-body character is a delimiter. */
  lemma BodyEnds(rule: Rule, c: char)
    requires !rule.Body().Has(c)
    ensures IsDelimiter(c)
  {
  }

  lemma RestCopied(b: Rule, m: string, e: nat)
    requires Orderly(b) && e <= |m| && (e < |m| ==> IsDelimiter(m[e]))
    ensures b.Needle() != ""
    ensures var rest := Scan(b, m, e); (rest == "" <==> e == |m|) && (e < |m| ==> rest[0] == m[e])
  {
    OrderlyFacts(b);
    NoDelimiterLeads(m, e, b.Needle());
    hide Orderly;
    hide Occurs;
    hide Scan;
    if e < |m| {
      ScanCopy(b, m, e);
    } else {
      ScanEnd(b, m);
    }
  }

  lemma FrontSlices(m: string, i: nat, n: nat, rest: string, t: string)
    requires Marked(m, i + n) && t == m[i..i + n + 10] + rest
    ensures t[0..0 + n] == m[i..i + n] && Marked(t, 0 + n) && t[n + 10..] == rest
  {
    assert t[0..n] == m[i..i + n];
    assert t[n..n + 10] == m[i + n..i + n + 10];
  }

  lemma FrontOccurs(m: string, i: nat, n: nat, t: string, w: string)
    requires |w| <= n <= |t| && i + n <= |m| && t[0..0 + n] == m[i..i + n] && Occurs(m, i, w)
    ensures Occurs(t, 0, w)
  {
    forall k | 0 <= k < |w| ensures Lower(t[0 + k]) == Lower(w[k]) {
      OccursChar(m, i, w, k);
      assert t[k] == t[0..n][k] == m[i..i + n][k] == m[i + k];
    }
  }

  /** Copied, a closed hit stays closed. */
  lemma FrontClosed(a: Rule, b: Rule, m: string, i: nat, n: nat, rest: string, t: string)
    requires Orderly(b) && a.Needle() != "" && Occurs(m, i, a.Needle()) && Closed(a, m, i) && a.Kept(m, i) == i + n
    requires i + n + 10 <= |m| && rest == Scan(b, m, i + n + 10) && t == m[i..i + n + 10] + rest
    ensures Occurs(t, 0, a.Needle()) && Closed(a, t, 0)
  {
    hide *;
    ClosedFacts(a, m, i, n);
    if i + n + 10 < |m| {
      BodyEnds(a, m[i + n + 10]);
    }
    RestCopied(b, m, i + n + 10);
    FrontSlices(m, i, n, rest, t);
    NeedleKept(a, m, i, n);
    FrontOccurs(m, i, n, t, a.Needle());
    ClosedMoved(a, m, i, t, 0, n);
  }

  lemma NeedleKept(a: Rule, m: string, i: nat, n: nat)
    requires Occurs(m, i, a.Needle()) && a.Kept(m, i) == i + n
    ensures |a.Needle()| <= n && i + n <= |m|
  {
    hide Occurs;
    hide RunEnd;
  }

  lemma CopiedFront(a: Rule, b: Rule, m: string, i: nat)
    requires Orderly(a) && Orderly(b) && !b.Authorization? && i < |m| && a.Hits(m, i) && Closed(a, m, i)
             && !b.Hits(m, i)
    ensures b.Needle() != "" && Occurs(Scan(b, m, i), 0, a.Needle()) && Closed(a, Scan(b, m, i), 0)
  {
    hide *;
    OrderlyFacts(a);
    OrderlyFacts(b);
    HitOccurs(a, m, i);
    var e := a.Kept(m, i) + 10;
    ClosedCopied(a, b, m, i, e);
    FrontClosed(a, b, m, i, e - 10 - i, Scan(b, m, e), Scan(b, m, i));
  }

  lemma HitOccurs(rule: Rule, m: string, i: nat)
    requires rule.Hits(m, i)
    ensures Occurs(m, i, rule.Needle())
    ensures Met(rule, m, i, false)
  {
    hide Occurs;
  }

  // ---------------------------------------------------------------- what a pass writes is closed

  lemma OwnClosed(a: Rule, m: string, i: nat, hd: string, rest: string, t: string)
    requires a.Needle() != "" && Occurs(m, i, a.Needle()) && Occurs(t, 0, a.Needle())
    requires hd == a.Head(m, i) && t == hd + PLACEHOLDER + rest && (rest == "" || !a.Body().Has(rest[0]))
    ensures Closed(a, t, 0)
  {
    hide Occurs;
    hide RunEnd;
    assert t[0..] == t;
    Parts(t, 0, hd, rest);
    HeadAgain(a, m, i, t, 0);
    assert |t| > |hd| + 10 ==> t[|hd| + 10..][0] == t[|hd| + 10];
  }

  lemma OwnFront(a: Rule, m: string, i: nat)
    requires Orderly(a) && i < |m| && a.Hits(m, i)
    ensures var t := Scan(a, m, i); Occurs(t, 0, a.Needle()) && Closed(a, t, 0)
  {
    hide *;
    OrderlyFacts(a);
    HitOccurs(a, m, i);
    ScanStarts(a, m, i, a.Needle());
    RestStartsBehind(a, m, i);
    ScanHit(a, m, i);
    OwnClosed(a, m, i, a.Head(m, i), Scan(a, m, a.End(m, i)), Scan(a, m, i));
  }

  lemma HeaderNotBearer(m: string, k: nat)
    requires Occurs(m, k, "authorization:")
    ensures !Occurs(m, k, "bearer ")
  {
    OccursNext(m, k, "authorization:");
    OccursNext(m, k, "bearer ");
  }

  lemma HeadNeedle(b: Rule, m: string, i: nat)
    requires Orderly(b) && Occurs(m, i, b.Needle())
    ensures !b.Authorization? ==> |b.Head(m, i)| == |b.Needle()|
    ensures b.Authorization? ==> |b.Head(m, i)| == Authorization.Kept(m, i) - i
  {
    hide Occurs;
    hide RunEnd;
  }

  lemma HeaderInHead(m: string, i: nat, q: nat)
    requires Occurs(m, i, "authorization:") && 0 < q < Authorization.Kept(m, i) - i
    ensures !Occurs(m, i + q, "authorization:")
  {
    hide *;
    HeaderLed();
    if Occurs(m, i + q, "authorization:") {
      HeaderNotBearer(m, i + q);
      HeaderOnlyBearer(m, i, i + q, "authorization:");
    }
  }

  /** Where, in what a pass writes for a hit, another needle can stand. */
  lemma NeedleInHead(a: Rule, b: Rule, m: string, i: nat, q: nat)
    requires Orderly(a) && Orderly(b) && (a == b || !b.Authorization?) && Occurs(m, i, b.Needle())
    requires q < |b.Head(m, i)| && q + |a.Needle()| <= |b.Head(m, i)| && Occurs(m, i + q, a.Needle())
    ensures q == 0
  {
    HeaderNeedle(a);
    HeaderNeedle(b);
    hide *;
    HeadNeedle(b, m, i);
    OrderlyFacts(a);
    OrderlyFacts(b);
    if q > 0 {
      if b.Authorization? {
        HeaderInHead(m, i, q);
      } else {
        OccursUnder(m, i, b.Needle(), q, a.Needle());
        LedOnce(b.Needle(), q, a.Needle());
      }
    }
  }

  lemma HeaderNeedle(rule: Rule)
    ensures rule.Authorization? ==> rule == Authorization && rule.Needle() == "authorization:"
  {
  }

  lemma NotAtHeader(b: Rule, m: string, i: nat)
    requires Orderly(b) && !b.Authorization? && Occurs(m, i, b.Needle())
    ensures !Occurs(m, i, "authorization:")
  {
    OrderlyFacts(b);
    OccursNext(m, i, b.Needle());
    OccursNext(m, i, "authorization:");
  }

  lemma PlainKept(a: Rule, m: string, i: nat)
    requires !a.Authorization? && !a.KeyValue? && Occurs(m, i, a.Needle()) && Closed(a, m, i)
    ensures a.Kept(m, i) == i + |a.Needle()| && Marked(m, i + |a.Needle()|)
  {
    hide Occurs;
    hide RunEnd;
  }

  /** Two needles at the same place, one of them closed: they are the same, or both of bearer tokens. */
  lemma SamePlace(a: Rule, b: Rule, m: string, i: nat)
    requires Orderly(a) && Orderly(b) && a != b && !b.Authorization?
    requires Occurs(m, i, a.Needle()) && Closed(a, m, i) && Occurs(m, i, b.Needle()) && |a.Needle()| <= |b.Needle()|
    ensures a.Token? && b.Token? && |a.Needle()| == |b.Needle()|
  {
    OrderlyFacts(a);
    OrderlyFacts(b);
    NotAtHeader(b, m, i);
    assert !a.Authorization?;
    hide *;
    PlainKept(a, m, i);
    var v := i + |a.Needle()|;
    PlaceholderChar(m, v, v);
    if |a.Needle()| < |b.Needle()| {
      BracketAt(m, v);
      NotAcross(m, i, v, b.Needle());
    } else {
      SameKind(a, b, m, i);
    }
  }

  lemma BracketAt(m: string, v: nat)
    requires Marked(m, v)
    ensures v < |m| && m[v] == '['
  {
    PlaceholderChar(m, v, v);
  }

  lemma SameKind(a: Rule, b: Rule, m: string, i: nat)
    requires Orderly(a) && Orderly(b) && a != b && !a.Authorization? && !b.Authorization?
    requires Occurs(m, i, a.Needle()) && Occurs(m, i, b.Needle()) && |a.Needle()| == |b.Needle()|
    ensures a.Token? && b.Token?
  {
    var w, x := a.Needle(), b.Needle();
    forall k | 0 <= k < |w| ensures Lower(w[k]) == Lower(x[k]) {
      OccursChar(m, i, w, k);
      OccursChar(m, i, x, k);
    }
    var k := |w| - 1;
    assert Lower(w[k]) == Lower(x[k]);
    if a.Url? && b.Url? {
      LowerSame(w, x);
    }
  }

  lemma LowerSame(w: string, x: string)
    requires |w| == |x| && forall k :: 0 <= k < |w| ==> Lower(w[k]) == Lower(x[k])
    requires (forall k :: 0 <= k < |w| ==> Lower(w[k]) == w[k]) && (forall k :: 0 <= k < |x| ==> Lower(x[k]) == x[k])
    ensures w == x
  {
    assert forall k :: 0 <= k < |w| ==> w[k] == x[k];
  }

  lemma OtherFront(a: Rule, b: Rule, m: string, i: nat)
    requires Orderly(a) && Orderly(b) && a != b && !b.Authorization? && i < |m| && b.Hits(m, i)
    requires Occurs(m, i, a.Needle()) && Closed(a, m, i) && |a.Needle()| <= |b.Needle()|
    ensures b.Needle() != ""
    ensures Occurs(Scan(b, m, i), 0, a.Needle()) ==> Closed(a, Scan(b, m, i), 0)
  {
    HitOccurs(b, m, i);
    SamePlace(a, b, m, i);
    OwnFront(b, m, i);
    hide Orderly;
    hide Scan;
    hide Occurs;
  }

  /** In what a pass writes for a hit, every met needle of an earlier pass is closed. */
  lemma HeadClosed(a: Rule, b: Rule, m: string, i: nat, q: nat, word: bool)
    requires Orderly(a) && Orderly(b) && i < |m| && b.Hits(m, i) && word == (i > 0 && IsWord(m[i - 1]))
    requires a == b || (Sealed(a, m, false) && !b.Authorization?)
    requires q < |b.Head(m, i)| + 10 && Met(a, Scan(b, m, i), q, word)
    ensures Closed(a, Scan(b, m, i), q)
  {
    hide *;
    HitOccurs(b, m, i);
    OrderlyFacts(a);
    OrderlyFacts(b);
    MetOccurs(a, Scan(b, m, i), q, word);
    InHead(a, b, m, i, q);
    NeedleInHead(a, b, m, i, q);
    if a == b {
      OwnFront(a, m, i);
    } else {
      MetHits(a, Scan(b, m, i), m, i, word);
      HeadSize(b, m, i);
      OtherFront(a, b, m, i);
    }
  }

  lemma HeadSize(b: Rule, m: string, i: nat)
    requires Orderly(b) && !b.Authorization? && Occurs(m, i, b.Needle())
    ensures |b.Head(m, i)| == |b.Needle()|
  {
    hide Occurs;
  }

  lemma MetOccurs(rule: Rule, t: string, q: nat, word: bool)
    requires Met(rule, t, q, word)
    ensures Occurs(t, q, rule.Needle())
  {
    hide Occurs;
  }

  lemma MetHits(a: Rule, t: string, m: string, i: nat, word: bool)
    requires Met(a, t, 0, word) && Occurs(m, i, a.Needle()) && Sealed(a, m, false)
    requires word == (i > 0 && IsWord(m[i - 1]))
    ensures a.Hits(m, i) && Closed(a, m, i)
  {
    hide Occurs;
    hide Closed;
    assert Met(a, m, i, false);
  }

  lemma InHead(a: Rule, b: Rule, m: string, i: nat, q: nat)
    requires b.Needle() != "" && i < |m| && b.Hits(m, i) && Foreign(a.Needle())
    requires q < |b.Head(m, i)| + 10 && Occurs(Scan(b, m, i), q, a.Needle())
    ensures q < |b.Head(m, i)| && q + |a.Needle()| <= |b.Head(m, i)| && Occurs(m, i + q, a.Needle())
  {
    var hd, rest := b.Head(m, i), Scan(b, m, b.End(m, i));
    hide Occurs;
    hide Scan;
    hide RunEnd;
    ScanHit(b, m, i);
    Assoc(hd, PLACEHOLDER, rest);
    MarkedBehindHead(hd, rest);
    if q >= |hd| {
      NotInPlaceholder(Scan(b, m, i), |hd|, q, a.Needle());
    } else {
      WordInHead(b, m, i, rest, q, a.Needle());
    }
  }

  /** Behind a cut no needle begins. */
  lemma RestFree(a: Rule, b: Rule, m: string, i: nat)
    requires Orderly(a) && Orderly(b) && Occurs(m, i, b.Needle())
    ensures b.Needle() != "" && !Occurs(Scan(b, m, b.End(m, i)), 0, a.Needle())
  {
    var e := b.End(m, i);
    OrderlyFacts(a);
    OrderlyFacts(b);
    RunIsMaximal(b.Body(), m, b.Kept(m, i));
    if e < |m| {
      BodyEnds(b, m[e]);
    }
    hide Orderly;
    hide Occurs;
    hide RunEnd;
    hide Scan;
    NoDelimiterLeads(m, e, a.Needle());
    if Occurs(Scan(b, m, e), 0, a.Needle()) {
      WordKept(b, m, e, a.Needle());
    }
  }

  // ---------------------------------------------------------------- a later pass keeps texts sealed

  lemma CopyClosed(a: Rule, b: Rule, m: string, i: nat, word: bool)
    requires Orderly(a) && Orderly(b) && i < |m| && !b.Hits(m, i) && word == (i > 0 && IsWord(m[i - 1]))
    requires a == b || (Sealed(a, m, false) && !b.Authorization?)
    requires Met(a, Scan(b, m, i), 0, word)
    ensures Closed(a, Scan(b, m, i), 0)
  {
    hide *;
    OrderlyFacts(a);
    OrderlyFacts(b);
    MetOccurs(a, Scan(b, m, i), 0, word);
    if a == b {
      ScanStarts(a, m, i, a.Needle());
      MetIsHit(a, Scan(b, m, i), m, i, word);
    } else {
      WordKept(b, m, i, a.Needle());
      MetHits(a, Scan(b, m, i), m, i, word);
      CopiedFront(a, b, m, i);
    }
  }

  lemma MetIsHit(a: Rule, t: string, m: string, i: nat, word: bool)
    requires Met(a, t, 0, word) && Occurs(m, i, a.Needle()) && word == (i > 0 && IsWord(m[i - 1]))
    ensures a.Hits(m, i)
  {
    hide Occurs;
  }

  lemma HitStep(a: Rule, b: Rule, m: string, i: nat, word: bool)
    requires Orderly(a) && Orderly(b) && i < |m| && b.Hits(m, i) && word == (i > 0 && IsWord(m[i - 1]))
    requires a == b || (Sealed(a, m, false) && !b.Authorization?)
    requires Sealed(a, Scan(b, m, b.End(m, i)), IsWord(m[b.End(m, i) - 1]))
    ensures Sealed(a, Scan(b, m, i), word)
  {
    hide *;
    OrderlyFacts(a);
    OrderlyFacts(b);
    HitOccurs(b, m, i);
    var rest := Scan(b, m, b.End(m, i));
    var x := b.Head(m, i) + PLACEHOLDER;
    RestFree(a, b, m, i);
    SealedAnyContext(a, rest, IsWord(m[b.End(m, i) - 1]), IsWord(x[|x| - 1]));
    ScanHit(b, m, i);
    assert |x| == |b.Head(m, i)| + 10 by { PlaceholderSize(); }
    forall q: nat | q < |x| && Met(a, x + rest, q, word)
      ensures Occurs(x + rest, q, a.Needle()) && Closed(a, x + rest, q)
    {
      MetOccurs(a, x + rest, q, word);
      HeadClosed(a, b, m, i, q, word);
    }
    SealedBehind(a, x, rest, word);
  }

  lemma PlaceholderSize()
    ensures |PLACEHOLDER| == 10
  {
  }

  lemma CopyStep(a: Rule, b: Rule, m: string, i: nat, word: bool)
    requires Orderly(a) && Orderly(b) && i < |m| && !b.Hits(m, i) && word == (i > 0 && IsWord(m[i - 1]))
    requires a == b || (Sealed(a, m, false) && !b.Authorization?)
    requires b.Needle() != "" && Sealed(a, Scan(b, m, i + 1), IsWord(m[i]))
    ensures Sealed(a, Scan(b, m, i), word)
  {
    hide *;
    OrderlyFacts(a);
    var x, rest := [m[i]], Scan(b, m, i + 1);
    ScanCopy(b, m, i);
    forall q: nat | q < |x| && Met(a, x + rest, q, word)
      ensures Occurs(x + rest, q, a.Needle()) && Closed(a, x + rest, q)
    {
      MetOccurs(a, x + rest, q, word);
      CopyClosed(a, b, m, i, word);
    }
    SealedBehind(a, x, rest, word);
  }

  lemma NothingMet(a: Rule, word: bool)
    requires a.Needle() != ""
    ensures Sealed(a, "", word)
  {
  }

  /** A pass seals its own text, and keeps a text sealed for every earlier pass. */
  lemma {:induction false} SealedScan(a: Rule, b: Rule, m: string, i: nat)
    requires Orderly(a) && Orderly(b) && i <= |m|
    requires a == b || (Sealed(a, m, false) && !b.Authorization?)
    ensures b.Needle() != "" && Sealed(a, Scan(b, m, i), i > 0 && IsWord(m[i - 1]))
    decreases |m| - i
  {
    hide *;
    OrderlyFacts(a);
    OrderlyFacts(b);
    var word := i > 0 && IsWord(m[i - 1]);
    if i == |m| {
      ScanEnd(b, m);
      NothingMet(a, word);
    } else if b.Hits(m, i) {
      HitOccurs(b, m, i);
      HitAdvances(b, m, i);
      SealedScan(a, b, m, b.End(m, i));
      HitStep(a, b, m, i, word);
    } else {
      SealedScan(a, b, m, i + 1);
      CopyStep(a, b, m, i, word);
    }
  }

  lemma HitAdvances(b: Rule, m: string, i: nat)
    requires b.Needle() != "" && Occurs(m, i, b.Needle())
    ensures i < b.End(m, i) <= |m|
  {
    hide Occurs;
    hide RunEnd;
  }

  // ---------------------------------------------------------------- all passes

  /** Orderly passes, of which at most the first one is the header pass. */
  ghost predicate InOrder(rules: seq<Rule>) {
    forall i :: 0 <= i < |rules| ==> Orderly(rules[i]) && (i > 0 ==> !rules[i].Authorization?)
  }

  lemma InOrderUsable(rules: seq<Rule>)
    requires InOrder(rules)
    ensures Usable(rules)
  {
    forall i | 0 <= i < |rules| ensures rules[i].Needle() != "" {
      OrderlyFacts(rules[i]);
    }
  }

  lemma {:induction false} SealedAll(a: Rule, rules: seq<Rule>, m: string)
    requires Orderly(a) && Sealed(a, m, false)
    requires Usable(rules) && forall i :: 0 <= i < |rules| ==> Orderly(rules[i]) && !rules[i].Authorization?
    ensures Sealed(a, RedactAll(rules, m), false)
    decreases |rules|
  {
    hide Sealed;
    hide Orderly;
    if rules != [] {
      SealedScan(a, rules[0], m, 0);
      SealedAll(a, rules[1..], Redact(rules[0], m));
    }
  }

  lemma {:induction false} OutputSealed(rules: seq<Rule>, m: string, k: nat)
    requires InOrder(rules) && Usable(rules) && k < |rules|
    ensures Sealed(rules[k], RedactAll(rules, m), false)
    decreases |rules|
  {
    hide Sealed;
    hide Orderly;
    if k == 0 {
      SealedScan(rules[0], rules[0], m, 0);
      SealedAll(rules[0], rules[1..], Redact(rules[0], m));
    } else {
      OutputSealed(rules[1..], Redact(rules[0], m), k - 1);
    }
  }

  lemma {:induction false} SealedIsFixed(rules: seq<Rule>, t: string)
    requires Usable(rules) && forall k :: 0 <= k < |rules| ==> Sealed(rules[k], t, false)
    ensures RedactAll(rules, t) == t
    decreases |rules|
  {
    hide Sealed;
    if rules != [] {
      SealedIsStable(rules[0], t);
      SealedIsFixed(rules[1..], t);
    }
  }

  /** Orderly passes, run in order, leave what they wrote as it is. */
  lemma OrderlyIdempotent(rules: seq<Rule>, m: string)
    requires InOrder(rules)
    ensures Usable(rules) && RedactAll(rules, RedactAll(rules, m)) == RedactAll(rules, m)
  {
    InOrderUsable(rules);
    hide Sealed;
    hide Orderly;
    forall k | 0 <= k < |rules| ensures Sealed(rules[k], RedactAll(rules, m), false) {
      OutputSealed(rules, m, k);
    }
    SealedIsFixed(rules, RedactAll(rules, m));
  }
}
