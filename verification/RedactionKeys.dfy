/** After the pass of `key=` or `key:`, every such key keeps its placeholder through all later key passes. */
module RedactionKeys {
  import opened Prelude
  import opened Redaction
  import opened RedactionProperties
  import opened RedactionPipeline
  import opened RedactionTokens
  import opened RedactionStability

  /** Word characters and a separator. */
  ghost predicate Bareword(w: string) {
    |w| >= 2 && (forall k :: 0 <= k < |w| - 1 ==> IsWord(w[k])) && w[|w| - 1] in "=:"
  }

  /** Word characters in quotes, and a colon. */
  ghost predicate Quotation(x: string) {
    && |x| >= 4 && IsQuote(x[0]) && IsQuote(x[|x| - 2]) && x[|x| - 1] == ':'
    && forall k :: 1 <= k < |x| - 2 ==> IsWord(x[k])
  }

  ghost predicate Pattern(x: string) {
    Foreign(x) && (Bareword(x) || Quotation(x))
  }

  /** Behind the key at `q`, quotes and space aside, stands the placeholder. */
  ghost predicate HeldAt(w: string, t: string, q: nat)
    requires q + |w| <= |t|
  {
    Marked(t, RunEnd(SpacesAndQuotes, t, q + |w|))
  }

  ghost predicate Held(w: string, t: string, word: bool) {
    forall q: nat :: Stands(w, t, q, word) ==> HeldAt(w, t, q)
  }

  // ---------------------------------------------------------------- characters of a text that matches

  lemma WordChar(m: string, i: nat, w: string, k: nat)
    requires Occurs(m, i, w) && k < |w|
    ensures i + k < |m| && (IsWord(m[i + k]) <==> IsWord(w[k]))
    ensures (IsQuote(m[i + k]) <==> IsQuote(w[k])) && (w[k] in "=:" ==> m[i + k] == w[k])
  {
    OccursFits(m, i, w);
    OccursChar(m, i, w, k);
    hide Occurs;
  }

  /** Two keys at one place are equally long. */
  lemma SameEnd(w: string, x: string, m: string, i: nat)
    requires Bareword(w) && Bareword(x) && Occurs(m, i, w) && Occurs(m, i, x)
    ensures |w| == |x|
  {
    var k, l := |w| - 1, |x| - 1;
    hide Occurs;
    if k < l {
      WordChar(m, i, w, k);
      WordChar(m, i, x, k);
    } else if l < k {
      WordChar(m, i, w, l);
      WordChar(m, i, x, l);
    }
  }

  /** A key does not stand on the word in quotes of another pattern. */
  lemma NotOnQuotation(w: string, x: string, m: string, i: nat)
    requires Bareword(w) && Quotation(x) && Occurs(m, i, x)
    ensures !Occurs(m, i + 1, w)
  {
    var k, l := |w| - 1, |x| - 3;
    if Occurs(m, i + 1, w) {
      hide Occurs;
      if k <= l {
        WordChar(m, i + 1, w, k);
        WordChar(m, i, x, k + 1);
      } else {
        WordChar(m, i + 1, w, l);
        WordChar(m, i, x, l + 1);
      }
    }
  }

  lemma KeyHead(x: string, m: string, i: nat)
    requires Occurs(m, i, KeyValue(x).Needle())
    ensures var a := KeyValue(x).Kept(m, i);
            && i + |x| <= a <= |m| && KeyValue(x).Head(m, i) == m[i..a]
            && (forall k :: i + |x| <= k < a ==> SpacesAndQuotes.Has(m[k]))
  {
    RunIsMaximal(SpacesAndQuotes, m, i + |x|);
    hide Occurs;
    hide RunEnd;
  }

  lemma NotOnSpace(w: string, m: string, k: nat)
    requires Bareword(w) && k < |m| && SpacesAndQuotes.Has(m[k])
    ensures !Occurs(m, k, w)
  {
    OccursNext(m, k, w);
  }

  lemma KeyOnBareword(w: string, x: string, m: string, i: nat, q: nat)
    requires Bareword(w) && Bareword(x) && Occurs(m, i, x) && q < |x|
    requires Occurs(m, i + q, w) && (q > 0 ==> !IsWord(m[i + q - 1]))
    ensures q == 0 && |x| == |w|
  {
    hide Occurs;
    if q == 0 {
      SameEnd(w, x, m, i);
    } else {
      WordChar(m, i, x, q - 1);
    }
  }

  lemma KeyOnQuotation(w: string, x: string, m: string, i: nat, q: nat)
    requires Bareword(w) && Quotation(x) && Occurs(m, i, x) && q < |x| && (q > 0 ==> !IsWord(m[i + q - 1]))
    ensures !Occurs(m, i + q, w)
  {
    WordChar(m, i, x, q);
    if q == 1 {
      NotOnQuotation(w, x, m, i);
    } else {
      if q > 1 {
        WordChar(m, i, x, q - 1);
      }
      OccursNext(m, i + q, w);
      hide Occurs;
    }
  }

  /** In what the pass of `x` keeps, a key stands only in front, and is as long as `x`. */
  lemma KeyInHead(w: string, x: string, m: string, i: nat, q: nat)
    requires Bareword(w) && Pattern(x) && Occurs(m, i, KeyValue(x).Needle()) && q < KeyValue(x).Kept(m, i) - i
    requires Occurs(m, i + q, w) && (q > 0 ==> !IsWord(m[i + q - 1]))
    ensures q == 0 && |x| == |w|
  {
    KeyHead(x, m, i);
    PatternFacts(x);
    hide Occurs;
    hide RunEnd;
    if q >= |x| {
      NotOnSpace(w, m, i + q);
    } else if Bareword(x) {
      KeyOnBareword(w, x, m, i, q);
    } else {
      KeyOnQuotation(w, x, m, i, q);
    }
  }

  // ---------------------------------------------------------------- a hit of a key pass

  lemma HeadHeld(w: string, x: string, m: string, i: nat, rest: string, t: string)
    requires Pattern(x) && Occurs(m, i, KeyValue(x).Needle()) && |x| == |w|
    requires t == KeyValue(x).Head(m, i) + PLACEHOLDER + rest
    ensures |w| <= |t| && HeldAt(w, t, 0)
  {
    KeyHead(x, m, i);
    var hd := KeyValue(x).Head(m, i);
    Assoc(hd, PLACEHOLDER, rest);
    MarkedBehindHead(hd, rest);
    BracketBehind(t, |hd|);
    forall k | |w| <= k < |hd| ensures SpacesAndQuotes.Has(t[k]) {
      assert t[k] == hd[k] == m[i + k];
    }
    hide Marked;
    hide Occurs;
    RunIs(SpacesAndQuotes, t, |w|, |hd|);
  }

  lemma SliceContext(x: string, m: string, i: nat, q: nat, rest: string, t: string, w: string, word: bool)
    requires Occurs(m, i, KeyValue(x).Needle()) && t == KeyValue(x).Head(m, i) + PLACEHOLDER + rest
    requires q < |KeyValue(x).Head(m, i)| && Stands(w, t, q, word)
    ensures i + q <= |m| && (q > 0 ==> !IsWord(m[i + q - 1]))
  {
    KeyHead(x, m, i);
    assert q > 0 ==> t[q - 1] == KeyValue(x).Head(m, i)[q - 1];
    hide Occurs;
  }

  lemma HeadKey(w: string, x: string, m: string, i: nat, q: nat, rest: string, t: string, word: bool)
    requires Bareword(w) && Foreign(w) && Pattern(x) && Occurs(m, i, KeyValue(x).Needle())
    requires t == KeyValue(x).Head(m, i) + PLACEHOLDER + rest
    requires q < |KeyValue(x).Head(m, i)| + 10 && Stands(w, t, q, word)
    ensures q + |w| <= |t| && HeldAt(w, t, q)
  {
    hide *;
    var rule := KeyValue(x);
    var hd := rule.Head(m, i);
    ForeignFacts(w);
    StandsOccurs(w, t, q, word);
    Assoc(hd, PLACEHOLDER, rest);
    MarkedBehindHead(hd, rest);
    if q >= |hd| {
      NotInPlaceholder(t, |hd|, q, w);
    } else {
      WordInHead(rule, m, i, rest, q, w);
      SliceContext(x, m, i, q, rest, t, w, word);
      KeyInHead(w, x, m, i, q);
      HeadHeld(w, x, m, i, rest, t);
    }
  }

  lemma ForeignFacts(w: string)
    requires Foreign(w)
    ensures w != "" && NoBrackets(w)
  {
  }

  // ---------------------------------------------------------------- no hit of a key pass

  lemma HeldParts(w: string, m: string, i: nat, v: nat)
    requires i + |w| <= |m| && HeldAt(w, m, i) && v == RunEnd(SpacesAndQuotes, m, i + |w|)
    ensures i + |w| <= v && v + 10 <= |m| && Marked(m, v) && m[v] == '['
    ensures forall k :: i + |w| <= k < v ==> SpacesAndQuotes.Has(m[k])
  {
    RunIsMaximal(SpacesAndQuotes, m, i + |w|);
    BracketBehind(m, v);
  }

  lemma NotBeforeWord(x: string, m: string, k: nat)
    requires Quotation(x) && k + 1 < |m| && (SpacesAndQuotes.Has(m[k + 1]) || m[k + 1] == '[')
    ensures !Occurs(m, k, x)
  {
    OccursNext(m, k, x);
    OccursNext(m, k + 1, x[1..]);
  }

  /** No key pass finds anything from behind the start of a held key up to the end of its placeholder. */
  lemma HeldUnhit(w: string, x: string, m: string, i: nat, v: nat, k: nat)
    requires Bareword(w) && Pattern(x) && Occurs(m, i, w) && i + |w| <= v && v + 10 <= |m| && Marked(m, v)
             && m[v] == '['
    requires forall k :: i + |w| <= k < v ==> SpacesAndQuotes.Has(m[k])
    requires i < k < v + 10
    ensures !KeyValue(x).Hits(m, k)
  {
    hide Occurs;
    PatternFacts(x);
    if k < i + |w| {
      WordChar(m, i, w, k - 1 - i);
    } else if k >= v {
      NotInPlaceholder(m, v, k, x);
    } else if Bareword(x) {
      NotOnSpace(x, m, k);
    } else {
      NotBeforeWord(x, m, k);
    }
  }

  lemma HeldCopied(w: string, x: string, m: string, i: nat, v: nat, t: string)
    requires Bareword(w) && Pattern(x) && Occurs(m, i, w) && HeldAt(w, m, i) && v == RunEnd(SpacesAndQuotes, m, i + |w|)
    requires KeyValue(x).Needle() != "" && !KeyValue(x).Hits(m, i) && t == Scan(KeyValue(x), m, i)
    ensures v + 10 <= |m| && t == m[i..v + 10] + Scan(KeyValue(x), m, v + 10)
  {
    hide *;
    OccursFits(m, i, w);
    HeldParts(w, m, i, v);
    forall k | i <= k < v + 10 ensures !KeyValue(x).Hits(m, k) {
      if k > i {
        HeldUnhit(w, x, m, i, v, k);
      }
    }
    CopyUnhit(KeyValue(x), m, i, v + 10);
  }

  lemma CopiedHeld(w: string, m: string, i: nat, v: nat, rest: string, t: string)
    requires i + |w| <= v && v + 10 <= |m| && Marked(m, v) && m[v] == '['
    requires forall k :: i + |w| <= k < v ==> SpacesAndQuotes.Has(m[k])
    requires t == m[i..v + 10] + rest
    ensures |w| <= |t| && HeldAt(w, t, 0)
  {
    FrontSlices(m, i, v - i, rest, t);
    assert forall k :: 0 <= k < v + 10 - i ==> t[k] == m[i + k];
    hide Marked;
    RunIs(SpacesAndQuotes, t, |w|, v - i);
  }

  lemma HeldHere(w: string, m: string, i: nat)
    requires Held(w, m, false) && Stands(w, m, i, false)
    ensures i + |w| <= |m| && HeldAt(w, m, i)
  {
    OccursFits(m, i, w);
    hide HeldAt;
  }

  lemma CopyHeld(w: string, x: string, m: string, i: nat, word: bool)
    requires Bareword(w) && Foreign(w) && Pattern(x) && i < |m| && !KeyValue(x).Hits(m, i) && KeyValue(x).Needle() != ""
    requires word == (i > 0 && IsWord(m[i - 1])) && (x == w || Held(w, m, false))
    requires Foreign(KeyValue(x).Needle()) && Stands(w, Scan(KeyValue(x), m, i), 0, word)
    ensures |w| <= |Scan(KeyValue(x), m, i)| && HeldAt(w, Scan(KeyValue(x), m, i), 0)
  {
    hide *;
    var t := Scan(KeyValue(x), m, i);
    ForeignFacts(w);
    StandsOccurs(w, t, 0, word);
    OccursFits(t, 0, w);
    WordKept(KeyValue(x), m, i, w);
    StandsIn(w, t, m, i, word);
    if x == w {
      StandsHits(w, m, i);
    } else {
      HeldHere(w, m, i);
      var v := RunEnd(SpacesAndQuotes, m, i + |w|);
      HeldCopied(w, x, m, i, v, t);
      HeldParts(w, m, i, v);
      CopiedHeld(w, m, i, v, Scan(KeyValue(x), m, v + 10), t);
    }
  }

  // ---------------------------------------------------------------- a text behind another one

  lemma RunInTail(cl: Class, x: string, t: string, a: nat)
    requires a <= |t|
    ensures RunEnd(cl, x + t, |x| + a) == |x| + RunEnd(cl, t, a)
  {
    var u, n, e := x + t, |x|, RunEnd(cl, t, a);
    RunIsMaximal(cl, t, a);
    hide RunEnd;
    forall k | n + a <= k < n + e ensures cl.Has(u[k]) {
      assert u[k] == t[k - n];
    }
    assert e < |t| ==> u[n + e] == t[e];
    RunIs(cl, u, n + a, n + e);
  }

  lemma HeldInTail(w: string, x: string, t: string, q: nat)
    requires q + |w| <= |t| && HeldAt(w, t, q)
    ensures |x| + q + |w| <= |x + t| && HeldAt(w, x + t, |x| + q)
  {
    hide RunEnd;
    hide Marked;
    RunInTail(SpacesAndQuotes, x, t, q + |w|);
    MarkedInTail(x, t, RunEnd(SpacesAndQuotes, t, q + |w|));
  }

  lemma HeldBehind(w: string, x: string, t: string, word: bool)
    requires x != "" && Held(w, t, IsWord(x[|x| - 1]))
    requires forall q: nat :: q < |x| && Stands(w, x + t, q, word) ==> HeldAt(w, x + t, q)
    ensures Held(w, x + t, word)
  {
    hide HeldAt;
    hide Occurs;
    forall q: nat | Stands(w, x + t, q, word) ensures q + |w| <= |x + t| && HeldAt(w, x + t, q) {
      OccursFits(x + t, q, w);
      if q >= |x| {
        StandsBehind(w, x, t, q, word);
        OccursFits(t, q - |x|, w);
        HeldInTail(w, x, t, q - |x|);
      }
    }
  }

  lemma HeldAnyContext(w: string, t: string, word: bool, word': bool)
    requires Held(w, t, word) && !Occurs(t, 0, w)
    ensures Held(w, t, word')
  {
    hide HeldAt;
    hide Occurs;
    forall q: nat | Stands(w, t, q, word') ensures q + |w| <= |t| && HeldAt(w, t, q) {
      OccursFits(t, q, w);
      assert Stands(w, t, q, word);
    }
  }

  // ---------------------------------------------------------------- a pass

  lemma KeyClean(w: string)
    requires Bareword(w) && Foreign(w)
    ensures Clean(w)
  {
  }

  lemma HitHeld(w: string, x: string, m: string, i: nat, word: bool)
    requires Bareword(w) && Foreign(w) && Pattern(x) && i < |m| && KeyValue(x).Needle() != ""
    requires KeyValue(x).Hits(m, i) && Occurs(m, i, KeyValue(x).Needle()) && Foreign(KeyValue(x).Needle())
    requires i < KeyValue(x).End(m, i) && word == (i > 0 && IsWord(m[i - 1]))
    requires Held(w, Scan(KeyValue(x), m, KeyValue(x).End(m, i)), IsWord(m[KeyValue(x).End(m, i) - 1]))
    ensures Held(w, Scan(KeyValue(x), m, i), word)
  {
    hide *;
    var rule := KeyValue(x);
    var rest := Scan(rule, m, rule.End(m, i));
    var y := rule.Head(m, i) + PLACEHOLDER;
    KeyClean(w);
    RestNone(rule, w, m, i);
    PlaceholderLength();
    HeldAnyContext(w, rest, IsWord(m[rule.End(m, i) - 1]), IsWord(y[|y| - 1]));
    ScanHit(rule, m, i);
    forall q: nat | q < |y| && Stands(w, y + rest, q, word) ensures q + |w| <= |y + rest| && HeldAt(w, y + rest, q) {
      HeadKey(w, x, m, i, q, rest, y + rest, word);
    }
    HeldBehind(w, y, rest, word);
  }

  lemma CopyStepHeld(w: string, x: string, m: string, i: nat, word: bool)
    requires Bareword(w) && Foreign(w) && Pattern(x) && i < |m| && !KeyValue(x).Hits(m, i) && KeyValue(x).Needle() != ""
    requires word == (i > 0 && IsWord(m[i - 1])) && (x == w || Held(w, m, false)) && Foreign(KeyValue(x).Needle())
    requires Held(w, Scan(KeyValue(x), m, i + 1), IsWord(m[i]))
    ensures Held(w, Scan(KeyValue(x), m, i), word)
  {
    hide *;
    var y, rest := [m[i]], Scan(KeyValue(x), m, i + 1);
    ScanCopy(KeyValue(x), m, i);
    forall q: nat | q < |y| && Stands(w, y + rest, q, word) ensures q + |w| <= |y + rest| && HeldAt(w, y + rest, q) {
      CopyHeld(w, x, m, i, word);
    }
    HeldBehind(w, y, rest, word);
  }

  lemma NothingHeld(w: string, word: bool)
    requires w != ""
    ensures Held(w, "", word)
  {
  }

  lemma PatternFacts(x: string)
    requires Pattern(x)
    ensures KeyValue(x).Needle() == x && x != "" && Foreign(x)
  {
  }

  /** The pass of a key holds its placeholders, and every other key pass leaves them. */
  lemma {:induction false} HeldScan(w: string, x: string, m: string, i: nat)
    requires Bareword(w) && Foreign(w) && Pattern(x) && i <= |m| && (x == w || Held(w, m, false))
    ensures KeyValue(x).Needle() != "" && Held(w, Scan(KeyValue(x), m, i), i > 0 && IsWord(m[i - 1]))
    decreases |m| - i
  {
    hide *;
    PatternFacts(x);
    ForeignFacts(w);
    var word := i > 0 && IsWord(m[i - 1]);
    if i == |m| {
      ScanEnd(KeyValue(x), m);
      NothingHeld(w, word);
    } else if KeyValue(x).Hits(m, i) {
      HitFacts(KeyValue(x), m, i);
      HeldScan(w, x, m, KeyValue(x).End(m, i));
      HitHeld(w, x, m, i, word);
    } else {
      HeldScan(w, x, m, i + 1);
      CopyStepHeld(w, x, m, i, word);
    }
  }

  ghost predicate AllPatterns(rules: seq<Rule>) {
    forall i :: 0 <= i < |rules| ==> rules[i].KeyValue? && Pattern(rules[i].pattern)
  }

  lemma {:induction false} HeldAll(rules: seq<Rule>, w: string, m: string)
    requires Usable(rules) && AllPatterns(rules) && Bareword(w) && Foreign(w)
    requires Held(w, m, false) || KeyValue(w) in rules
    ensures Held(w, RedactAll(rules, m), false)
    decreases |rules|
  {
    hide Pattern;
    hide Bareword;
    hide Foreign;
    hide Held;
    if rules != [] {
      if Held(w, m, false) || rules[0] == KeyValue(w) {
        HeldScan(w, rules[0].pattern, m, 0);
      }
      HeldAll(rules[1..], w, Redact(rules[0], m));
    }
  }
}
