/** After a token pass, every token keeps its placeholder through all later passes. */
module RedactionTokens {
  import opened Prelude
  import opened Redaction
  import opened RedactionProperties
  import opened RedactionPipeline

  /** `w` stands in `t` at `q` and continues no word; `word` says so of the character in front of `t`. */
  ghost predicate Stands(w: string, t: string, q: nat, word: bool) {
    Occurs(t, q, w) && !(if q == 0 then word else IsWord(t[q - 1]))
  }

  /** Wherever `w` stands, the placeholder follows. */
  ghost predicate Shut(w: string, t: string, word: bool) {
    forall q: nat :: Stands(w, t, q, word) ==> Marked(t, q + |w|)
  }

  /** A word that begins with no delimiter and cannot overlap a placeholder. */
  ghost predicate Clean(w: string) {
    Foreign(w) && !IsDelimiter(w[0])
  }

  lemma CleanFacts(w: string)
    requires Clean(w)
    ensures w != "" && Foreign(w) && NoBrackets(w) && !IsDelimiter(w[0])
  {
  }

  lemma StandsBehind(w: string, x: string, t: string, q: nat, word: bool)
    requires x != "" && q >= |x| && Stands(w, x + t, q, word)
    ensures Stands(w, t, q - |x|, IsWord(x[|x| - 1]))
  {
    var u := x + t;
    assert u[|x|..] == t;
    OccursInTail(u, |x|, t, q - |x|, w);
    hide Occurs;
    assert u[q - 1] == if q == |x| then x[|x| - 1] else t[q - 1 - |x|];
  }

  lemma ShutBehind(w: string, x: string, t: string, word: bool)
    requires x != "" && Shut(w, t, IsWord(x[|x| - 1]))
    requires forall q: nat :: q < |x| && Stands(w, x + t, q, word) ==> Marked(x + t, q + |w|)
    ensures Shut(w, x + t, word)
  {
    hide Marked;
    hide Stands;
    forall q: nat | Stands(w, x + t, q, word) ensures Marked(x + t, q + |w|) {
      if q >= |x| {
        StandsBehind(w, x, t, q, word);
        MarkedInTail(x, t, q - |x| + |w|);
      }
    }
  }

  lemma ShutAnyContext(w: string, t: string, word: bool, word': bool)
    requires Shut(w, t, word) && !Occurs(t, 0, w)
    ensures Shut(w, t, word')
  {
    hide Marked;
    hide Occurs;
    forall q: nat | Stands(w, t, q, word') ensures Marked(t, q + |w|) {
      assert Stands(w, t, q, word);
    }
  }

  // ---------------------------------------------------------------- one pass

  lemma StandsOccurs(w: string, t: string, q: nat, word: bool)
    requires Stands(w, t, q, word)
    ensures Occurs(t, q, w)
  {
    hide Occurs;
  }

  /** What stands in both texts in the same context. */
  lemma StandsIn(w: string, t: string, m: string, i: nat, word: bool)
    requires Stands(w, t, 0, word) && Occurs(m, i, w) && word == (i > 0 && IsWord(m[i - 1]))
    ensures Stands(w, m, i, false)
  {
    hide Occurs;
  }

  lemma StandsHits(w: string, m: string, i: nat)
    requires Stands(w, m, i, false)
    ensures Token(w).Hits(m, i) && KeyValue(w).Hits(m, i)
  {
    hide Occurs;
  }

  lemma ShutAt(w: string, m: string, i: nat)
    requires Shut(w, m, false) && Stands(w, m, i, false)
    ensures Marked(m, i + |w|)
  {
    hide Stands;
    hide Marked;
  }

  lemma CopyShut(rule: Rule, w: string, m: string, i: nat, word: bool)
    requires Foreign(rule.Needle()) && Clean(w) && i < |m| && !rule.Hits(m, i)
    requires word == (i > 0 && IsWord(m[i - 1])) && (rule == Token(w) || Shut(w, m, false))
    requires rule.Needle() != "" && Stands(w, Scan(rule, m, i), 0, word)
    ensures Marked(Scan(rule, m, i), |w|)
  {
    hide *;
    CleanFacts(w);
    StandsOccurs(w, Scan(rule, m, i), 0, word);
    WordKept(rule, m, i, w);
    StandsIn(w, Scan(rule, m, i), m, i, word);
    if rule == Token(w) {
      StandsHits(w, m, i);
    } else {
      ShutAt(w, m, i);
    }
  }

  /** Up to case, the head is the text it stands for, so what continues a word in it did so before. */
  lemma HeadContext(rule: Rule, m: string, i: nat, q: nat)
    requires Occurs(m, i, rule.Needle()) && 0 < q <= |rule.Head(m, i)|
    ensures i + q <= |m| && (IsWord(rule.Head(m, i)[q - 1]) <==> IsWord(m[i + q - 1]))
  {
    HeadAgrees(rule, m, i);
    var c, d := rule.Head(m, i)[q - 1], m[i + (q - 1)];
    assert Lower(c) == Lower(d);
    hide Occurs;
    hide RunEnd;
  }

  lemma HeadStands(rule: Rule, w: string, m: string, i: nat, q: nat, rest: string, word: bool)
    requires Occurs(m, i, rule.Needle()) && q < |rule.Head(m, i)| && Occurs(m, i + q, w)
    requires Stands(w, rule.Head(m, i) + PLACEHOLDER + rest, q, word) && word == (i > 0 && IsWord(m[i - 1]))
    ensures Stands(w, m, i + q, false)
  {
    if q > 0 {
      HeadContext(rule, m, i, q);
      var t := rule.Head(m, i) + PLACEHOLDER + rest;
      assert t[q - 1] == rule.Head(m, i)[q - 1];
    }
    hide Occurs;
    hide RunEnd;
  }

  lemma HeadShut(rule: Rule, w: string, m: string, i: nat, q: nat, rest: string, t: string, word: bool)
    requires Foreign(rule.Needle()) && Clean(w) && Occurs(m, i, rule.Needle())
    requires word == (i > 0 && IsWord(m[i - 1])) && (rule == Token(w) || Shut(w, m, false))
    requires t == rule.Head(m, i) + PLACEHOLDER + rest && q < |rule.Head(m, i)| + 10 && Stands(w, t, q, word)
    ensures Marked(t, q + |w|)
  {
    hide *;
    var hd := rule.Head(m, i);
    CleanFacts(w);
    StandsOccurs(w, t, q, word);
    Assoc(hd, PLACEHOLDER, rest);
    MarkedBehindHead(hd, rest);
    if q >= |hd| {
      NotInPlaceholder(t, |hd|, q, w);
    } else {
      WordInHead(rule, m, i, rest, q, w);
      HeadStands(rule, w, m, i, q, rest, word);
      if rule == Token(w) {
        TokenHeadSize(w, m, i);
      } else {
        ShutAt(w, m, i + q);
        if q + |w| < |hd| {
          BracketBehind(m, i + q + |w|);
          HeadNoBracket(rule, m, i, q + |w|);
        }
      }
    }
  }

  lemma TokenHeadSize(w: string, m: string, i: nat)
    requires Occurs(m, i, Token(w).Needle())
    ensures |Token(w).Head(m, i)| == |w|
  {
    hide Occurs;
  }

  lemma BracketBehind(m: string, v: nat)
    requires Marked(m, v)
    ensures v < |m| && m[v] == '['
  {
    PlaceholderChar(m, v, v);
  }

  /** Behind a cut no clean word begins. */
  lemma RestNone(rule: Rule, w: string, m: string, i: nat)
    requires Foreign(rule.Needle()) && Clean(w) && Occurs(m, i, rule.Needle())
    ensures !Occurs(Scan(rule, m, rule.End(m, i)), 0, w)
  {
    var e := rule.End(m, i);
    RunIsMaximal(rule.Body(), m, rule.Kept(m, i));
    OccursNext(m, e, w);
    hide RunEnd;
    assert !Occurs(m, e, w);
    hide Occurs;
    hide Scan;
    if Occurs(Scan(rule, m, e), 0, w) {
      WordKept(rule, m, e, w);
    }
  }

  lemma HitShut(rule: Rule, w: string, m: string, i: nat, word: bool)
    requires Foreign(rule.Needle()) && Clean(w) && i < |m| && rule.Hits(m, i) && Occurs(m, i, rule.Needle())
    requires rule.Needle() != "" && i < rule.End(m, i)
    requires word == (i > 0 && IsWord(m[i - 1])) && (rule == Token(w) || Shut(w, m, false))
    requires Shut(w, Scan(rule, m, rule.End(m, i)), IsWord(m[rule.End(m, i) - 1]))
    ensures Shut(w, Scan(rule, m, i), word)
  {
    hide *;
    var rest := Scan(rule, m, rule.End(m, i));
    var x := rule.Head(m, i) + PLACEHOLDER;
    RestNone(rule, w, m, i);
    PlaceholderLength();
    ShutAnyContext(w, rest, IsWord(m[rule.End(m, i) - 1]), IsWord(x[|x| - 1]));
    ScanHit(rule, m, i);
    forall q: nat | q < |x| && Stands(w, x + rest, q, word) ensures Marked(x + rest, q + |w|) {
      HeadShut(rule, w, m, i, q, rest, x + rest, word);
    }
    ShutBehind(w, x, rest, word);
  }

  lemma PlaceholderLength()
    ensures |PLACEHOLDER| == 10
  {
  }

  lemma HitFacts(rule: Rule, m: string, i: nat)
    requires rule.Needle() != "" && rule.Hits(m, i)
    ensures Occurs(m, i, rule.Needle()) && i < rule.End(m, i) <= |m|
  {
    hide Occurs;
    hide RunEnd;
  }

  lemma CopyStepShut(rule: Rule, w: string, m: string, i: nat, word: bool)
    requires Foreign(rule.Needle()) && Clean(w) && i < |m| && !rule.Hits(m, i) && rule.Needle() != ""
    requires word == (i > 0 && IsWord(m[i - 1])) && (rule == Token(w) || Shut(w, m, false))
    requires Shut(w, Scan(rule, m, i + 1), IsWord(m[i]))
    ensures Shut(w, Scan(rule, m, i), word)
  {
    hide *;
    var x, rest := [m[i]], Scan(rule, m, i + 1);
    ScanCopy(rule, m, i);
    forall q: nat | q < |x| && Stands(w, x + rest, q, word) ensures Marked(x + rest, q + |w|) {
      CopyShut(rule, w, m, i, word);
    }
    ShutBehind(w, x, rest, word);
  }

  lemma NothingStands(w: string, word: bool)
    requires w != ""
    ensures Shut(w, "", word)
  {
  }

  lemma ForeignNotEmpty(w: string)
    requires Foreign(w)
    ensures w != ""
  {
  }

  /** The pass of a prefix shuts its tokens, and every pass keeps them shut. */
  lemma {:induction false} ShutScan(rule: Rule, w: string, m: string, i: nat)
    requires Foreign(rule.Needle()) && Clean(w) && i <= |m| && (rule == Token(w) || Shut(w, m, false))
    ensures rule.Needle() != "" && Shut(w, Scan(rule, m, i), i > 0 && IsWord(m[i - 1]))
    decreases |m| - i
  {
    hide *;
    ForeignNotEmpty(rule.Needle());
    CleanFacts(w);
    var word := i > 0 && IsWord(m[i - 1]);
    if i == |m| {
      ScanEnd(rule, m);
      NothingStands(w, word);
    } else if rule.Hits(m, i) {
      HitFacts(rule, m, i);
      ShutScan(rule, w, m, rule.End(m, i));
      HitShut(rule, w, m, i, word);
    } else {
      ShutScan(rule, w, m, i + 1);
      CopyStepShut(rule, w, m, i, word);
    }
  }

  lemma {:induction false} ShutAll(rules: seq<Rule>, w: string, m: string)
    requires Usable(rules) && AllForeign(rules) && Clean(w) && (Shut(w, m, false) || Token(w) in rules)
    ensures Shut(w, RedactAll(rules, m), false)
    decreases |rules|
  {
    hide Foreign;
    hide Clean;
    hide Shut;
    if rules != [] {
      if Shut(w, m, false) || rules[0] == Token(w) {
        ShutScan(rules[0], w, m, 0);
      }
      ShutAll(rules[1..], w, Redact(rules[0], m));
    }
  }
}
