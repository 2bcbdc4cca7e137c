/** What the redaction passes guarantee: idempotence, secrecy, and that no pass undoes another. */
module RedactionProperties {
  import opened Prelude
  import opened Redaction

  // ---------------------------------------------------------------- occurrences, one character at a time

  lemma OccursNext(m: string, i: nat, w: string)
    requires w != ""
    ensures Occurs(m, i, w) <==> i < |m| && Lower(m[i]) == Lower(w[0]) && Occurs(m, i + 1, w[1..])
  {
    if Occurs(m, i, w) {
      assert m[i + 0] == m[i];
      forall k | 0 <= k < |w[1..]| ensures Lower(m[i + 1 + k]) == Lower(w[1..][k]) {
        assert m[i + 1 + k] == m[i + (k + 1)] && w[1..][k] == w[k + 1];
      }
    }
    if i < |m| && Lower(m[i]) == Lower(w[0]) && Occurs(m, i + 1, w[1..]) {
      forall k | 0 <= k < |w| ensures Lower(m[i + k]) == Lower(w[k]) {
        if k > 0 {
          assert m[i + k] == m[i + 1 + (k - 1)] && w[1..][k - 1] == w[k];
        }
      }
    }
  }

  lemma OccursInTail(m: string, j: nat, t: string, q: nat, w: string)
    requires j <= |m| && m[j..] == t
    ensures Occurs(m, j + q, w) <==> Occurs(t, q, w)
  {
    assert forall k :: 0 <= k < |t| ==> t[k] == m[j + k];
    if Occurs(m, j + q, w) {
      forall k | 0 <= k < |w| ensures Lower(t[q + k]) == Lower(w[k]) {
        assert t[q + k] == m[j + (q + k)] == m[j + q + k];
      }
    }
    if Occurs(t, q, w) {
      forall k | 0 <= k < |w| ensures Lower(m[j + q + k]) == Lower(w[k]) {
        assert t[q + k] == m[j + (q + k)] == m[j + q + k];
      }
    }
  }

  lemma OccursCons(c: char, t: string, w: string)
    requires w != ""
    ensures Occurs([c] + t, 0, w) <==> Lower(c) == Lower(w[0]) && Occurs(t, 0, w[1..])
  {
    OccursNext([c] + t, 0, w);
    assert ([c] + t)[1..] == t;
    OccursInTail([c] + t, 1, t, 0, w[1..]);
  }

  /** The head of a hit is the text it stands for, up to case. */
  lemma HeadAgrees(rule: Rule, m: string, i: nat)
    requires Occurs(m, i, rule.Needle())
    ensures forall k :: 0 <= k < |rule.Head(m, i)| ==> Lower(rule.Head(m, i)[k]) == Lower(m[i + k])
  {
    if rule.Authorization? {
      var v := RunEnd(Spaces, m, i + 14);
      if Occurs(m, v, "bearer ") {
        forall k | 0 <= k < |rule.Head(m, i)| ensures Lower(rule.Head(m, i)[k]) == Lower(m[i + k]) {
          if k >= v - i {
            assert Lower(m[v + (k - (v - i))]) == Lower("bearer "[k - (v - i)]);
          }
        }
      }
    }
  }

  lemma Assoc(a: string, b: string, c: string)
    ensures a + b + c == a + (b + c)
  {
  }

  lemma OccursAtEnds(m: string, i: nat, w: string)
    requires i <= |m|
    ensures Occurs(m, i, "") && (i == |m| && w != "" ==> !Occurs(m, i, w))
  {
  }

  /** A pass never changes which words no longer than its needle the text begins with. */
  lemma {:induction false} ScanStarts(rule: Rule, m: string, i: nat, w: string)
    requires rule.Needle() != "" && i <= |m| && |w| <= |rule.Needle()|
    ensures Occurs(Scan(rule, m, i), 0, w) <==> Occurs(m, i, w)
    decreases |m| - i
  {
    if i == |m| {
      assert Scan(rule, m, i) == "";
    }
    hide Occurs;
    hide Scan;
    OccursAtEnds(m, i, w);
    OccursAtEnds(Scan(rule, m, i), 0, w);
    if w != "" && i < |m| {
      if rule.Hits(m, i) {
        ScanHit(rule, m, i);
        var t, rest := rule.Head(m, i), Scan(rule, m, rule.End(m, i));
        HeadStarts(rule, m, i, PLACEHOLDER + rest, w);
        Assoc(t, PLACEHOLDER, rest);
      } else {
        ScanCopy(rule, m, i);
        OccursCons(m[i], Scan(rule, m, i + 1), w);
        OccursNext(m, i, w);
        ScanStarts(rule, m, i + 1, w[1..]);
      }
    }
  }

  lemma HeadStarts(rule: Rule, m: string, i: nat, rest: string, w: string)
    requires Occurs(m, i, rule.Needle()) && |w| <= |rule.Head(m, i)|
    ensures Occurs(rule.Head(m, i) + rest, 0, w) <==> Occurs(m, i, w)
  {
    HeadAgrees(rule, m, i);
    var t := rule.Head(m, i);
    assert forall k :: 0 <= k < |w| ==> (t + rest)[0 + k] == t[k];
  }

  // ---------------------------------------------------------------- idempotence

  /** A needle no cut can stop right in front of. */
  predicate CleanStart(rule: Rule)
    requires rule.Needle() != ""
  {
    rule.Url? || !IsDelimiter(rule.Needle()[0])
  }

  /** The text m[i..i + n], moved to m'[j..j + n], reads the same there. */
  lemma Moved(m: string, i: nat, m': string, j: nat, n: nat)
    requires i + n <= |m| && j + n <= |m'| && m'[j..j + n] == m[i..i + n]
    ensures forall k :: j <= k < j + n ==> m'[k] == m[i + (k - j)]
  {
    forall k | j <= k < j + n ensures m'[k] == m[i + (k - j)] {
      assert m'[j..j + n][k - j] == m'[k] && m[i..i + n][k - j] == m[i + (k - j)];
    }
  }

  /** A second pass keeps of a hit exactly what the first pass kept. */
  lemma HeadAgain(rule: Rule, m: string, i: nat, m': string, j: nat)
    requires rule.Needle() != "" && Occurs(m, i, rule.Needle()) && Occurs(m', j, rule.Needle())
    requires var t := rule.Head(m, i); j + |t| < |m'| && m'[j..j + |t|] == t && m'[j + |t|] == '['
    ensures rule.Kept(m', j) == j + |rule.Head(m, i)|
    ensures rule.Head(m', j) == rule.Head(m, i)
  {
    hide Occurs;
    hide RunEnd;
    var n := |rule.Needle()|;
    var t := rule.Head(m, i);
    match rule
    case KeyValue(_) =>
      RunIsMaximal(SpacesAndQuotes, m, i + n);
      Moved(m, i, m', j, |t|);
      RunIs(SpacesAndQuotes, m', j + n, j + |t|);
    case Authorization => AuthorizationAgain(m, i, m', j);
    case _ =>
  }

  lemma AuthorizationAgain(m: string, i: nat, m': string, j: nat)
    requires Occurs(m, i, "authorization:") && Occurs(m', j, "authorization:")
    requires var t := Authorization.Head(m, i); j + |t| < |m'| && m'[j..j + |t|] == t && m'[j + |t|] == '['
    ensures Authorization.Kept(m', j) == j + |Authorization.Head(m, i)|
    ensures Authorization.Head(m', j) == Authorization.Head(m, i)
  {
    hide RunEnd;
    var t := Authorization.Head(m, i);
    RunIsMaximal(Spaces, m, i + 14);
    var n := RunEnd(Spaces, m, i + 14) - i;
    assert t[..n] == m[i..i + n];
    assert m'[j..j + n] == m'[j..j + |t|][..n];
    Moved(m, i, m', j, n);
    var bearer := Occurs(m, i + n, "bearer ");
    if bearer {
      assert t[n..] == "Bearer ";
      assert m'[j + n..j + n + 7] == m'[j..j + |t|][n..];
      BearerAt(m', j + n);
    }
    assert m'[j + n] == if bearer then 'B' else '[';
    RunIs(Spaces, m', j + 14, j + n);
    if !bearer {
      NoBearerAt(m', j + n);
    }
  }

  lemma NoBearerAt(m: string, v: nat)
    requires v < |m| && m[v] == '['
    ensures !Occurs(m, v, "bearer ")
  {
    OccursNext(m, v, "bearer ");
  }

  lemma BearerAt(m: string, v: nat)
    requires v + 7 <= |m| && m[v..v + 7] == "Bearer "
    ensures Occurs(m, v, "bearer ") && m[v] == 'B'
  {
    forall k | 0 <= k < 7 ensures Lower(m[v + k]) == Lower("bearer "[k]) {
      assert m[v..v + 7][k] == m[v + k];
    }
    assert m[v..v + 7][0] == m[v];
  }

  /** The first character behind a cut comes through a pass unchanged in kind. */
  lemma RestStarts(rule: Rule, m: string, e: nat)
    requires rule.Needle() != "" && CleanStart(rule) && e <= |m| && (e < |m| ==> !rule.Body().Has(m[e]))
    ensures var rest := Scan(rule, m, e); rest == "" || !rule.Body().Has(rest[0])
    ensures !rule.Url? ==> !Occurs(m, e, rule.Needle())
  {
    if e < |m| {
      if Occurs(m, e, rule.Needle()) {
        assert Lower(m[e + 0]) == Lower(rule.Needle()[0]);
      }
      if rule.Hits(m, e) {
        ScanHit(rule, m, e);
      } else {
        ScanCopy(rule, m, e);
      }
    }
  }

  /** Two scans that stand at the same point of the same text go on alike if no hit can begin right there,
      or if the look-behind sees the same. */
  ghost predicate SameContext(rule: Rule, m: string, i: nat, m': string, j: nat) {
    rule.Guarded() ==>
      || !Occurs(m, i, rule.Needle())
      || ((i > 0 && i <= |m| && IsWord(m[i - 1])) <==> (j > 0 && j <= |m'| && IsWord(m'[j - 1])))
  }

  /** Redacting, in any compatible surroundings, what a pass wrote writes the same again. */
  lemma {:induction false} ScanAgain(rule: Rule, m: string, i: nat, m': string, j: nat)
    requires rule.Needle() != "" && CleanStart(rule) && i <= |m| && j <= |m'|
    requires m'[j..] == Scan(rule, m, i) && SameContext(rule, m, i, m', j)
    ensures Scan(rule, m', j) == Scan(rule, m, i)
    decreases |m| - i
  {
    if i == |m| {
      assert j == |m'|;
    } else {
      assert Occurs(m', j, rule.Needle()) <==> Occurs(m, i, rule.Needle()) by {
        ScanStarts(rule, m, i, rule.Needle());
        OccursInTail(m', j, Scan(rule, m, i), 0, rule.Needle());
      }
      if rule.Hits(m, i) {
        ScanAgainHit(rule, m, i, m', j);
        RestStartsBehind(rule, m, i);
        ScanAgain(rule, m, rule.End(m, i), m', rule.End(m', j));
        ScanHit(rule, m, i);
        ScanHit(rule, m', j);
      } else {
        hide Scan;
        hide Occurs;
        ScanCopy(rule, m, i);
        assert m'[j] == m'[j..][0] == m[i];
        assert m'[j + 1..] == m'[j..][1..] == Scan(rule, m, i + 1);
        ScanAgain(rule, m, i + 1, m', j + 1);
        ScanCopy(rule, m', j);
      }
    }
  }

  lemma RestStartsBehind(rule: Rule, m: string, i: nat)
    requires rule.Needle() != "" && CleanStart(rule) && Occurs(m, i, rule.Needle())
    ensures var rest := Scan(rule, m, rule.End(m, i)); rest == "" || !rule.Body().Has(rest[0])
    ensures !rule.Url? ==> !Occurs(m, rule.End(m, i), rule.Needle())
  {
    RunIsMaximal(rule.Body(), m, rule.Kept(m, i));
    RestStarts(rule, m, rule.End(m, i));
  }

  /** In what a pass wrote for a hit, a second pass makes the same cut. */
  lemma ScanAgainHit(rule: Rule, m: string, i: nat, m': string, j: nat)
    requires rule.Needle() != "" && CleanStart(rule) && i < |m| && j <= |m'| && rule.Hits(m, i)
    requires m'[j..] == Scan(rule, m, i) && Occurs(m', j, rule.Needle())
    ensures rule.Head(m', j) == rule.Head(m, i)
    ensures m'[rule.End(m', j)..] == Scan(rule, m, rule.End(m, i))
  {
    hide Occurs;
    hide Scan;
    hide RunEnd;
    ScanHit(rule, m, i);
    RestStartsBehind(rule, m, i);
    var t, rest := rule.Head(m, i), Scan(rule, m, rule.End(m, i));
    Parts(m', j, t, rest);
    HeadAgain(rule, m, i, m', j);
    CutAgain(rule.Body(), m', j + |t|, rest);
    assert rule.End(m', j) == j + |t| + 10;
  }

  lemma Parts(m: string, j: nat, t: string, rest: string)
    requires j <= |m| && m[j..] == t + PLACEHOLDER + rest
    ensures var a := j + |t|;
            a + 10 <= |m| && m[j..a] == t && m[a..a + 10] == PLACEHOLDER && m[a] == '[' && m[a + 10..] == rest
  {
    var a := j + |t|;
    assert m[j..a] == m[j..][..|t|];
    assert m[a..a + 10] == m[j..][|t|..|t| + 10];
    assert m[a + 10..] == m[j..][|t| + 10..];
    assert m[a..a + 10][0] == m[a];
  }

  lemma CutAgain(body: Class, m: string, a: nat, rest: string)
    requires body.NonSpaces? || body.NonDelimiters?
    requires a + 10 <= |m| && m[a..a + 10] == PLACEHOLDER && m[a + 10..] == rest
    requires rest == "" || !body.Has(rest[0])
    ensures RunEnd(body, m, a) == a + 10
  {
    forall k | a <= k < a + 10 ensures body.Has(m[k]) {
      assert m[k] == m[a..a + 10][k - a] == PLACEHOLDER[k - a];
    }
    assert rest != "" ==> rest[0] == m[a + 10];
    RunIs(body, m, a, a + 10);
  }

  /** Every pass but a guarded one led by a delimiter is idempotent. */
  lemma CleanIsIdempotent(rule: Rule, m: string)
    requires rule.Needle() != "" && CleanStart(rule)
    ensures Redact(rule, Redact(rule, m)) == Redact(rule, m)
  {
    var out := Redact(rule, m);
    assert out[0..] == out;
    ScanAgain(rule, m, 0, out, 0);
  }

  lemma {:induction false} ShortTail(rule: Rule, m: string, i: nat)
    requires rule.Needle() != "" && |m| - |rule.Needle()| < i <= |m|
    ensures Scan(rule, m, i) == m[i..]
    decreases |m| - i
  {
    if i < |m| {
      ShortTail(rule, m, i + 1);
      ScanCopy(rule, m, i);
      assert m[i..] == [m[i]] + m[i + 1..];
    }
  }

  lemma OccursSelf(w: string, rest: string)
    ensures Occurs(w + rest, 0, w)
  {
  }

  /** For a guarded needle led by a delimiter, one pass over "needle a needle" leaves the second occurrence
      to the next pass. */
  lemma DelimiterLedIsNot(rule: Rule) returns (m: string)
    requires rule.Needle() != "" && !CleanStart(rule) && rule.Guarded()
    ensures Redact(rule, Redact(rule, m)) != Redact(rule, m)
  {
    hide Scan;
    hide RunEnd;
    hide Occurs;
    var p := rule.Needle();
    var n := |p|;
    m := p + ("a" + p);
    OccursSelf(p, "a" + p);
    assert m[n] == 'a' && m[n + 1] == p[0];
    RunIs(SpacesAndQuotes, m, n, n);
    RunIs(NonDelimiters, m, n, n + 1);
    ScanHit(rule, m, 0);
    assert m[0..n] == p && m[n + 2..] == p[1..];
    ScanCopy(rule, m, n + 1);
    ShortTail(rule, m, n + 2);
    assert [p[0]] + p[1..] == p;
    SecondPassFinds(rule, Redact(rule, m));
  }

  lemma SecondPassFinds(rule: Rule, out: string)
    requires rule.Needle() != "" && rule.Guarded() && !CleanStart(rule)
    requires out == rule.Needle() + PLACEHOLDER + rule.Needle()
    ensures |Redact(rule, out)| > |out|
  {
    hide Scan;
    hide RunEnd;
    hide Occurs;
    var p := rule.Needle();
    var n := |p|;
    SecondPassSees(p, out);
    RunIs(SpacesAndQuotes, out, n, n);
    CutAgain(NonDelimiters, out, n, p);
    ScanHit(rule, out, 0);
    ScanHit(rule, out, n + 10);
  }

  lemma SecondPassSees(p: string, out: string)
    requires out == p + PLACEHOLDER + p
    ensures Occurs(out, 0, p) && Occurs(out, |p| + 10, p)
    ensures out[|p|] == '[' && out[|p| + 9] == ']' && out[|p|..|p| + 10] == PLACEHOLDER && out[|p| + 10..] == p
  {
    hide Occurs;
    Assoc(p, PLACEHOLDER, p);
    OccursSelf(p, PLACEHOLDER + p);
    OccursSelf(p, "");
    assert p + "" == p;
    assert out[0..] == out;
    Parts(out, 0, p, p);
    PlaceholderChar(out, |p|, |p| + 9);
    OccursInTail(out, |p| + 10, p, 0, p);
  }

  /** A pass is idempotent on all messages exactly when it is a URL pass or its needle does not begin with a
      delimiter. */
  lemma IdempotentIff(rule: Rule)
    requires rule.Needle() != ""
    ensures (forall m :: Redact(rule, Redact(rule, m)) == Redact(rule, m)) <==> CleanStart(rule)
  {
    if CleanStart(rule) {
      forall m ensures Redact(rule, Redact(rule, m)) == Redact(rule, m) {
        CleanIsIdempotent(rule, m);
      }
    } else {
      var m := DelimiterLedIsNot(rule);
    }
  }

  // ---------------------------------------------------------------- no pass undoes a URL pass

  ghost predicate NoBrackets(w: string) {
    forall k :: 0 <= k < |w| ==> w[k] != '[' && w[k] != ']'
  }

  /** A word that cannot overlap a placeholder: no brackets, and a last character foreign to it. */
  ghost predicate Foreign(w: string) {
    w != "" && NoBrackets(w) && !IsPlaceholderLetter(Lower(w[|w| - 1]))
  }

  predicate IsPlaceholderLetter(c: char) {
    c == 'r' || c == 'e' || c == 'd' || c == 'a' || c == 'c' || c == 't'
  }

  /** A placeholder stands in `t` at `q`. */
  ghost predicate Marked(t: string, q: nat) {
    q + 10 <= |t| && t[q..q + 10] == PLACEHOLDER
  }

  /** Every occurrence of `w`, in any case, is immediately followed by a placeholder. */
  ghost predicate Followed(w: string, t: string) {
    forall q: nat :: Occurs(t, q, w) ==> Marked(t, q + |w|)
  }

  lemma PlaceholderChar(t: string, q: nat, k: nat)
    requires Marked(t, q) && q <= k < q + 10
    ensures t[k] == PLACEHOLDER[k - q]
    ensures t[k] == '[' || t[k] == ']' || IsPlaceholderLetter(Lower(t[k]))
  {
    assert t[k] == t[q..q + 10][k - q];
  }

  lemma NotInPlaceholder(t: string, q: nat, p: nat, w: string)
    requires Marked(t, q) && q <= p < q + 10 && Foreign(w)
    ensures !Occurs(t, p, w)
  {
    if p + |w| <= |t| {
      var k := if p + |w| <= q + 10 then |w| - 1 else q + 9 - p;
      PlaceholderChar(t, q, p + k);
      assert Lower(t[p + k]) != Lower(w[k]);
    }
  }

  lemma {:induction false} CopyRun(rule: Rule, m: string, i: nat, n: nat)
    requires rule.Needle() != "" && i + n <= |m|
    requires forall k :: i <= k < i + n ==> !Occurs(m, k, rule.Needle())
    ensures Scan(rule, m, i) == m[i..i + n] + Scan(rule, m, i + n)
    decreases n
  {
    hide Scan;
    hide Occurs;
    if n == 0 {
      assert m[i..i] == "";
    } else {
      ScanCopy(rule, m, i);
      CopyRun(rule, m, i + 1, n - 1);
      Cons(m, i, i + n, Scan(rule, m, i + n));
    }
  }

  lemma PlaceholderKept(rule: Rule, m: string, i: nat)
    requires Foreign(rule.Needle()) && Marked(m, i)
    ensures Marked(Scan(rule, m, i), 0)
  {
    hide Occurs;
    hide Scan;
    forall k | i <= k < i + 10 ensures !Occurs(m, k, rule.Needle()) {
      NotInPlaceholder(m, i, k, rule.Needle());
    }
    CopyRun(rule, m, i, 10);
    var rest := Scan(rule, m, i + 10);
    assert (PLACEHOLDER + rest)[0..10] == PLACEHOLDER;
  }

  lemma OccursChar(m: string, i: nat, w: string, k: nat)
    requires Occurs(m, i, w) && k < |w|
    ensures Lower(m[i + k]) == Lower(w[k])
  {
  }

  lemma HeadNoBracket(rule: Rule, m: string, i: nat, k: nat)
    requires Foreign(rule.Needle()) && Occurs(m, i, rule.Needle()) && k < |rule.Head(m, i)|
    ensures m[i + k] != '[' && m[i + k] != ']'
  {
    hide RunEnd;
    hide Occurs;
    var n := |rule.Needle()|;
    if k < n {
      OccursChar(m, i, rule.Needle(), k);
    } else if rule.KeyValue? {
      RunIsMaximal(SpacesAndQuotes, m, i + n);
    } else {
      assert rule.Authorization?;
      ValueNoBracket(m, i, k);
    }
  }

  lemma ValueNoBracket(m: string, i: nat, k: nat)
    requires Occurs(m, i, "authorization:") && 14 <= k < |Authorization.Head(m, i)|
    ensures m[i + k] != '[' && m[i + k] != ']'
  {
    hide RunEnd;
    hide Occurs;
    var v := RunEnd(Spaces, m, i + 14);
    if k < v - i {
      RunIsMaximal(Spaces, m, i + 14);
    } else {
      BearerNoBracket(m, v, k - (v - i));
    }
  }

  lemma BearerNoBracket(m: string, v: nat, k: nat)
    requires Occurs(m, v, "bearer ") && k < 7
    ensures m[v + k] != '[' && m[v + k] != ']'
  {
    assert Lower(m[v + k]) == Lower("bearer "[k]);
  }

  lemma MarkedCons(c: char, t: string, q: nat)
    requires Marked(t, q)
    ensures Marked([c] + t, q + 1)
  {
    assert ([c] + t)[q + 1..q + 11] == t[q..q + 10];
  }

  lemma NotAcross(t: string, q: nat, p: nat, w: string)
    requires NoBrackets(w) && q <= p < q + |w| && p < |t| && t[p] == '['
    ensures !Occurs(t, q, w)
  {
    if q + |w| <= |t| {
      assert Lower(t[q + (p - q)]) != Lower(w[p - q]);
    }
  }

  /** A bracket-free word found in what a pass wrote for a hit lies in the head or behind the placeholder;
      in the head it was there before. */
  lemma WordInHead(rule: Rule, m: string, i: nat, rest: string, q: nat, w: string)
    requires Occurs(m, i, rule.Needle()) && NoBrackets(w) && q < |rule.Head(m, i)|
    requires Occurs(rule.Head(m, i) + (PLACEHOLDER + rest), q, w)
    ensures q + |w| <= |rule.Head(m, i)| && Occurs(m, i + q, w)
  {
    var t := rule.Head(m, i);
    var out := t + (PLACEHOLDER + rest);
    assert out[|t|] == '[';
    if q + |w| > |t| {
      NotAcross(out, q, |t|, w);
    }
    HeadAgrees(rule, m, i);
    forall k | 0 <= k < |w| ensures Lower(m[i + q + k]) == Lower(w[k]) {
      assert out[q + k] == t[q + k];
      assert Lower(t[q + k]) == Lower(m[i + (q + k)]);
    }
  }

  lemma MarkedBehindHead(t: string, rest: string)
    ensures Marked(t + (PLACEHOLDER + rest), |t|)
  {
    var out := t + (PLACEHOLDER + rest);
    assert out[|t|..|t| + 10] == PLACEHOLDER;
  }

  /** A bracket-free word at the front of a pass's output was there before, and a placeholder behind it stays. */
  lemma {:induction false} WordKept(rule: Rule, m: string, i: nat, w: string)
    requires Foreign(rule.Needle()) && i <= |m| && NoBrackets(w) && Occurs(Scan(rule, m, i), 0, w)
    ensures Occurs(m, i, w)
    ensures Marked(m, i + |w|) ==> Marked(Scan(rule, m, i), |w|)
    decreases |m| - i
  {
    hide Scan;
    hide Occurs;
    OccursAtEnds(m, i, w);
    if w == "" {
      if Marked(m, i) {
        PlaceholderKept(rule, m, i);
      }
    } else if i == |m| {
      ScanEnd(rule, m);
      OccursAtEnds("", 0, w);
    } else if rule.Hits(m, i) {
      ScanHit(rule, m, i);
      WordKeptHit(rule, m, i, Scan(rule, m, rule.End(m, i)), w);
    } else {
      ScanCopy(rule, m, i);
      OccursCons(m[i], Scan(rule, m, i + 1), w);
      WordKept(rule, m, i + 1, w[1..]);
      OccursNext(m, i, w);
      if Marked(m, i + |w|) {
        MarkedCons(m[i], Scan(rule, m, i + 1), |w| - 1);
      }
    }
  }

  lemma WordKeptHit(rule: Rule, m: string, i: nat, rest: string, w: string)
    requires Foreign(rule.Needle()) && Occurs(m, i, rule.Needle()) && NoBrackets(w)
    requires Occurs(rule.Head(m, i) + PLACEHOLDER + rest, 0, w)
    ensures Occurs(m, i, w)
    ensures Marked(m, i + |w|) ==> Marked(rule.Head(m, i) + PLACEHOLDER + rest, |w|)
  {
    hide Occurs;
    var t := rule.Head(m, i);
    Assoc(t, PLACEHOLDER, rest);
    WordInHead(rule, m, i, rest, 0, w);
    MarkedBehindHead(t, rest);
    if Marked(m, i + |w|) && |w| < |t| {
      PlaceholderChar(m, i + |w|, i + |w|);
      HeadNoBracket(rule, m, i, |w|);
    }
  }

  lemma ScanEnd(rule: Rule, m: string)
    requires rule.Needle() != ""
    ensures Scan(rule, m, |m|) == ""
  {
  }

  lemma MarkedInTail(x: string, t: string, q: nat)
    ensures Marked(x + t, |x| + q) <==> Marked(t, q)
  {
    if |x| + q + 10 <= |x + t| {
      assert (x + t)[|x| + q..|x| + q + 10] == t[q..q + 10];
    }
  }

  lemma FollowedBehind(w: string, x: string, t: string)
    requires Followed(w, t)
    requires forall q: nat :: q < |x| && Occurs(x + t, q, w) ==> Marked(x + t, q + |w|)
    ensures Followed(w, x + t)
  {
    hide Occurs;
    hide Marked;
    forall q: nat | Occurs(x + t, q, w) ensures Marked(x + t, q + |w|) {
      if q >= |x| {
        assert (x + t)[|x|..] == t;
        OccursInTail(x + t, |x|, t, q - |x|, w);
        MarkedInTail(x, t, q - |x| + |w|);
      }
    }
  }

  /** A URL pass makes every occurrence of its scheme be followed by the placeholder, and every pass with a
      foreign needle keeps that for every foreign word. */
  lemma {:induction false} FollowedScan(rule: Rule, w: string, m: string, i: nat)
    requires Foreign(rule.Needle()) && Foreign(w) && i <= |m|
    requires rule == Url(w) || Followed(w, m)
    ensures Followed(w, Scan(rule, m, i))
    decreases |m| - i
  {
    hide Scan;
    hide Occurs;
    if i == |m| {
      ScanEnd(rule, m);
      forall q: nat ensures !Occurs("", q, w) {
        OccursNext("", q, w);
      }
    } else if rule.Hits(m, i) {
      var rest := Scan(rule, m, rule.End(m, i));
      FollowedScan(rule, w, m, rule.End(m, i));
      ScanHit(rule, m, i);
      FollowedHit(rule, w, m, i, rest);
    } else {
      FollowedScan(rule, w, m, i + 1);
      ScanCopy(rule, m, i);
      var out := Scan(rule, m, i);
      if Occurs(out, 0, w) {
        WordKept(rule, m, i, w);
      }
      FollowedBehind(w, [m[i]], Scan(rule, m, i + 1));
    }
  }

  lemma FollowedHit(rule: Rule, w: string, m: string, i: nat, rest: string)
    requires Foreign(rule.Needle()) && Foreign(w) && Occurs(m, i, rule.Needle()) && Followed(w, rest)
    requires rule == Url(w) || Followed(w, m)
    ensures Followed(w, rule.Head(m, i) + PLACEHOLDER + rest)
  {
    hide Occurs;
    var t := rule.Head(m, i);
    var out := t + PLACEHOLDER + rest;
    Assoc(t, PLACEHOLDER, rest);
    MarkedBehindHead(t, rest);
    forall q: nat | q < |t + PLACEHOLDER| && Occurs(out, q, w) ensures Marked(out, q + |w|) {
      if q >= |t| {
        NotInPlaceholder(out, |t|, q, w);
      } else {
        WordInHead(rule, m, i, rest, q, w);
        if q + |w| < |t| {
          PlaceholderChar(m, i + q + |w|, i + q + |w|);
          HeadNoBracket(rule, m, i, q + |w|);
        }
      }
    }
    FollowedBehind(w, t + PLACEHOLDER, rest);
  }
}
