/** Exactly when the output of a pass does not depend on the text behind a given beginning. */
module RedactionSecrecy {
  import opened Prelude
  import opened Redaction
  import opened RedactionProperties

  lemma {:induction false} SameRun(cl: Class, m: string, i: nat, m': string, j: nat)
    requires i <= |m| && j <= |m'| && m[i..] == m'[j..]
    ensures RunEnd(cl, m', j) - j == RunEnd(cl, m, i) - i
    ensures m[RunEnd(cl, m, i)..] == m'[RunEnd(cl, m', j)..]
    decreases |m| - i
  {
    assert |m| - i == |m[i..]| == |m'[j..]| == |m'| - j;
    if i < |m| {
      assert m[i] == m[i..][0] == m'[j..][0] == m'[j];
      assert m[i + 1..] == m[i..][1..] == m'[j..][1..] == m'[j + 1..];
      if cl.Has(m[i]) {
        SameRun(cl, m, i + 1, m', j + 1);
      }
    }
  }

  lemma SameSlices(m: string, i: nat, m': string, j: nat, n: nat)
    requires i <= |m| && j <= |m'| && m[i..] == m'[j..] && i + n <= |m|
    ensures j + n <= |m'| && m[i + n..] == m'[j + n..] && m[i..i + n] == m'[j..j + n]
    ensures n > 0 ==> m[i + n - 1] == m'[j + n - 1]
  {
    assert |m[i..]| == |m'[j..]|;
    assert m[i + n..] == m[i..][n..] && m'[j + n..] == m'[j..][n..];
    assert m[i..i + n] == m[i..][..n] && m'[j..j + n] == m'[j..][..n];
    if n > 0 {
      assert m[i + n - 1] == m[i..i + n][n - 1] && m'[j + n - 1] == m'[j..j + n][n - 1];
    }
  }

  lemma SameHits(rule: Rule, m: string, i: nat, m': string, j: nat)
    requires i <= |m| && j <= |m'| && m[i..] == m'[j..] && SameContext(rule, m, i, m', j)
    ensures |m| - i == |m'| - j && (rule.Hits(m, i) <==> rule.Hits(m', j))
  {
    hide Occurs;
    assert |m[i..]| == |m'[j..]|;
    OccursInTail(m, i, m[i..], 0, rule.Needle());
    OccursInTail(m', j, m[i..], 0, rule.Needle());
  }

  lemma SameTailCopy(rule: Rule, m: string, i: nat, m': string, j: nat)
    requires i < |m| && j < |m'| && m[i..] == m'[j..]
    ensures m[i] == m'[j] && m[i + 1..] == m'[j + 1..] && SameContext(rule, m, i + 1, m', j + 1)
  {
    hide Occurs;
    SameSlices(m, i, m', j, 1);
  }

  /** A pass reads equal tails alike. */
  lemma {:induction false} SameTail(rule: Rule, m: string, i: nat, m': string, j: nat)
    requires rule.Needle() != "" && i <= |m| && j <= |m'| && m[i..] == m'[j..]
    requires SameContext(rule, m, i, m', j)
    ensures Scan(rule, m, i) == Scan(rule, m', j)
    decreases |m| - i
  {
    hide Occurs;
    hide RunEnd;
    hide Scan;
    hide SameContext;
    SameHits(rule, m, i, m', j);
    if i == |m| {
      ScanEnd(rule, m);
      ScanEnd(rule, m');
    } else if rule.Hits(m, i) {
      SameTailHit(rule, m, i, m', j);
      ScanHit(rule, m, i);
      ScanHit(rule, m', j);
      SameTail(rule, m, rule.End(m, i), m', rule.End(m', j));
    } else {
      SameTailCopy(rule, m, i, m', j);
      ScanCopy(rule, m, i);
      ScanCopy(rule, m', j);
      SameTail(rule, m, i + 1, m', j + 1);
    }
  }

  lemma SameTailKept(rule: Rule, m: string, i: nat, m': string, j: nat)
    requires rule.Needle() != "" && i <= |m| && j <= |m'| && m[i..] == m'[j..]
    requires Occurs(m, i, rule.Needle()) && Occurs(m', j, rule.Needle())
    ensures rule.Kept(m, i) - i == rule.Kept(m', j) - j && rule.Head(m, i) == rule.Head(m', j)
  {
    hide Occurs;
    hide RunEnd;
    if rule.Authorization? {
      SameHeader(m, i, m', j);
    } else {
      var n, a := |rule.Needle()|, rule.Kept(m, i);
      SameSlices(m, i, m', j, n);
      SameRun(SpacesAndQuotes, m, i + n, m', j + n);
      SameSlices(m, i, m', j, a - i);
    }
  }

  lemma SameHeader(m: string, i: nat, m': string, j: nat)
    requires i <= |m| && j <= |m'| && m[i..] == m'[j..]
    requires Occurs(m, i, "authorization:") && Occurs(m', j, "authorization:")
    ensures Authorization.Kept(m, i) - i == Authorization.Kept(m', j) - j
    ensures Authorization.Head(m, i) == Authorization.Head(m', j)
  {
    hide Occurs;
    hide RunEnd;
    var a := Authorization.Kept(m, i);
    SameSlices(m, i, m', j, 14);
    SameRun(Spaces, m, i + 14, m', j + 14);
    var v, v' := RunEnd(Spaces, m, i + 14), RunEnd(Spaces, m', j + 14);
    SameSlices(m, i, m', j, v - i);
    OccursInTail(m, v, m[v..], 0, "bearer ");
    OccursInTail(m', v', m[v..], 0, "bearer ");
  }

  lemma SameTailHit(rule: Rule, m: string, i: nat, m': string, j: nat)
    requires rule.Needle() != "" && i <= |m| && j <= |m'| && m[i..] == m'[j..]
    requires Occurs(m, i, rule.Needle()) && Occurs(m', j, rule.Needle())
    ensures rule.Head(m, i) == rule.Head(m', j)
    ensures m[rule.End(m, i)..] == m'[rule.End(m', j)..]
    ensures SameContext(rule, m, rule.End(m, i), m', rule.End(m', j))
  {
    hide Occurs;
    hide RunEnd;
    var a, a', e := rule.Kept(m, i), rule.Kept(m', j), rule.End(m, i);
    SameTailKept(rule, m, i, m', j);
    SameSlices(m, i, m', j, a - i);
    SameRun(rule.Body(), m, a, m', a');
    SameSlices(m, i, m', j, e - i);
  }

  // ---------------------------------------------------------------- what becomes of the text behind `u`

  /** It is cut away, or copied, or that depends on whether a header goes on as a bearer header. */
  datatype Fate = Hidden | Shown | Undecided

  /** What stands behind the header at `i` is a proper beginning of "bearer ". */
  predicate Pending(rule: Rule, u: string, i: nat)
    requires Occurs(u, i, rule.Needle())
  {
    rule.Authorization? &&
    var v := RunEnd(Spaces, u, i + 14);
    |u| - v < 7 && Occurs("bearer ", 0, u[v..])
  }

  /** Read off by scanning `u` alone. */
  function FateOf(rule: Rule, u: string, i: nat): Fate
    requires rule.Needle() != "" && i <= |u|
    decreases |u| - i
  {
    if i == |u| then Shown
    else if !rule.Hits(u, i) then FateOf(rule, u, i + 1)
    else if rule.End(u, i) < |u| then FateOf(rule, u, rule.End(u, i))
    else if Pending(rule, u, i) then Undecided
    else Hidden
  }

  /** What a pass takes for one secret; a key-value pass looks for a non-empty one. */
  ghost predicate Secret(rule: Rule, s: string) {
    (forall k :: 0 <= k < |s| ==> rule.Body().Has(s[k])) && (rule.KeyValue? ==> s != "")
  }

  ghost predicate Ends(rule: Rule, after: string) {
    after != "" ==> !rule.Body().Has(after[0])
  }

  /** `m` begins with `u`. */
  ghost predicate Extends(u: string, m: string) {
    |u| <= |m| && forall k :: 0 <= k < |u| ==> m[k] == u[k]
  }

  lemma HitsSame(rule: Rule, u: string, m: string, i: nat)
    requires Extends(u, m) && rule.Needle() != "" && i + |rule.Needle()| <= |u|
    ensures rule.Hits(m, i) <==> rule.Hits(u, i)
  {
    OccursSame(u, m, i, rule.Needle());
  }

  lemma OccursSame(u: string, m: string, i: nat, w: string)
    requires Extends(u, m) && i + |w| <= |u|
    ensures Occurs(m, i, w) <==> Occurs(u, i, w)
  {
    if Occurs(u, i, w) {
      forall k | 0 <= k < |w| ensures Lower(m[i + k]) == Lower(w[k]) {
        assert m[i + k] == u[i + k];
      }
    }
    if Occurs(m, i, w) {
      forall k | 0 <= k < |w| ensures Lower(u[i + k]) == Lower(w[k]) {
        assert m[i + k] == u[i + k];
      }
    }
  }

  /** A run that stops in `u` stops there in every text that goes on. */
  lemma RunSame(cl: Class, u: string, m: string, i: nat)
    requires Extends(u, m) && i <= |u|
    ensures RunEnd(cl, u, i) < |u| ==> RunEnd(cl, m, i) == RunEnd(cl, u, i)
    ensures RunEnd(cl, u, i) == |u| ==> RunEnd(cl, m, i) == RunEnd(cl, m, |u|)
  {
    RunIsMaximal(cl, u, i);
    RunIsMaximal(cl, m, |u|);
    if RunEnd(cl, u, i) < |u| {
      RunIs(cl, m, i, RunEnd(cl, u, i));
    } else {
      RunIs(cl, m, i, RunEnd(cl, m, |u|));
    }
  }

  /** A bearer value found only with the text behind `u` was pending in `u`. */
  lemma BearerSame(u: string, m: string, v: nat)
    requires Extends(u, m) && v <= |u| && !(|u| - v < 7 && Occurs("bearer ", 0, u[v..]))
    ensures Occurs(m, v, "bearer ") <==> Occurs(u, v, "bearer ")
  {
    if v + 7 <= |u| {
      OccursSame(u, m, v, "bearer ");
    } else if v + 7 <= |m| {
      var k :| 0 <= k < |u| - v && Lower("bearer "[0 + k]) != Lower(u[v..][k]);
      assert u[v..][k] == u[v + k] == m[v + k];
    }
  }

  lemma PendingRuns(rule: Rule, u: string, i: nat)
    requires Occurs(u, i, rule.Needle()) && Pending(rule, u, i)
    ensures rule.End(u, i) == |u|
  {
    var v := RunEnd(Spaces, u, i + 14);
    forall k | v <= k < |u| ensures NonDelimiters.Has(u[k]) {
      BearerLetter(u[v..], k - v);
      assert u[v..][k - v] == u[k];
    }
    hide RunEnd;
    RunIs(NonDelimiters, u, v, |u|);
  }

  lemma BearerLetter(t: string, k: nat)
    requires k < |t| < 7 && Occurs("bearer ", 0, t)
    ensures !IsDelimiter(t[k])
  {
    assert Lower("bearer "[0 + k]) == Lower(t[k]);
  }

  /** The head of a settled hit is the same whatever follows. */
  lemma KeptSame(rule: Rule, u: string, m: string, i: nat)
    requires Extends(u, m) && Occurs(u, i, rule.Needle()) && !Pending(rule, u, i)
    requires rule.KeyValue? && rule.Kept(u, i) == |u| && |u| < |m| ==> !SpacesAndQuotes.Has(m[|u|])
    ensures Occurs(m, i, rule.Needle()) && rule.Kept(m, i) == rule.Kept(u, i) && rule.Head(m, i) == rule.Head(u, i)
  {
    OccursSame(u, m, i, rule.Needle());
    hide Occurs;
    hide RunEnd;
    var n, a := |rule.Needle()|, rule.Kept(u, i);
    match rule
    case Authorization => HeaderSame(u, m, i);
    case KeyValue(_) =>
      RunSame(SpacesAndQuotes, u, m, i + n);
      if a == |u| {
        RunIs(SpacesAndQuotes, m, |u|, |u|);
      }
      assert m[i..a] == u[i..a];
    case _ =>
      assert m[i..a] == u[i..a];
  }

  lemma HeaderSame(u: string, m: string, i: nat)
    requires Extends(u, m) && Occurs(u, i, "authorization:") && Occurs(m, i, "authorization:")
    requires !Pending(Authorization, u, i)
    ensures Authorization.Kept(m, i) == Authorization.Kept(u, i) && Authorization.Head(m, i) == Authorization.Head(u, i)
  {
    var v := RunEnd(Spaces, u, i + 14);
    RunSame(Spaces, u, m, i + 14);
    BearerSame(u, m, v);
    assert m[i..v] == u[i..v];
    hide Occurs;
    hide RunEnd;
  }

  /** A cut that ends in `u` ends there in every text that goes on. */
  lemma CutInside(rule: Rule, u: string, m: string, i: nat)
    requires Extends(u, m) && rule.Needle() != "" && rule.Hits(u, i) && rule.End(u, i) < |u|
    ensures rule.Hits(m, i) && rule.Head(m, i) == rule.Head(u, i) && rule.End(m, i) == rule.End(u, i)
  {
    HitsSame(rule, u, m, i);
    hide Occurs;
    hide RunEnd;
    if Pending(rule, u, i) {
      PendingRuns(rule, u, i);
    }
    KeptSame(rule, u, m, i);
    RunSame(rule.Body(), u, m, rule.Kept(u, i));
  }

  /** A settled cut that reaches the end of `u` takes all of the secret. */
  lemma CutSecret(rule: Rule, u: string, s: string, after: string, m: string, i: nat)
    requires rule.Needle() != "" && rule.Hits(u, i) && rule.End(u, i) == |u| && !Pending(rule, u, i)
    requires Secret(rule, s) && Ends(rule, after) && m == u + s + after
    ensures rule.Hits(m, i) && rule.Head(m, i) == rule.Head(u, i) && rule.End(m, i) == |u| + |s|
  {
    HitsSame(rule, u, m, i);
    assert rule.KeyValue? ==> m[|u|] == s[0];
    hide Occurs;
    KeptSame(rule, u, m, i);
    RunSame(rule.Body(), u, m, rule.Kept(u, i));
    var e := |u| + |s|;
    assert m[e..] == after && (e < |m| ==> m[e] == m[e..][0]);
    forall k | |u| <= k < e ensures rule.Body().Has(m[k]) {
      assert m[k] == s[k - |u|];
    }
    RunIs(rule.Body(), m, |u|, e);
  }

  // ---------------------------------------------------------------- hidden text has no influence

  /** Where a hit is still to come, the needle fits. */
  lemma {:induction false} FateRoom(rule: Rule, u: string, i: nat)
    requires rule.Needle() != "" && i <= |u| && FateOf(rule, u, i) != Shown
    ensures i + |rule.Needle()| <= |u|
    decreases |u| - i
  {
    hide Occurs;
    if !rule.Hits(u, i) {
      FateRoom(rule, u, i + 1);
    } else {
      var a := rule.Kept(u, i);
    }
  }

  /** The rest behind the secret is written alike, unless the secret decides whether a needle continues a word. */
  lemma SameRest(rule: Rule, m: string, e: nat, m': string, e': nat, after: string)
    requires e <= |m| && e' <= |m'| && m[e..] == after == m'[e'..]
    requires rule.Needle() != "" && !(rule.Guarded() && Occurs(after, 0, rule.Needle()))
    ensures Scan(rule, m, e) == Scan(rule, m', e')
  {
    hide Occurs;
    hide Scan;
    OccursInTail(m, e, after, 0, rule.Needle());
    SameTail(rule, m, e, m', e');
  }

  /** What is written for `u` and the secret. */
  function Covered(rule: Rule, u: string, i: nat): string
    requires rule.Needle() != "" && i <= |u| && FateOf(rule, u, i) == Hidden
    decreases |u| - i
  {
    if !rule.Hits(u, i) then [u[i]] + Covered(rule, u, i + 1)
    else
      var cut := rule.Head(u, i) + PLACEHOLDER;
      if rule.End(u, i) < |u| then cut + Covered(rule, u, rule.End(u, i)) else cut
  }

  /** The secret does not enter what is written for it. */
  lemma {:induction false} HiddenFrom(rule: Rule, u: string, s: string, after: string, m: string, i: nat)
    requires rule.Needle() != "" && i <= |u| && FateOf(rule, u, i) == Hidden
    requires Secret(rule, s) && Ends(rule, after) && m == u + s + after
    ensures Scan(rule, m, i) == Covered(rule, u, i) + Scan(rule, m, |u| + |s|)
    decreases |u| - i
  {
    hide Occurs;
    hide Scan;
    hide RunEnd;
    hide Secret;
    hide Ends;
    var rest := Scan(rule, m, |u| + |s|);
    FateRoom(rule, u, i);
    HitsSame(rule, u, m, i);
    if rule.Hits(u, i) {
      ScanHit(rule, m, i);
      var cut := rule.Head(u, i) + PLACEHOLDER;
      if rule.End(u, i) < |u| {
        CutInside(rule, u, m, i);
        HiddenFrom(rule, u, s, after, m, rule.End(u, i));
        Assoc(cut, Covered(rule, u, rule.End(u, i)), rest);
      } else {
        CutSecret(rule, u, s, after, m, i);
      }
    } else {
      ScanCopy(rule, m, i);
      HiddenFrom(rule, u, s, after, m, i + 1);
      Assoc([u[i]], Covered(rule, u, i + 1), rest);
    }
  }

  lemma HiddenSame(rule: Rule, u: string, s: string, s': string, after: string)
    requires rule.Needle() != "" && FateOf(rule, u, 0) == Hidden
    requires Secret(rule, s) && Secret(rule, s') && Ends(rule, after)
    requires !(rule.Guarded() && Occurs(after, 0, rule.Needle()))
    ensures Redact(rule, u + s + after) == Redact(rule, u + s' + after)
  {
    hide Scan;
    hide Occurs;
    hide FateOf;
    var m, m' := u + s + after, u + s' + after;
    HiddenFrom(rule, u, s, after, m, 0);
    HiddenFrom(rule, u, s', after, m', 0);
    TailIs(u, s, after);
    TailIs(u, s', after);
    SameRest(rule, m, |u| + |s|, m', |u| + |s'|, after);
  }

  lemma TailIs(u: string, s: string, after: string)
    ensures (u + s + after)[|u| + |s|..] == after
  {
  }

  // ---------------------------------------------------------------- text that is not hidden shows

  /** A character that cannot complete the needle is copied. */
  lemma {:induction false} ShownFrom(rule: Rule, u: string, c: char, i: nat)
    requires rule.Needle() != "" && i <= |u| && FateOf(rule, u, i) == Shown
    requires Lower(c) != Lower(rule.Needle()[|rule.Needle()| - 1])
    ensures Scan(rule, u + [c], i) == Scan(rule, u, i) + [c]
    decreases |u| - i
  {
    var m := u + [c];
    NotCompleted(rule, u, c, i);
    hide Occurs;
    hide Scan;
    hide RunEnd;
    if i == |u| {
      ScanEnd(rule, u);
      ScanCopy(rule, m, i);
      ScanEnd(rule, m);
    } else if rule.Hits(u, i) {
      CutInside(rule, u, m, i);
      ShownFrom(rule, u, c, rule.End(u, i));
      ScanHit(rule, u, i);
      ScanHit(rule, m, i);
    } else {
      ShownFrom(rule, u, c, i + 1);
      ScanCopy(rule, u, i);
      ScanCopy(rule, m, i);
    }
  }

  lemma NotCompleted(rule: Rule, u: string, c: char, i: nat)
    requires rule.Needle() != "" && i <= |u| && Lower(c) != Lower(rule.Needle()[|rule.Needle()| - 1])
    ensures rule.Hits(u + [c], i) <==> rule.Hits(u, i)
  {
    var m, n := u + [c], |rule.Needle()|;
    if i + n <= |u| {
      HitsSame(rule, u, m, i);
    } else if i + n == |m| {
      assert m[i + (n - 1)] == c;
    }
  }

  /** The pass prints what follows a text whose fate is to be shown. */
  lemma ShownIsPrinted(rule: Rule, u: string, c: char)
    requires rule.Needle() != "" && FateOf(rule, u, 0) == Shown
    requires Lower(c) != Lower(rule.Needle()[|rule.Needle()| - 1])
    ensures Redact(rule, u + [c]) == Redact(rule, u) + [c]
  {
    ShownFrom(rule, u, c, 0);
  }

  lemma LetterFor(rule: Rule) returns (c: char, d: char)
    requires rule.Needle() != ""
    ensures c in "abc" && d in "abc" && c != d
    ensures Lower(c) != Lower(rule.Needle()[|rule.Needle()| - 1])
            && Lower(d) != Lower(rule.Needle()[|rule.Needle()| - 1])
  {
    var last := Lower(rule.Needle()[|rule.Needle()| - 1]);
    c, d := if last == 'a' then 'b' else 'a', if last == 'c' then 'b' else 'c';
    assert Lower(c) == c && Lower(d) == d;
    assert c in "abc" && d in "abc" && c != d;
  }

  lemma LettersAreSecrets(rule: Rule, c: char)
    requires c in "abc"
    ensures Secret(rule, [c])
  {
  }

  /** Two secrets behind a text whose fate is to be shown are told apart. */
  lemma ShownTells(rule: Rule, u: string) returns (s: string, s': string)
    requires rule.Needle() != "" && FateOf(rule, u, 0) == Shown
    ensures Secret(rule, s) && Secret(rule, s')
    ensures Redact(rule, u + s + "") != Redact(rule, u + s' + "")
  {
    var c, d := LetterFor(rule);
    s, s' := [c], [d];
    LettersAreSecrets(rule, c);
    LettersAreSecrets(rule, d);
    ShownIsPrinted(rule, u, c);
    ShownIsPrinted(rule, u, d);
    assert u + s + "" == u + [c] && u + s' + "" == u + [d];
    hide Redact;
    var t := Redact(rule, u);
    assert (t + [c])[|t|] == c && (t + [d])[|t|] == d;
  }

  // ---------------------------------------------------------------- a header left open

  /** Where the open header starts. */
  function PendingAt(u: string, i: nat): (j: nat)
    requires i <= |u| && FateOf(Authorization, u, i) == Undecided
    ensures j < |u| && Occurs(u, j, "authorization:") && Pending(Authorization, u, j)
    decreases |u| - i
  {
    if !Authorization.Hits(u, i) then PendingAt(u, i + 1)
    else if Authorization.End(u, i) < |u| then PendingAt(u, Authorization.End(u, i))
    else i
  }

  ghost predicate EndsIn(t: string, c: char) {
    t != "" && t[|t| - 1] == c
  }

  lemma EndsBehind(x: string, t: string, c: char)
    requires EndsIn(t, c)
    ensures EndsIn(x + t, c)
  {
  }

  lemma {:induction false} LastFrom(u: string, m: string, i: nat, c: char)
    requires i <= |u| && FateOf(Authorization, u, i) == Undecided && Extends(u, m)
    requires EndsIn(Scan(Authorization, m, PendingAt(u, i)), c)
    ensures EndsIn(Scan(Authorization, m, i), c)
    decreases |u| - i
  {
    hide Occurs;
    hide Scan;
    hide RunEnd;
    hide EndsIn;
    hide Pending;
    FateRoom(Authorization, u, i);
    HitsSame(Authorization, u, m, i);
    if !Authorization.Hits(u, i) {
      LastFrom(u, m, i + 1, c);
      ScanCopy(Authorization, m, i);
      EndsBehind([m[i]], Scan(Authorization, m, i + 1), c);
    } else if Authorization.End(u, i) < |u| {
      var e := Authorization.End(u, i);
      LastFrom(u, m, e, c);
      CutInside(Authorization, u, m, i);
      ScanHit(Authorization, m, i);
      EndsBehind(Authorization.Head(m, i) + PLACEHOLDER, Scan(Authorization, m, e), c);
    }
  }

  lemma HeaderScan(m: string, j: nat, v: nat, e: nat)
    requires Occurs(m, j, "authorization:") && v == RunEnd(Spaces, m, j + 14)
    requires e == RunEnd(NonDelimiters, m, if Occurs(m, v, "bearer ") then v + 7 else v)
    ensures Scan(Authorization, m, j) == Authorization.Head(m, j) + PLACEHOLDER + Scan(Authorization, m, e)
  {
    hide Occurs;
    hide RunEnd;
    hide Scan;
    assert j < |m| by { var a := Authorization.Kept(m, j); }
    ScanHit(Authorization, m, j);
  }

  /** Completed to a bearer header, the pass goes on to redact a word behind it. */
  lemma OpenBearer(u: string, j: nat, v: nat, s: string)
    requires Occurs(u, j, "authorization:") && v == RunEnd(Spaces, u, j + 14) && |u| - v < 7
    requires Occurs("bearer ", 0, u[v..]) && s == "bearer"[|u| - v..]
    ensures EndsIn(Scan(Authorization, u + s + " y", j), ']')
  {
    var m := u + s + " y";
    OccursSame(u, m, j, "authorization:");
    BearerCompleted(u, v, s);
    BearerFirst(m, v);
    RunIsMaximal(Spaces, u, j + 14);
    hide Occurs;
    RunIs(Spaces, m, j + 14, v);
    RunIs(NonDelimiters, m, v + 7, v + 8);
    hide RunEnd;
    HeaderScan(m, j, v, v + 8);
    ScanEnd(Authorization, m);
    hide Scan;
    PlaceholderLast(Authorization.Head(m, j));
  }

  lemma PlaceholderLast(x: string)
    ensures EndsIn(x + PLACEHOLDER + "", ']')
  {
    assert (x + PLACEHOLDER + "")[|x| + 9] == PLACEHOLDER[9];
  }

  lemma BearerFirst(m: string, v: nat)
    requires Occurs(m, v, "bearer ")
    ensures m[v] == 'b' || m[v] == 'B'
  {
    OccursNext(m, v, "bearer ");
  }

  lemma BearerCompleted(u: string, v: nat, s: string)
    requires v <= |u| && |u| - v < 7 && Occurs("bearer ", 0, u[v..]) && s == "bearer"[|u| - v..]
    ensures var m := u + s + " y"; |m| == v + 8 && Occurs(m, v, "bearer ") && m[v + 7] == 'y'
  {
    var m, n := u + s + " y", |u| - v;
    forall k | 0 <= k < 7 ensures Lower(m[v + k]) == Lower("bearer "[k]) {
      if k < n {
        assert Lower("bearer "[0 + k]) == Lower(u[v..][k]);
        assert m[v + k] == u[v..][k];
      } else if k < 6 {
        assert m[v + k] == s[k - n] == "bearer"[k];
      }
    }
  }

  /** Completed to another value, it keeps that word. */
  lemma OpenOther(u: string, j: nat, v: nat)
    requires Occurs(u, j, "authorization:") && v == RunEnd(Spaces, u, j + 14) && |u| - v < 7
    requires Occurs("bearer ", 0, u[v..])
    ensures EndsIn(Scan(Authorization, u + "x" + " y", j), 'y')
  {
    var m, e := u + "x" + " y", |u| + 1;
    OccursSame(u, m, j, "authorization:");
    RunIsMaximal(Spaces, u, j + 14);
    PendingRun(u, v);
    hide Occurs;
    OtherRuns(u, m, j + 14, v);
    hide RunEnd;
    NoBearerX(m, v, |u|);
    HeaderScan(m, j, v, e);
    ShortTail(Authorization, m, e);
    hide Scan;
    assert m[e..] == " y";
    EndsBehind(Authorization.Head(m, j) + PLACEHOLDER, m[e..], 'y');
  }

  lemma OtherRuns(u: string, m: string, b: nat, v: nat)
    requires b <= v <= |u| && m == u + "x" + " y" && (forall k :: b <= k < v ==> IsSpace(u[k]))
    requires forall k :: v <= k < |u| ==> !IsDelimiter(u[k])
    ensures RunEnd(Spaces, m, b) == v && RunEnd(NonDelimiters, m, v) == |u| + 1
  {
    RunIs(Spaces, m, b, v);
    RunIs(NonDelimiters, m, v, |u| + 1);
  }

  lemma PendingRun(u: string, v: nat)
    requires v <= |u| && |u| - v < 7 && Occurs("bearer ", 0, u[v..])
    ensures forall k :: v <= k < |u| ==> !IsDelimiter(u[k])
  {
    forall k | v <= k < |u| ensures !IsDelimiter(u[k]) {
      BearerLetter(u[v..], k - v);
      assert u[v..][k - v] == u[k];
    }
  }

  lemma NoBearerX(m: string, v: nat, k: nat)
    requires v <= k < |m| && k - v < 7 && m[k] == 'x'
    ensures !Occurs(m, v, "bearer ")
  {
    assert Lower(m[v + (k - v)]) != Lower("bearer "[k - v]);
  }

  lemma OpenEnds(u: string, j: nat, v: nat, s: string)
    requires FateOf(Authorization, u, 0) == Undecided && j == PendingAt(u, 0) && v == RunEnd(Spaces, u, j + 14)
    requires |u| - v < 7 ==> s == "bearer"[|u| - v..]
    ensures |u| - v < 7
    ensures EndsIn(Redact(Authorization, u + s + " y"), ']') && EndsIn(Redact(Authorization, u + "x" + " y"), 'y')
  {
    assert Occurs(u, j, "authorization:") && Pending(Authorization, u, j);
    hide *;
    PendingValue(u, j, v);
    OpenBearer(u, j, v, s);
    OpenOther(u, j, v);
    ExtendsSum(u, s, " y");
    ExtendsSum(u, "x", " y");
    EndsAtFront(u, u + s + " y", ']');
    EndsAtFront(u, u + "x" + " y", 'y');
  }

  lemma ExtendsSum(u: string, s: string, t: string)
    ensures Extends(u, u + s + t)
  {
  }

  lemma PendingValue(u: string, j: nat, v: nat)
    requires Occurs(u, j, "authorization:") && Pending(Authorization, u, j) && v == RunEnd(Spaces, u, j + 14)
    ensures |u| - v < 7 && Occurs("bearer ", 0, u[v..])
  {
  }

  lemma EndsAtFront(u: string, m: string, c: char)
    requires FateOf(Authorization, u, 0) == Undecided && Extends(u, m)
    requires EndsIn(Scan(Authorization, m, PendingAt(u, 0)), c)
    ensures EndsIn(Redact(Authorization, m), c)
  {
    hide Scan;
    hide EndsIn;
    hide FateOf;
    hide PendingAt;
    LastFrom(u, m, 0, c);
  }

  lemma OpenSecrets(n: nat)
    requires n < 7
    ensures Secret(Authorization, "bearer"[n..]) && Secret(Authorization, "x") && Ends(Authorization, " y")
  {
  }

  /** Two continuations of an open header are told apart. */
  lemma UndecidedTells(u: string) returns (s: string, s': string, after: string)
    requires FateOf(Authorization, u, 0) == Undecided
    ensures Secret(Authorization, s) && Secret(Authorization, s') && Ends(Authorization, after)
    ensures Redact(Authorization, u + s + after) != Redact(Authorization, u + s' + after)
  {
    var j := PendingAt(u, 0);
    var v := RunEnd(Spaces, u, j + 14);
    PendingValue(u, j, v);
    hide RunEnd;
    hide Redact;
    hide FateOf;
    hide PendingAt;
    hide Secret;
    s, s', after := "bearer"[|u| - v..], "x", " y";
    OpenEnds(u, j, v, s);
    OpenSecrets(|u| - v);
  }

  // ---------------------------------------------------------------- exactly when

  /** All secrets behind `u` give the same output, as long as the text behind them does not begin with the needle
      of a guarded pass. */
  ghost predicate HidesAll(rule: Rule, u: string)
    requires rule.Needle() != ""
  {
    forall s, s', after :: Secret(rule, s) && Secret(rule, s') && Ends(rule, after)
      && !(rule.Guarded() && Occurs(after, 0, rule.Needle()))
      ==> Redact(rule, u + s + after) == Redact(rule, u + s' + after)
  }

  /** All secrets behind `u` give the same output, whatever follows them. */
  ghost predicate HidesInEveryText(rule: Rule, u: string)
    requires rule.Needle() != ""
  {
    forall s, s', after :: Secret(rule, s) && Secret(rule, s') && Ends(rule, after)
      ==> Redact(rule, u + s + after) == Redact(rule, u + s' + after)
  }

  /** For every pass and every text, all secrets behind it are hidden exactly when that is its fate. */
  lemma HiddenIff(rule: Rule, u: string)
    requires rule.Needle() != ""
    ensures HidesAll(rule, u) <==> FateOf(rule, u, 0) == Hidden
  {
    hide Redact;
    hide Secret;
    hide Occurs;
    match FateOf(rule, u, 0)
    case Hidden =>
      forall s, s', after | Secret(rule, s) && Secret(rule, s') && Ends(rule, after)
                            && !(rule.Guarded() && Occurs(after, 0, rule.Needle()))
        ensures Redact(rule, u + s + after) == Redact(rule, u + s' + after)
      {
        HiddenSame(rule, u, s, s', after);
      }
    case Shown =>
      var s, s' := ShownTells(rule, u);
      NotInNothing(rule.Needle());
    case Undecided =>
      OnlyHeadersPend(rule, u, 0);
      var s, s', after := UndecidedTells(u);
  }

  lemma NotInNothing(w: string)
    requires w != ""
    ensures !Occurs("", 0, w)
  {
  }

  lemma {:induction false} OnlyHeadersPend(rule: Rule, u: string, i: nat)
    requires rule.Needle() != "" && i <= |u| && FateOf(rule, u, i) == Undecided
    ensures rule == Authorization
    decreases |u| - i
  {
    hide Occurs;
    if !rule.Hits(u, i) {
      OnlyHeadersPend(rule, u, i + 1);
    } else if rule.End(u, i) < |u| {
      OnlyHeadersPend(rule, u, rule.End(u, i));
    }
  }

  // ---------------------------------------------------------------- a needle right behind the secret

  lemma NotShifted(m: string, e: nat, w: string, d: char)
    requires w != "" && e <= |m| && m[e..] == w + [d] && Lower(d) != Lower(w[|w| - 1])
    ensures |m| == e + |w| + 1 && !Occurs(m, e + 1, w)
  {
    var n := |w|;
    assert m[e + n] == m[e..][n] == d;
    assert Lower(m[e + 1 + (n - 1)]) != Lower(w[n - 1]);
  }

  /** Behind a word character a guarded needle is copied; behind another one it is a hit. */
  lemma GuardCopies(rule: Rule, m: string, e: nat, d: char)
    requires rule.Guarded() && rule.Needle() != "" && 1 <= e <= |m| && IsWord(m[e - 1])
    requires m[e..] == rule.Needle() + [d] && Lower(d) != Lower(rule.Needle()[|rule.Needle()| - 1])
    ensures Scan(rule, m, e) == m[e..]
  {
    hide Occurs;
    hide Scan;
    NotShifted(m, e, rule.Needle(), d);
    ShortTail(rule, m, e + 2);
    ScanCopy(rule, m, e);
    ScanCopy(rule, m, e + 1);
    assert m[e..] == [m[e]] + m[e + 1..] && m[e + 1..] == [m[e + 1]] + m[e + 2..];
  }

  lemma GuardHits(rule: Rule, m: string, e: nat, d: char)
    requires rule.Guarded() && rule.Needle() != "" && 1 <= e <= |m| && !IsWord(m[e - 1])
    requires m[e..] == rule.Needle() + [d] && !IsDelimiter(d)
    ensures |Scan(rule, m, e)| >= |m[e..]| + 9
  {
    var n := |rule.Needle()|;
    OccursSelf(rule.Needle(), [d]);
    OccursInTail(m, e, m[e..], 0, rule.Needle());
    assert |m| == e + n + 1;
    hide Occurs;
    hide Scan;
    hide RunEnd;
    ScanHit(rule, m, e);
  }

  lemma WordTells(rule: Rule, u: string, s: string, after: string, m: string, d: char)
    requires rule.Needle() != "" && FateOf(rule, u, 0) == Hidden && rule.Guarded() && Ends(rule, after)
    requires s == "a" || s == "!"
    requires after == rule.Needle() + [d] && d in "abc" && Lower(d) != Lower(rule.Needle()[|rule.Needle()| - 1])
    requires m == u + s + after
    ensures Secret(rule, s)
    ensures var short := |Redact(rule, m)| == |Covered(rule, u, 0)| + |after|; if s == "a" then short else !short
  {
    hide Scan;
    hide FateOf;
    hide Covered;
    hide Occurs;
    HiddenFrom(rule, u, s, after, m, 0);
    TailIs(u, s, after);
    assert m[|u|] == s[0];
    if s == "a" {
      GuardCopies(rule, m, |u| + 1, d);
    } else {
      GuardHits(rule, m, |u| + 1, d);
    }
  }

  lemma WordDecides(rule: Rule, u: string) returns (s: string, s': string, after: string)
    requires rule.Needle() != "" && FateOf(rule, u, 0) == Hidden && !CleanStart(rule) && rule.Guarded()
    ensures Secret(rule, s) && Secret(rule, s') && Ends(rule, after)
    ensures Redact(rule, u + s + after) != Redact(rule, u + s' + after)
  {
    var c, d := LetterFor(rule);
    s, s', after := "a", "!", rule.Needle() + [d];
    assert Ends(rule, after);
    hide *;
    WordTells(rule, u, s, after, u + s + after, d);
    WordTells(rule, u, s', after, u + s' + after, d);
  }

  /** Whatever stands behind the secret, all secrets are hidden exactly when that is the fate and the needle of a
      guarded pass does not begin with a delimiter. */
  lemma HiddenInEveryTextIff(rule: Rule, u: string)
    requires rule.Needle() != ""
    ensures HidesInEveryText(rule, u) <==> FateOf(rule, u, 0) == Hidden && CleanStart(rule)
  {
    if FateOf(rule, u, 0) == Hidden && CleanStart(rule) {
      forall s, s', after | Secret(rule, s) && Secret(rule, s') && Ends(rule, after)
        ensures Redact(rule, u + s + after) == Redact(rule, u + s' + after)
      {
        NotAtEnd(rule, after);
        hide *;
        HiddenSame(rule, u, s, s', after);
      }
    } else if FateOf(rule, u, 0) == Hidden {
      HeaderIsClean(rule);
      var s, s', after := WordDecides(rule, u);
    } else {
      HiddenIff(rule, u);
    }
  }

  lemma HeaderIsClean(rule: Rule)
    requires rule.Needle() != "" && !CleanStart(rule)
    ensures rule.Guarded()
  {
  }

  lemma NotAtEnd(rule: Rule, after: string)
    requires rule.Needle() != "" && CleanStart(rule) && Ends(rule, after)
    ensures !(rule.Guarded() && Occurs(after, 0, rule.Needle()))
  {
    OccursNext(after, 0, rule.Needle());
  }
}
