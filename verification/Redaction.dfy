/** The string passes of the secret redactor, on ASCII text (one character is one byte). */
module Redaction {
  import opened Prelude

  const PLACEHOLDER := "[REDACTED]"

  // ---------------------------------------------------------------- characters and occurrences

  predicate IsSpace(c: char) {
    c == ' ' || '\t' <= c <= '\r'
  }

  predicate IsQuote(c: char) {
    c == '"' || c == '\''
  }

  predicate IsDelimiter(c: char) {
    IsSpace(c) || IsQuote(c) || c == ',' || c == '}'
  }

  predicate IsWord(c: char) {
    '0' <= c <= '9' || 'a' <= c <= 'z' || 'A' <= c <= 'Z' || c == '_'
  }

  /** First occurrence at or after `i`, or |m|. */
  function Find(m: string, w: string, i: nat): (r: nat)
    requires i <= |m| && w != ""
    ensures i <= r <= |m|
    ensures r < |m| ==> Occurs(m, r, w)
    decreases |m| - i
  {
    if i == |m| || Occurs(m, i, w) then i else Find(m, w, i + 1)
  }

  lemma OccursFits(m: string, i: nat, w: string)
    requires Occurs(m, i, w)
    ensures i + |w| <= |m|
  {
  }

  /** The character classes a pass runs over. */
  datatype Class = Spaces | SpacesAndQuotes | NonSpaces | NonDelimiters {
    predicate Has(c: char) {
      match this
      case Spaces => IsSpace(c)
      case SpacesAndQuotes => IsSpace(c) || IsQuote(c)
      case NonSpaces => !IsSpace(c)
      case NonDelimiters => !IsDelimiter(c)
    }
  }

  /** End of the run of characters of `cl` that starts at `i`. */
  function RunEnd(cl: Class, m: string, i: nat): (e: nat)
    requires i <= |m|
    ensures i <= e <= |m|
    decreases |m| - i
  {
    if i < |m| && cl.Has(m[i]) then RunEnd(cl, m, i + 1) else i
  }

  /** The run is the longest one. */
  lemma {:induction false} RunIsMaximal(cl: Class, m: string, i: nat)
    requires i <= |m|
    ensures forall k :: i <= k < RunEnd(cl, m, i) ==> cl.Has(m[k])
    ensures RunEnd(cl, m, i) < |m| ==> !cl.Has(m[RunEnd(cl, m, i)])
    decreases |m| - i
  {
    if i < |m| && cl.Has(m[i]) {
      RunIsMaximal(cl, m, i + 1);
    }
  }

  lemma {:induction false} RunIs(cl: Class, m: string, i: nat, e: nat)
    requires i <= e <= |m| && (forall k :: i <= k < e ==> cl.Has(m[k])) && (e < |m| ==> !cl.Has(m[e]))
    ensures RunEnd(cl, m, i) == e
    decreases |m| - i
  {
    if i < e {
      RunIs(cl, m, i + 1, e);
    }
  }

  // ---------------------------------------------------------------- what a pass means

  /** The four kinds of pass, each with the text it looks for. */
  datatype Rule =
    | Authorization
    | Url(scheme: string)
    | Token(prefix: string)
    | KeyValue(pattern: string)
  {
    function Needle(): string {
      match this
      case Authorization => "authorization:"
      case Url(scheme) => scheme
      case Token(prefix) => prefix
      case KeyValue(pattern) => pattern
    }

    /** Guarded passes ignore an occurrence that continues a word. */
    predicate Guarded() { Token? || KeyValue? }

    /** What a secret consists of. */
    function Body(): Class { if Url? then NonSpaces else NonDelimiters }

    predicate Hits(m: string, i: nat) {
      Occurs(m, i, Needle()) && !(Guarded() && i > 0 && IsWord(m[i - 1]))
    }

    /** Where the secret behind a hit starts. */
    function Kept(m: string, i: nat): (a: nat)
      requires Occurs(m, i, Needle())
      ensures i + |Needle()| <= a <= |m|
    {
      var v := i + |Needle()|;
      match this
      case Authorization =>
        var v := RunEnd(Spaces, m, v);
        if Occurs(m, v, "bearer ") then v + 7 else v
      case KeyValue(_) => RunEnd(SpacesAndQuotes, m, v)
      case _ => v
    }

    /** What the pass writes in front of the placeholder. */
    function Head(m: string, i: nat): (t: string)
      requires Occurs(m, i, Needle())
      ensures |t| == Kept(m, i) - i
    {
      match this
      case Url(scheme) => scheme
      case Authorization =>
        var v := RunEnd(Spaces, m, i + 14);
        if Occurs(m, v, "bearer ") then m[i..v] + "Bearer " else m[i..v]
      case _ => m[i..Kept(m, i)]
    }

    /** Where the secret behind a hit ends. */
    function End(m: string, i: nat): (e: nat)
      requires Occurs(m, i, Needle())
      ensures Kept(m, i) <= e <= |m|
    {
      RunEnd(Body(), m, Kept(m, i))
    }
  }

  /** The output for m[i..], character by character: a hit keeps its head and loses its secret, everything
      else is copied. */
  function Scan(rule: Rule, m: string, i: nat): string
    requires rule.Needle() != "" && i <= |m|
    decreases |m| - i
  {
    if i == |m| then ""
    else if rule.Hits(m, i) then rule.Head(m, i) + PLACEHOLDER + Scan(rule, m, rule.End(m, i))
    else [m[i]] + Scan(rule, m, i + 1)
  }

  function Redact(rule: Rule, m: string): string
    requires rule.Needle() != ""
  {
    Scan(rule, m, 0)
  }

  // ---------------------------------------------------------------- the scanning loops

  /** The loop stands at `i` with `out` written: scanning the rest completes the output. */
  ghost predicate Progress(rule: Rule, m: string, i: nat, out: string) {
    rule.Needle() != "" && i <= |m| && out + Scan(rule, m, i) == Redact(rule, m)
  }

  lemma Begin(rule: Rule, m: string)
    requires rule.Needle() != ""
    ensures Progress(rule, m, 0, "")
  {
    assert "" + Redact(rule, m) == Redact(rule, m);
  }

  lemma ScanCopy(rule: Rule, m: string, i: nat)
    requires rule.Needle() != "" && i < |m| && !rule.Hits(m, i)
    ensures Scan(rule, m, i) == [m[i]] + Scan(rule, m, i + 1)
  {
    hide Occurs;
  }

  lemma ScanHit(rule: Rule, m: string, i: nat)
    requires rule.Needle() != "" && i < |m| && rule.Hits(m, i)
    ensures Scan(rule, m, i) == rule.Head(m, i) + PLACEHOLDER + Scan(rule, m, rule.End(m, i))
  {
    hide Occurs;
  }

  /** Text in front of the next occurrence is copied. */
  lemma {:induction false} CopyTo(rule: Rule, m: string, i: nat)
    requires rule.Needle() != "" && i <= |m|
    ensures var start := Find(m, rule.Needle(), i); Scan(rule, m, i) == m[i..start] + Scan(rule, m, start)
    decreases |m| - i
  {
    hide Scan;
    hide Occurs;
    var start := Find(m, rule.Needle(), i);
    if start == i {
      assert m[i..start] == "";
    } else {
      ScanCopy(rule, m, i);
      CopyTo(rule, m, i + 1);
      Cons(m, i, start, Scan(rule, m, start));
    }
  }

  lemma Cons(m: string, i: nat, j: nat, rest: string)
    requires i < j <= |m|
    ensures [m[i]] + (m[i + 1..j] + rest) == m[i..j] + rest
  {
    assert [m[i]] + m[i + 1..j] == m[i..j];
  }

  lemma StepHit(rule: Rule, m: string, i: nat, out: string, start: nat, i': nat, out': string)
    requires Progress(rule, m, i, out) && start == Find(m, rule.Needle(), i) < |m| && rule.Hits(m, start)
    requires i' == rule.End(m, start) && out' == out + m[i..start] + rule.Head(m, start) + PLACEHOLDER
    ensures i < i' && Progress(rule, m, i', out')
  {
    hide Find;
    hide Scan;
    hide Occurs;
    CopyTo(rule, m, i);
    ScanHit(rule, m, start);
    Regroup(out, m[i..start], rule.Head(m, start), PLACEHOLDER, Scan(rule, m, i'));
  }

  lemma Regroup(a: string, b: string, c: string, d: string, e: string)
    ensures a + (b + (c + d + e)) == a + b + c + d + e
  {
  }

  lemma StepSkip(rule: Rule, m: string, i: nat, out: string, start: nat, out': string)
    requires Progress(rule, m, i, out) && start == Find(m, rule.Needle(), i) < |m| && !rule.Hits(m, start)
    requires out' == out + m[i..start + 1]
    ensures Progress(rule, m, start + 1, out')
  {
    hide Find;
    hide Occurs;
    hide Scan;
    CopyTo(rule, m, i);
    ScanCopy(rule, m, start);
    Snoc(out, m[i..start], m[start], Scan(rule, m, start + 1));
    assert m[i..start + 1] == m[i..start] + [m[start]];
  }

  lemma Snoc(a: string, b: string, c: char, d: string)
    ensures a + (b + ([c] + d)) == a + (b + [c]) + d
  {
  }

  lemma Finish(rule: Rule, m: string, i: nat, out: string)
    requires Progress(rule, m, i, out) && Find(m, rule.Needle(), i) == |m|
    ensures out + m[i..] == Redact(rule, m)
  {
    CopyTo(rule, m, i);
    assert m[i..|m|] + "" == m[i..];
  }

  method RedactAuthorizationBearer(message: string) returns (out: string)
    ensures out == Redact(Authorization, message)
  {
    var idx := 0;
    out := "";
    Begin(Authorization, message);
    hide Progress;
    hide Redact;
    hide Find;
    hide RunEnd;
    hide Occurs;
    while true
      invariant idx <= |message| && Progress(Authorization, message, idx, out)
      decreases |message| - idx
    {
      var start := Find(message, "authorization:", idx);
      if start == |message| {
        Finish(Authorization, message, idx, out);
        break;
      }
      ghost var from, done := idx, out;
      OccursFits(message, start, "authorization:");
      var after := start + 14;
      var valueStart := RunEnd(Spaces, message, after);
      out := out + message[idx..start] + message[start..after] + message[after..valueStart];
      if Occurs(message, valueStart, "bearer ") {
        OccursFits(message, valueStart, "bearer ");
        out := out + "Bearer " + PLACEHOLDER;
        var tokenStart := valueStart + 7;
        idx := RunEnd(NonDelimiters, message, tokenStart);
      } else {
        out := out + PLACEHOLDER;
        idx := RunEnd(NonDelimiters, message, valueStart);
      }
      AuthorizationWrites(message, done + message[from..start], start, valueStart, out, idx);
      StepHit(Authorization, message, from, done, start, idx, out);
    }
    out := out + message[idx..];
  }

  lemma AuthorizationWrites(m: string, done: string, start: nat, v: nat, out: string, idx: nat)
    requires Occurs(m, start, "authorization:") && v == RunEnd(Spaces, m, start + 14)
    requires var kept := done + m[start..start + 14] + m[start + 14..v];
             if Occurs(m, v, "bearer ") then
               out == kept + "Bearer " + PLACEHOLDER && idx == RunEnd(NonDelimiters, m, v + 7)
             else
               out == kept + PLACEHOLDER && idx == RunEnd(NonDelimiters, m, v)
    ensures out == done + Authorization.Head(m, start) + PLACEHOLDER && idx == Authorization.End(m, start)
  {
    hide Occurs;
    hide RunEnd;
    var after := start + 14;
    assert m[start..v] == m[start..after] + m[after..v];
    assert done + (m[start..after] + m[after..v]) == done + m[start..after] + m[after..v];
    assert done + (m[start..v] + "Bearer ") == done + m[start..v] + "Bearer ";
  }

  method RedactUrlScheme(message: string, scheme: string) returns (out: string)
    requires scheme != ""
    ensures out == Redact(Url(scheme), message)
  {
    var idx := 0;
    out := "";
    Begin(Url(scheme), message);
    hide Progress;
    hide Redact;
    hide Find;
    hide RunEnd;
    hide Occurs;
    while true
      invariant idx <= |message| && Progress(Url(scheme), message, idx, out)
      decreases |message| - idx
    {
      var start := Find(message, scheme, idx);
      if start == |message| {
        Finish(Url(scheme), message, idx, out);
        break;
      }
      ghost var from, done := idx, out;
      OccursFits(message, start, scheme);
      out := out + message[idx..start] + scheme + PLACEHOLDER;
      var after := start + |scheme|;
      idx := RunEnd(NonSpaces, message, after);
      StepHit(Url(scheme), message, from, done, start, idx, out);
    }
    out := out + message[idx..];
  }

  method RedactPrefixedToken(message: string, prefix: string) returns (out: string)
    requires prefix != ""
    ensures out == Redact(Token(prefix), message)
  {
    var idx := 0;
    out := "";
    Begin(Token(prefix), message);
    hide Progress;
    hide Redact;
    hide Find;
    hide RunEnd;
    hide Occurs;
    while true
      invariant idx <= |message| && Progress(Token(prefix), message, idx, out)
      decreases |message| - idx
    {
      var start := Find(message, prefix, idx);
      if start == |message| {
        Finish(Token(prefix), message, idx, out);
        break;
      }
      ghost var from, done := idx, out;
      if start > 0 && IsWord(message[start - 1]) {
        out := out + message[idx..start + 1];
        idx := start + 1;
        StepSkip(Token(prefix), message, from, done, start, out);
        continue;
      }
      OccursFits(message, start, prefix);
      out := out + message[idx..start] + message[start..start + |prefix|] + PLACEHOLDER;
      var valueStart := start + |prefix|;
      idx := RunEnd(NonDelimiters, message, valueStart);
      assert Token(prefix).Head(message, start) == message[start..valueStart];
      StepHit(Token(prefix), message, from, done, start, idx, out);
    }
    out := out + message[idx..];
  }

  method RedactAfterPattern(message: string, pattern: string) returns (out: string)
    requires pattern != ""
    ensures out == Redact(KeyValue(pattern), message)
  {
    var idx := 0;
    out := "";
    Begin(KeyValue(pattern), message);
    hide Progress;
    hide Redact;
    hide Find;
    hide RunEnd;
    hide Occurs;
    while true
      invariant idx <= |message| && Progress(KeyValue(pattern), message, idx, out)
      decreases |message| - idx
    {
      var start := Find(message, pattern, idx);
      if start == |message| {
        Finish(KeyValue(pattern), message, idx, out);
        break;
      }
      ghost var from, done := idx, out;
      if start > 0 && IsWord(message[start - 1]) {
        out := out + message[idx..start + 1];
        idx := start + 1;
        StepSkip(KeyValue(pattern), message, from, done, start, out);
        continue;
      }
      OccursFits(message, start, pattern);
      var valueStart := start + |pattern|;
      var tokenStart := RunEnd(SpacesAndQuotes, message, valueStart);
      out := out + message[idx..valueStart] + message[valueStart..tokenStart] + PLACEHOLDER;
      idx := RunEnd(NonDelimiters, message, tokenStart);
      assert KeyValue(pattern).Head(message, start) == message[start..tokenStart];
      assert out == done + message[from..start] + message[start..tokenStart] + PLACEHOLDER by {
        Reslice(message, done, from, start, valueStart, tokenStart);
      }
      StepHit(KeyValue(pattern), message, from, done, start, idx, out);
    }
    out := out + message[idx..];
  }

  lemma Reslice(m: string, done: string, i: nat, j: nat, k: nat, l: nat)
    requires i <= j <= k <= l <= |m|
    ensures done + m[i..k] + m[k..l] == done + m[i..j] + m[j..l]
  {
    assert m[i..k] + m[k..l] == m[i..j] + m[j..l];
    assert done + (m[i..k] + m[k..l]) == done + m[i..k] + m[k..l];
    assert done + (m[i..j] + m[j..l]) == done + m[i..j] + m[j..l];
  }
}
