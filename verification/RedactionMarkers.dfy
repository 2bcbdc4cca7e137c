/** Which secrets behind a marker a pass hides: those the scan comes to, or that an earlier cut swallows. */
module RedactionMarkers {
  import opened Prelude
  import opened Redaction
  import opened RedactionProperties
  import opened RedactionSecrecy

  // ---------------------------------------------------------------- markers

  /** A scheme or prefix, a key pattern with the quotes and space behind it, or an authorization header up to its
      bearer token; in any case. */
  ghost predicate Opens(rule: Rule, marker: string) {
    var n := |rule.Needle()|;
    && 1 <= n <= |marker| && Occurs(marker, 0, rule.Needle())
    && match rule
       case KeyValue(pattern) =>
         |marker| > n ==>
           && !SpacesAndQuotes.Has(pattern[n - 1])
           && forall k :: n <= k < |marker| ==> SpacesAndQuotes.Has(marker[k])
       case Authorization =>
         && |marker| >= 21 && Occurs(marker, |marker| - 7, "bearer ")
         && forall k :: 14 <= k < |marker| - 7 ==> IsSpace(marker[k])
       case _ => |marker| == n
  }

  /** `u` ends in the marker, at `h`. */
  ghost predicate OpensAt(rule: Rule, u: string, h: nat, marker: string) {
    Opens(rule, marker) && h <= |u| && u[h..] == marker
  }

  /** The marker does not continue a word, if that matters. */
  ghost predicate Marks(rule: Rule, u: string, h: nat, marker: string) {
    OpensAt(rule, u, h, marker) && (rule.Guarded() && h > 0 ==> !IsWord(u[h - 1]))
  }

  /** Where the scan of `u` from `i` arrives first at or behind `h`. */
  function Lands(rule: Rule, u: string, h: nat, i: nat): nat
    requires rule.Needle() != "" && i <= |u| && h <= |u|
    decreases |u| - i
  {
    if i >= h then i
    else if rule.Hits(u, i) then Lands(rule, u, h, rule.End(u, i))
    else Lands(rule, u, h, i + 1)
  }

  lemma RunBehind(cl: Class, u: string, h: nat, t: string, a: nat, e: nat)
    requires h <= |u| && u[h..] == t
    requires a <= e <= |t| && (forall k :: a <= k < e ==> cl.Has(t[k])) && (e < |t| ==> !cl.Has(t[e]))
    ensures RunEnd(cl, u, h + a) == h + e
  {
    assert forall k :: 0 <= k < |t| ==> t[k] == u[h + k];
    forall k | h + a <= k < h + e ensures cl.Has(u[k]) {
      assert u[k] == t[k - h];
    }
    RunIs(cl, u, h + a, h + e);
  }

  lemma HeaderOpens(u: string, h: nat, marker: string)
    requires OpensAt(Authorization, u, h, marker)
    ensures Occurs(u, h, "authorization:") && Occurs(u, |u| - 7, "bearer ")
    ensures RunEnd(Spaces, u, h + 14) == |u| - 7
  {
    OccursInTail(u, h, marker, 0, "authorization:");
    OccursInTail(u, h, marker, |marker| - 7, "bearer ");
    BearerFirst(marker, |marker| - 7);
    hide Occurs;
    hide RunEnd;
    RunBehind(Spaces, u, h, marker, 14, |marker| - 7);
  }

  lemma KeyOpens(rule: Rule, u: string, h: nat, marker: string)
    requires rule.KeyValue? && OpensAt(rule, u, h, marker)
    ensures RunEnd(SpacesAndQuotes, u, h + |rule.Needle()|) == |u|
  {
    hide Occurs;
    hide RunEnd;
    RunBehind(SpacesAndQuotes, u, h, marker, |rule.Needle()|, |marker|);
  }

  /** At the marker, the secret starts behind it. */
  lemma MarkerKept(rule: Rule, u: string, h: nat, marker: string)
    requires OpensAt(rule, u, h, marker)
    ensures h < |u| && Occurs(u, h, rule.Needle()) && rule.Kept(u, h) == |u| && !Pending(rule, u, h)
  {
    OccursInTail(u, h, marker, 0, rule.Needle());
    match rule
    case Authorization => HeaderOpens(u, h, marker);
    case KeyValue(_) => KeyOpens(rule, u, h, marker);
    case _ =>
  }

  /** The fate of what follows is to be hidden. */
  lemma MarkerHides(rule: Rule, u: string, h: nat, marker: string)
    requires Marks(rule, u, h, marker)
    ensures rule.Hits(u, h) && FateOf(rule, u, h) == Hidden
  {
    MarkerKept(rule, u, h, marker);
    RunIs(rule.Body(), u, |u|, |u|);
    hide Occurs;
    hide RunEnd;
    hide OpensAt;
    hide Pending;
  }

  // ---------------------------------------------------------------- behind the marker's start

  lemma NotInQuotes(u: string, i: nat, w: string, k: nat, cl: Class)
    requires w != "" && k == i + |w| - 1 && k < |u| && cl.SpacesAndQuotes? && cl.Has(u[k]) && !cl.Has(w[|w| - 1])
    ensures !Occurs(u, i, w)
  {
    assert Lower(u[i + (|w| - 1)]) != Lower(w[|w| - 1]);
  }

  /** A header does not begin inside another one. */
  lemma NotInHeader(u: string, h: nat, d: nat)
    requires Occurs(u, h, "authorization:") && 1 <= d < 13
    ensures !Occurs(u, h + d, "authorization:")
  {
    OccursChar(u, h, "authorization:", d);
    OccursChar(u, h, "authorization:", d + 1);
    OccursNext(u, h + d, "authorization:");
    OccursNext(u, h + d + 1, "uthorization:");
    assert "authorization:"[1..] == "uthorization:";
  }

  lemma NotInBearer(u: string, v: nat, d: nat)
    requires Occurs(u, v, "bearer ") && d < 7
    ensures !Occurs(u, v + d, "authorization:")
  {
    OccursChar(u, v, "bearer ", d);
    OccursNext(u, v + d, "authorization:");
    if d == 2 {
      OccursChar(u, v, "bearer ", 3);
      OccursNext(u, v + 3, "uthorization:");
      assert "authorization:"[1..] == "uthorization:";
    }
  }

  lemma NoHeaderBehind(u: string, h: nat, marker: string, i: nat)
    requires OpensAt(Authorization, u, h, marker) && h < i
    ensures !Occurs(u, i, "authorization:")
  {
    HeaderOpens(u, h, marker);
    if i < h + 13 {
      NotInHeader(u, h, i - h);
    } else if i == h + 13 {
      OccursChar(u, h, "authorization:", 13);
      OccursNext(u, i, "authorization:");
    } else if i < |u| - 7 {
      assert u[i] == u[h..][i - h];
      OccursNext(u, i, "authorization:");
    } else if i < |u| {
      NotInBearer(u, |u| - 7, i - (|u| - 7));
    }
  }

  lemma NoneBehind(rule: Rule, u: string, h: nat, marker: string, i: nat)
    requires OpensAt(rule, u, h, marker) && h < i
    ensures !Occurs(u, i, rule.Needle())
  {
    var n := |rule.Needle()|;
    if rule.Authorization? {
      NoHeaderBehind(u, h, marker, i);
    } else if i + n <= |u| {
      var k := i + n - 1;
      assert u[k] == u[h..][k - h];
      NotInQuotes(u, i, rule.Needle(), k, SpacesAndQuotes);
    }
  }

  lemma {:induction false} BehindShown(rule: Rule, u: string, h: nat, marker: string, p: nat)
    requires OpensAt(rule, u, h, marker) && h < p <= |u|
    ensures FateOf(rule, u, p) == Shown
    decreases |u| - p
  {
    if p < |u| {
      NoneBehind(rule, u, h, marker, p);
      hide Occurs;
      BehindShown(rule, u, h, marker, p + 1);
    }
  }

  /** A hit in front of the marker is not left open. */
  lemma EarlierIsSettled(rule: Rule, u: string, h: nat, marker: string, i: nat)
    requires OpensAt(rule, u, h, marker) && i < h && Occurs(u, i, rule.Needle())
    ensures !Pending(rule, u, i)
  {
    if rule.Authorization? {
      var v := RunEnd(Spaces, u, i + 14);
      HeaderOpens(u, h, marker);
      RunIsMaximal(Spaces, u, i + 14);
      if v > |u| - 7 {
        var k := if i + 14 <= h then h else i + 14;
        OccursChar(u, h, "authorization:", k - h);
        HeaderNotSpace(u, h, k - h);
      }
    }
  }

  lemma HeaderNotSpace(u: string, h: nat, d: nat)
    requires Occurs(u, h, "authorization:") && d < 14
    ensures !IsSpace(u[h + d])
  {
    OccursChar(u, h, "authorization:", d);
  }

  /** The secret is hidden exactly when the scan comes to the marker, or a cut from in front of it runs through it. */
  lemma {:induction false} LandsIff(rule: Rule, u: string, h: nat, marker: string, i: nat)
    requires Marks(rule, u, h, marker) && i <= h
    ensures FateOf(rule, u, i) == Hidden <==> Lands(rule, u, h, i) in {h, |u|}
    decreases h - i
  {
    hide Occurs;
    hide RunEnd;
    if i == h {
      MarkerHides(rule, u, h, marker);
    } else if !rule.Hits(u, i) {
      LandsIff(rule, u, h, marker, i + 1);
    } else {
      var e := rule.End(u, i);
      EarlierIsSettled(rule, u, h, marker, i);
      if e <= h {
        LandsIff(rule, u, h, marker, e);
      } else if e < |u| {
        BehindShown(rule, u, h, marker, e);
      }
    }
  }

  // ---------------------------------------------------------------- exactly which secrets are hidden

  /** For every marker of every pass: all secrets behind it are hidden exactly when no earlier cut ends inside the
      marker, that is, when the scan comes to the marker or a cut runs through it. */
  lemma SecretHiddenIff(rule: Rule, before: string, marker: string)
    requires Marks(rule, before + marker, |before|, marker)
    ensures rule.Needle() != ""
    ensures HidesAll(rule, before + marker)
            <==> Lands(rule, before + marker, |before|, 0) in {|before|, |before + marker|}
  {
    var u := before + marker;
    hide *;
    MarkerNeedle(rule, u, |before|, marker);
    LandsIff(rule, u, |before|, marker, 0);
    HiddenIff(rule, u);
  }

  lemma MarkerNeedle(rule: Rule, u: string, h: nat, marker: string)
    requires Marks(rule, u, h, marker)
    ensures rule.Needle() != ""
  {
  }

  /** Whatever follows the secret: the needle of a guarded pass must not begin with a delimiter, either. */
  lemma SecretHiddenInEveryTextIff(rule: Rule, before: string, marker: string)
    requires Marks(rule, before + marker, |before|, marker)
    ensures rule.Needle() != ""
    ensures HidesInEveryText(rule, before + marker)
            <==> Lands(rule, before + marker, |before|, 0) in {|before|, |before + marker|} && CleanStart(rule)
  {
    var u := before + marker;
    hide *;
    MarkerNeedle(rule, u, |before|, marker);
    LandsIff(rule, u, |before|, marker, 0);
    HiddenInEveryTextIff(rule, u);
  }

  // ---------------------------------------------------------------- markers that are always come to

  /** A needle no part of which can end a secret. */
  ghost predicate Solid(rule: Rule) {
    rule.Needle() != "" && forall k :: 0 <= k < |rule.Needle()| ==> rule.Body().Has(rule.Needle()[k])
  }

  /** Case never makes or breaks a delimiter. */
  lemma SolidText(rule: Rule, m: string, h: nat, k: nat)
    requires Solid(rule) && Occurs(m, h, rule.Needle()) && h <= k < h + |rule.Needle()|
    ensures rule.Body().Has(m[k])
  {
    OccursChar(m, h, rule.Needle(), k - h);
    assert rule.Body().Has(rule.Needle()[k - h]);
  }

  lemma SolidCut(rule: Rule, u: string, h: nat, i: nat)
    requires Solid(rule) && !rule.Authorization? && Occurs(u, h, rule.Needle()) && |u| == h + |rule.Needle()|
    requires i < h && Occurs(u, i, rule.Needle())
    ensures rule.End(u, i) < h || rule.End(u, i) == |u|
  {
    forall k | h <= k < |u| ensures rule.Body().Has(u[k]) {
      SolidText(rule, u, h, k);
    }
    hide Occurs;
    hide RunEnd;
    RunIsMaximal(rule.Body(), u, rule.Kept(u, i));
  }

  lemma {:induction false} SolidLands(rule: Rule, u: string, h: nat, i: nat)
    requires Solid(rule) && !rule.Authorization? && Occurs(u, h, rule.Needle()) && |u| == h + |rule.Needle()| && i <= h
    ensures Lands(rule, u, h, i) in {h, |u|}
    decreases h - i
  {
    hide Occurs;
    hide RunEnd;
    if i < h {
      if rule.Hits(u, i) {
        SolidCut(rule, u, h, i);
        if rule.End(u, i) < h {
          SolidLands(rule, u, h, rule.End(u, i));
        }
      } else {
        SolidLands(rule, u, h, i + 1);
      }
    }
  }

  /** Behind a scheme, prefix or key pattern without delimiters every secret is hidden, whatever stands around it. */
  lemma HidesSecret(rule: Rule, before: string, marker: string, secret: string, secret': string, after: string)
    requires Solid(rule) && !rule.Authorization? && |marker| == |rule.Needle()|
    requires Marks(rule, before + marker, |before|, marker)
    requires Secret(rule, secret) && Secret(rule, secret') && Ends(rule, after)
    ensures Redact(rule, before + marker + secret + after) == Redact(rule, before + marker + secret' + after)
  {
    MarkerKept(rule, before + marker, |before|, marker);
    SolidLands(rule, before + marker, |before|, 0);
    hide Occurs;
    hide RunEnd;
    hide Lands;
    hide Redact;
    SecretHiddenInEveryTextIff(rule, before, marker);
  }

  lemma {:induction false} FreeLands(rule: Rule, u: string, h: nat, i: nat)
    requires rule.Needle() != "" && i <= h <= |u| && forall k: nat :: k < h ==> !Occurs(u, k, rule.Needle())
    ensures Lands(rule, u, h, i) == h
    decreases h - i
  {
    hide Occurs;
    if i < h {
      FreeLands(rule, u, h, i + 1);
    }
  }

  /** The first bearer header, key pattern or token of a text hides its secret. */
  lemma HidesFirstSecret(rule: Rule, before: string, marker: string, secret: string, secret': string, after: string)
    requires Marks(rule, before + marker, |before|, marker)
    requires forall i: nat :: i < |before| ==> !Occurs(before + marker, i, rule.Needle())
    requires Secret(rule, secret) && Secret(rule, secret') && Ends(rule, after)
    requires rule.Guarded() ==> !Occurs(after, 0, rule.Needle())
    ensures Redact(rule, before + marker + secret + after) == Redact(rule, before + marker + secret' + after)
  {
    var u := before + marker;
    MarkerNeedle(rule, u, |before|, marker);
    hide *;
    FreeLands(rule, u, |before|, 0);
    LandsIff(rule, u, |before|, marker, 0);
    HiddenSame(rule, u, secret, secret', after);
  }

  // ---------------------------------------------------------------- markers a cut can end in

  lemma ShortShown(rule: Rule, u: string, i: nat)
    requires rule.Needle() != "" && i <= |u| && i + |rule.Needle()| > |u|
    ensures FateOf(rule, u, i) == Shown
  {
    if FateOf(rule, u, i) != Shown {
      FateRoom(rule, u, i);
    }
  }

  /** A key in quotes. */
  function Quoted(q: char, key: string): string {
    [q] + key + [q] + ":"
  }

  lemma QuotedTwice(q: char, key: string, u: string)
    requires IsQuote(q) && key != "" && (forall k :: 0 <= k < |key| ==> !IsDelimiter(key[k]))
    requires u == Quoted(q, key) + Quoted(q, key)
    ensures FateOf(KeyValue(Quoted(q, key)), u, 0) == Shown
  {
    var w, rule := Quoted(q, key), KeyValue(Quoted(q, key));
    var n := |w|;
    OccursSelf(w, w);
    assert u[n] == q && u[2 * n - 2] == q;
    forall k | n + 1 <= k < 2 * n - 2 ensures !IsDelimiter(u[k]) {
      assert u[k] == key[k - n - 1];
    }
    assert u[n + 1] == key[0];
    hide Occurs;
    RunIs(SpacesAndQuotes, u, n, n + 1);
    RunIs(NonDelimiters, u, n + 1, 2 * n - 2);
    ShortShown(rule, u, 2 * n - 2);
    hide RunEnd;
    assert rule.End(u, 0) == 2 * n - 2;
  }

  /** A quoted key that follows itself: the first hit takes the second key for the secret, and the pass prints what
      follows. */
  lemma QuotedKeyShows(q: char, key: string, c: char)
    requires IsQuote(q) && key != "" && (forall k :: 0 <= k < |key| ==> !IsDelimiter(key[k])) && c != ':'
    ensures var w := Quoted(q, key); EndsIn(Redact(KeyValue(w), w + w + [c]), c)
  {
    var w := Quoted(q, key);
    QuotedTwice(q, key, w + w);
    assert w[|w| - 1] == ':' && (Lower(c) == ':' ==> c == ':');
    hide FateOf;
    ShownIsPrinted(KeyValue(w), w + w, c);
  }

  lemma PrefixTwice(w: string, u: string)
    requires |w| >= 2 && (forall k :: 0 <= k < |w| - 1 ==> !IsDelimiter(w[k])) && IsDelimiter(w[|w| - 1])
    requires |u| == 2 * |w| && Occurs(u, 0, w) && Occurs(u, |w|, w)
    ensures FateOf(Token(w), u, 0) == Shown
  {
    var n := |w|;
    forall k | n <= k < 2 * n ensures IsDelimiter(u[k]) <==> k == 2 * n - 1 {
      OccursChar(u, n, w, k - n);
    }
    hide Occurs;
    RunIs(NonDelimiters, u, n, 2 * n - 1);
    ShortShown(Token(w), u, 2 * n - 1);
    hide RunEnd;
    assert Token(w).End(u, 0) == 2 * n - 1;
  }

  /** "bearer Bearer ", in whatever case: the first hit takes the second word for the token, and the pass prints
      what follows. */
  lemma BearerShows(w: string, u: string, c: char)
    requires w in ["Bearer ", "bearer "] && |u| == 14 && Occurs(u, 0, w) && Occurs(u, 7, w) && c != ' '
    ensures EndsIn(Redact(Token(w), u + [c]), c)
  {
    PrefixTwice(w, u);
    assert Lower(c) == ' ' ==> c == ' ';
    hide FateOf;
    ShownIsPrinted(Token(w), u, c);
  }

  // ---------------------------------------------------------------- headers that are not bearer headers

  /** Scanned up to `h`, the fate of a text is the one read off from there. */
  lemma {:induction false} FateThrough(rule: Rule, u: string, h: nat, i: nat)
    requires rule.Needle() != "" && i <= h < |u| && Lands(rule, u, h, i) == h
    ensures FateOf(rule, u, i) == FateOf(rule, u, h)
    decreases h - i
  {
    hide Occurs;
    hide RunEnd;
    if i < h {
      if rule.Hits(u, i) {
        LandsBehind(rule, u, h, rule.End(u, i));
        FateThrough(rule, u, h, rule.End(u, i));
      } else {
        FateThrough(rule, u, h, i + 1);
      }
    }
  }

  lemma LandsBehind(rule: Rule, u: string, h: nat, i: nat)
    requires rule.Needle() != "" && i <= |u| && h <= |u|
    ensures i > h ==> Lands(rule, u, h, i) == i
  {
  }

  /** The scan comes to a header at `h` whose value starts at `v`. */
  ghost predicate HeaderAt(u: string, h: nat, v: nat) {
    && h + 14 <= v < |u| && Occurs(u, h, "authorization:") && Lands(Authorization, u, h, 0) == h
    && (forall k :: h + 14 <= k < v ==> IsSpace(u[k])) && !IsDelimiter(u[v])
  }

  lemma HeaderFate(u: string, h: nat, a: nat, e: nat)
    requires h < |u| && Occurs(u, h, "authorization:") && Lands(Authorization, u, h, 0) == h
    requires a == Authorization.Kept(u, h) && e == RunEnd(NonDelimiters, u, a)
    ensures e == |u| ==> FateOf(Authorization, u, 0) == if Pending(Authorization, u, h) then Undecided else Hidden
    ensures e < |u| ==> FateOf(Authorization, u, 0) == FateOf(Authorization, u, e)
  {
    FateThrough(Authorization, u, h, 0);
    hide Lands;
    hide Occurs;
    hide RunEnd;
    hide Pending;
  }

  lemma HeaderKept(u: string, h: nat, v: nat)
    requires HeaderAt(u, h, v)
    ensures RunEnd(Spaces, u, h + 14) == v
    ensures Authorization.Kept(u, h) == if Occurs(u, v, "bearer ") then v + 7 else v
  {
    hide Lands;
    RunIs(Spaces, u, h + 14, v);
    hide Occurs;
    hide RunEnd;
  }

  /** The rest of the value's first word is hidden exactly when that word cannot become "bearer ". */
  lemma HeaderWord(u: string, h: nat, v: nat)
    requires HeaderAt(u, h, v) && forall k :: v <= k < |u| ==> !IsDelimiter(u[k])
    ensures FateOf(Authorization, u, 0) == if Occurs("bearer ", 0, u[v..]) then Undecided else Hidden
  {
    hide Lands;
    hide FateOf;
    HeaderKept(u, h, v);
    NoBearerWord(u, v);
    hide Occurs;
    RunIs(NonDelimiters, u, v, |u|);
    hide RunEnd;
    HeaderFate(u, h, v, |u|);
  }

  lemma NoBearerWord(u: string, v: nat)
    requires v <= |u| && forall k :: v <= k < |u| ==> !IsDelimiter(u[k])
    ensures !Occurs(u, v, "bearer ") && (Occurs("bearer ", 0, u[v..]) ==> |u| - v < 7)
  {
    if v + 7 <= |u| {
      assert Lower(u[v + 6]) != Lower("bearer "[6]);
      if v + 7 == |u| {
        assert u[v..][6] == u[v + 6];
        assert Lower("bearer "[0 + 6]) != Lower(u[v..][6]);
      }
    }
  }

  lemma BearerSpace(u: string, v: nat)
    requires Occurs(u, v, "bearer ")
    ensures IsDelimiter(u[v + 6])
  {
    OccursChar(u, v, "bearer ", 6);
  }

  /** Behind the first word and a delimiter everything is shown, unless they are "bearer ". */
  lemma HeaderNextWord(u: string, h: nat, v: nat)
    requires HeaderAt(u, h, v) && (forall k :: v <= k < |u| - 1 ==> !IsDelimiter(u[k])) && IsDelimiter(u[|u| - 1])
    ensures FateOf(Authorization, u, 0) == if Occurs(u, v, "bearer ") then Hidden else Shown
  {
    hide Lands;
    hide FateOf;
    HeaderKept(u, h, v);
    if Occurs(u, v, "bearer ") {
      BearerSpace(u, v);
      RunIs(NonDelimiters, u, |u|, |u|);
      hide Occurs;
      hide RunEnd;
      HeaderFate(u, h, |u|, |u|);
    } else {
      RunIs(NonDelimiters, u, v, |u| - 1);
      hide Occurs;
      hide RunEnd;
      HeaderFate(u, h, v, |u| - 1);
      ShortShown(Authorization, u, |u| - 1);
    }
  }
}
