/** Names and rotation of SQLite backups. */
module Backup {
  import opened Prelude
  import opened Ordering

  const PREFIX := "memcore-sqlite-"
  const SUFFIX := ".backup.sqlite"

  // ---------------------------------------------------------------- labels

  predicate Safe(c: char) {
    'a' <= c <= 'z' || 'A' <= c <= 'Z' || '0' <= c <= '9' || c == '-' || c == '_'
  }

  function Dashed(s: string): (t: string)
    ensures |t| == |s| && forall i :: 0 <= i < |t| ==> Safe(t[i])
  {
    seq(|s|, i requires 0 <= i < |s| => if Safe(s[i]) then s[i] else '-')
  }

  /** The pieces between dashes; there is always at least one. */
  function Split(s: string): (parts: seq<string>)
    ensures parts != []
  {
    if s == "" then [""]
    else
      var rest := Split(s[1..]);
      if s[0] == '-' then [""] + rest else [[s[0]] + rest[0]] + rest[1..]
  }

  predicate NotEmpty(s: string) { s != "" }

  function Join(parts: seq<string>): string {
    if parts == [] then ""
    else if |parts| == 1 then parts[0]
    else parts[0] + "-" + Join(parts[1..])
  }

  function SanitizeLabel(tag: Option<string>): Option<string> {
    if tag.None? || Trim(tag.value) == "" then None
    else
      var collapsed := Join(Filter(NotEmpty, Split(Dashed(Trim(tag.value)))));
      if collapsed == "" then None else Some(collapsed)
  }

  /** Only letters, digits, underscores and single inner dashes. */
  ghost predicate Tidy(t: string) {
    && t != "" && (forall i :: 0 <= i < |t| ==> Safe(t[i]))
    && t[0] != '-' && t[|t| - 1] != '-'
    && (forall i :: 0 <= i < |t| - 1 ==> !(t[i] == '-' && t[i + 1] == '-'))
  }

  /** A piece: not empty, safe, without dashes. */
  ghost predicate Piece(p: string) {
    p != "" && forall i :: 0 <= i < |p| ==> Safe(p[i]) && p[i] != '-'
  }

  lemma {:induction false} SplitPieces(s: string)
    requires forall i :: 0 <= i < |s| ==> Safe(s[i])
    ensures forall k :: 0 <= k < |Split(s)| ==> Split(s)[k] == "" || Piece(Split(s)[k])
  {
    if s != "" {
      SplitPieces(s[1..]);
    }
  }

  lemma {:induction false} JoinTidy(parts: seq<string>)
    requires parts != [] && forall k :: 0 <= k < |parts| ==> Piece(parts[k])
    ensures Tidy(Join(parts))
  {
    assert Piece(parts[0]);
    if |parts| > 1 {
      JoinTidy(parts[1..]);
      TidyConcat(parts[0], Join(parts[1..]));
    }
  }

  lemma TidyConcat(p: string, t: string)
    requires Piece(p) && Tidy(t)
    ensures Tidy(p + "-" + t)
  {
    var u := p + "-" + t;
    forall i | 0 <= i < |u| - 1 ensures !(u[i] == '-' && u[i + 1] == '-') {
      if i > |p| {
        assert u[i] == t[i - |p| - 1] && u[i + 1] == t[i - |p|];
      }
    }
  }

  /** Every sanitized label is tidy. */
  lemma SanitizedIsTidy(tag: Option<string>)
    ensures SanitizeLabel(tag).Some? ==> Tidy(SanitizeLabel(tag).value)
  {
    if SanitizeLabel(tag).Some? {
      var m := Dashed(Trim(tag.value));
      var parts := Filter(NotEmpty, Split(m));
      SplitPieces(m);
      FilterMembers(NotEmpty, Split(m));
      forall k | 0 <= k < |parts| ensures Piece(parts[k]) {
        assert parts[k] in parts;
      }
      assert parts != [];
      JoinTidy(parts);
    }
  }

  lemma JoinDash(parts: seq<string>)
    requires parts != []
    ensures Join([""] + parts) == "-" + Join(parts)
  {
    assert ([""] + parts)[1..] == parts;
    assert "" + "-" == "-";
  }

  lemma JoinFirst(c: char, parts: seq<string>)
    requires parts != []
    ensures Join([[c] + parts[0]] + parts[1..]) == [c] + Join(parts)
  {
    var more := [[c] + parts[0]] + parts[1..];
    assert more[1..] == parts[1..];
    if |parts| > 1 {
      var rest := Join(parts[1..]);
      assert [c] + parts[0] + "-" + rest == [c] + (parts[0] + "-" + rest);
    }
  }

  lemma {:induction false} JoinSplit(s: string)
    ensures Join(Split(s)) == s
  {
    if s != "" {
      hide Join;
      JoinSplit(s[1..]);
      assert s == [s[0]] + s[1..];
      if s[0] == '-' {
        JoinDash(Split(s[1..]));
      } else {
        JoinFirst(s[0], Split(s[1..]));
      }
    }
  }

  /** Only a leading, trailing or doubled dash leaves an empty piece. */
  lemma {:induction false} TidySplit(s: string)
    requires s == "" || s[|s| - 1] != '-'
    requires forall i :: 0 <= i < |s| - 1 ==> !(s[i] == '-' && s[i + 1] == '-')
    ensures forall k :: 1 <= k < |Split(s)| ==> Split(s)[k] != ""
    ensures Split(s)[0] == "" <==> s == "" || s[0] == '-'
  {
    if s != "" {
      TidySplit(s[1..]);
    }
  }

  lemma TrimTidy(t: string)
    requires Tidy(t)
    ensures Trim(t) == t && Dashed(t) == t
  {
    assert Safe(t[0]) && Safe(t[|t| - 1]);
  }

  /** The sanitizer leaves exactly the tidy labels as they are, so sanitizing twice is sanitizing once. */
  lemma TidyIsFixed(t: string)
    ensures SanitizeLabel(Some(t)) == Some(t) <==> Tidy(t)
  {
    SanitizedIsTidy(Some(t));
    if Tidy(t) {
      TrimTidy(t);
      TidySplit(t);
      FilterAll(NotEmpty, Split(t));
      JoinSplit(t);
    }
  }

  // ---------------------------------------------------------------- which characters survive

  predicate Letter(c: char) {
    'a' <= c <= 'z' || 'A' <= c <= 'Z' || '0' <= c <= '9' || c == '_'
  }

  /** The maximal runs of letters, digits and underscores, in order. */
  function Runs(s: string): seq<string> {
    if s == "" then []
    else
      var rest := Runs(s[1..]);
      if !Letter(s[0]) then rest
      else if |s| > 1 && Letter(s[1]) && rest != [] then [[s[0]] + rest[0]] + rest[1..]
      else [[s[0]]] + rest
  }

  lemma {:induction false} RunsStart(s: string)
    ensures s != "" && Letter(s[0]) ==> Runs(s) != []
  {
    if s != "" {
      RunsStart(s[1..]);
    }
  }

  /** The pieces of the dashed text are the runs; the first piece is empty exactly when no run starts there. */
  lemma {:induction false} SplitRuns(s: string)
    ensures var parts := Split(Dashed(s));
            && Filter(NotEmpty, parts) == Runs(s)
            && (parts[0] == "" <==> s == "" || !Letter(s[0]))
  {
    if s != "" {
      var rest := Split(Dashed(s[1..]));
      SplitRuns(s[1..]);
      RunsStart(s[1..]);
      DashedTail(s);
      if Letter(s[0]) {
        FilterCons([s[0]] + rest[0], rest[1..]);
        FilterCons(rest[0], rest[1..]);
        assert rest == [rest[0]] + rest[1..];
        var runs := Runs(s[1..]);
        if |s| > 1 && Letter(s[1]) {
          assert s[1..][0] == s[1];
          assert runs[0] == rest[0] && runs[1..] == Filter(NotEmpty, rest[1..]);
        } else {
          assert [s[0]] + rest[0] == [s[0]] && runs == Filter(NotEmpty, rest[1..]);
        }
      } else {
        FilterCons("", rest);
      }
    }
  }

  lemma FilterCons(x: string, l: seq<string>)
    ensures Filter(NotEmpty, [x] + l) == (if x == "" then [] else [x]) + Filter(NotEmpty, l)
  {
    assert ([x] + l)[1..] == l;
  }

  lemma DashedTail(s: string)
    requires s != ""
    ensures Dashed(s)[1..] == Dashed(s[1..]) && Dashed(s)[0] == if Letter(s[0]) then s[0] else '-'
  {
  }

  lemma {:induction false} RunsTrim(s: string)
    ensures Runs(TrimStart(s)) == Runs(s) && Runs(TrimEnd(s)) == Runs(s)
  {
    if s != "" {
      if IsWhite(s[0]) {
        RunsTrim(s[1..]);
      }
      if IsWhite(s[|s| - 1]) {
        RunsTrim(s[..|s| - 1]);
        RunsSnoc(s[..|s| - 1], s[|s| - 1]);
        assert s[..|s| - 1] + [s[|s| - 1]] == s;
      }
    }
  }

  lemma {:induction false} RunsSnoc(s: string, c: char)
    requires !Letter(c)
    ensures Runs(s + [c]) == Runs(s)
  {
    if s == "" {
      assert s + [c] == [c] && [c][1..] == "";
    } else {
      RunsSnoc(s[1..], c);
      assert (s + [c])[1..] == s[1..] + [c];
      if |s| == 1 {
        assert s[1..] == "";
      }
    }
  }

  /** A sanitized label is the runs of the given one, joined by dashes; there is none exactly when there are no runs. */
  lemma SanitizedIs(s: string)
    ensures SanitizeLabel(Some(s)) == if Runs(s) == [] then None else Some(Join(Runs(s)))
  {
    RunsTrim(s);
    RunsTrim(TrimStart(s));
    SplitRuns(Trim(s));
    JoinRuns(s);
    hide Runs;
    hide Split;
    hide TrimStart;
    hide TrimEnd;
    NoRunsInNothing();
  }

  lemma NoRunsInNothing()
    ensures Runs("") == []
  {
  }

  lemma {:induction false} JoinRuns(s: string)
    ensures Runs(s) != [] ==> Join(Runs(s)) != "" && Runs(s)[0] != ""
  {
    if s != "" {
      JoinRuns(s[1..]);
    }
  }

  lemma SanitizeIdempotent(tag: Option<string>)
    ensures SanitizeLabel(SanitizeLabel(tag)) == SanitizeLabel(tag)
  {
    SanitizedIsTidy(tag);
    if SanitizeLabel(tag).Some? {
      TidyIsFixed(SanitizeLabel(tag).value);
    }
  }

  // ---------------------------------------------------------------- file names

  datatype Timestamp = Timestamp(year: int, month: nat, day: nat, hour: nat, minute: nat, second: nat)

  predicate InRange(t: Timestamp) {
    t.month < 100 && t.day < 100 && t.hour < 100 && t.minute < 100 && t.second < 100
  }

  function Digit(d: nat): char
    requires d < 10
  {
    '0' + d as char
  }

  function Two(n: nat): string
    requires n < 100
  {
    [Digit(n / 10), Digit(n % 10)]
  }

  function Decimal(n: nat): string {
    if n < 10 then [Digit(n)] else Decimal(n / 10) + [Digit(n % 10)]
  }

  /** Four digits, or a sign and as many as it takes. */
  function Year(y: int): string {
    if 0 <= y < 10000 then Two(y / 100) + Two(y % 100)
    else if y < 0 then "-" + (if -y < 10000 then Two(-y / 100) + Two(-y % 100) else Decimal(-y))
    else "+" + Decimal(y)
  }

  function Stamp(t: Timestamp): string
    requires InRange(t)
  {
    Year(t.year) + Two(t.month) + Two(t.day) + "T" + Two(t.hour) + Two(t.minute) + Two(t.second) + "Z"
  }

  function Filename(t: Timestamp, tag: Option<string>): string
    requires InRange(t)
  {
    match SanitizeLabel(tag)
    case Some(safe) => PREFIX + Stamp(t) + "-" + safe + SUFFIX
    case None => PREFIX + Stamp(t) + SUFFIX
  }

  predicate StartsWith(s: string, p: string) { |p| <= |s| && s[..|p|] == p }
  predicate EndsWith(s: string, p: string) { |p| <= |s| && s[|s| - |p|..] == p }

  predicate IsBackupName(name: string) {
    StartsWith(name, PREFIX) && EndsWith(name, SUFFIX)
  }

  /** Every name the builder makes is recognized as a backup. */
  lemma BuiltIsRecognized(t: Timestamp, tag: Option<string>)
    requires InRange(t)
    ensures IsBackupName(Filename(t, tag))
  {
    hide Stamp;
    hide SanitizeLabel;
    var name := Filename(t, tag);
    var middle := Stamp(t) + match SanitizeLabel(tag) { case Some(safe) => "-" + safe case None => "" };
    assert name == PREFIX + (middle + SUFFIX);
    assert name == (PREFIX + middle) + SUFFIX;
  }

  /** The prefix holds no dot, so it cannot overlap the suffix. */
  lemma NotShort(name: string)
    requires StartsWith(name, PREFIX) && EndsWith(name, SUFFIX)
    ensures |name| >= 29
  {
    var k := |name| - 14;
    assert name[k] == name[k..][0] == '.';
    if k < 15 {
      DotInFront(name, k);
    }
  }

  lemma DotInFront(name: string, k: nat)
    requires k < 15 <= |name| && name[k] == '.'
    ensures !StartsWith(name, PREFIX)
  {
    NoDot(k);
    assert name[..15][k] != PREFIX[k];
  }

  lemma NoDot(k: nat)
    requires k < 15
    ensures PREFIX[k] != '.'
  {
  }

  /** A name is recognized exactly when something stands between the prefix and the suffix, be it nothing. */
  lemma RecognizedIff(name: string)
    ensures IsBackupName(name) <==> exists middle: string :: name == "memcore-sqlite-" + middle + ".backup.sqlite"
  {
    if IsBackupName(name) {
      NotShort(name);
      var middle := name[15..|name| - 14];
      assert name == name[..15] + middle + name[|name| - 14..];
    }
    if middle: string :| name == "memcore-sqlite-" + middle + ".backup.sqlite" {
      assert name[..15] == PREFIX && name[|name| - 14..] == SUFFIX;
    }
  }

  lemma TwoInjective(n: nat, m: nat)
    requires n < 100 && m < 100 && Two(n) == Two(m)
    ensures n == m
  {
    assert Two(n)[0] == Digit(n / 10) && Two(m)[0] == Digit(m / 10);
    assert Two(n)[1] == Digit(n % 10) && Two(m)[1] == Digit(m % 10);
  }

  predicate FourDigitYear(t: Timestamp) { InRange(t) && 0 <= t.year < 10000 }

  lemma StampFields(t: Timestamp)
    requires FourDigitYear(t)
    ensures var s := Stamp(t);
            && |s| == 16 && s[0..2] == Two(t.year / 100) && s[2..4] == Two(t.year % 100)
            && s[4..6] == Two(t.month) && s[6..8] == Two(t.day)
            && s[9..11] == Two(t.hour) && s[11..13] == Two(t.minute) && s[13..15] == Two(t.second)
  {
  }

  lemma StampInjective(t: Timestamp, u: Timestamp)
    requires FourDigitYear(t) && FourDigitYear(u) && Stamp(t) == Stamp(u)
    ensures t == u
  {
    StampFields(t);
    StampFields(u);
    hide Stamp;
    hide Two;
    TwoInjective(t.year / 100, u.year / 100);
    TwoInjective(t.year % 100, u.year % 100);
    TwoInjective(t.month, u.month);
    TwoInjective(t.day, u.day);
    TwoInjective(t.hour, u.hour);
    TwoInjective(t.minute, u.minute);
    TwoInjective(t.second, u.second);
  }

  /** What follows the time stamp in a name. */
  function Ending(tag: Option<string>): string {
    match SanitizeLabel(tag) { case Some(safe) => "-" + safe + SUFFIX case None => SUFFIX }
  }

  lemma NameParts(t: Timestamp, tag: Option<string>)
    requires FourDigitYear(t)
    ensures Filename(t, tag)[15..31] == Stamp(t) && Filename(t, tag)[31..] == Ending(tag)
  {
    StampFields(t);
    hide Stamp;
    hide SanitizeLabel;
    var name, stamp := Filename(t, tag), Stamp(t);
    assert name == PREFIX + stamp + Ending(tag);
    assert |PREFIX| == 15;
  }

  lemma EndingInjective(a: Option<string>, b: Option<string>)
    requires Ending(a) == Ending(b)
    ensures SanitizeLabel(a) == SanitizeLabel(b)
  {
    hide SanitizeLabel;
    var x, y := SanitizeLabel(a), SanitizeLabel(b);
    assert x.Some? ==> Ending(a)[0] == '-';
    assert y.Some? ==> Ending(b)[0] == '-';
    assert x.None? ==> Ending(a)[0] == '.';
    assert y.None? ==> Ending(b)[0] == '.';
    if x.Some? && y.Some? {
      assert Ending(a)[1..|Ending(a)| - |SUFFIX|] == x.value;
      assert Ending(b)[1..|Ending(b)| - |SUFFIX|] == y.value;
    }
  }

  /** For four-digit years a name determines the time to the second and the sanitized label. */
  lemma NameDetermines(t: Timestamp, a: Option<string>, u: Timestamp, b: Option<string>)
    requires FourDigitYear(t) && FourDigitYear(u)
    ensures Filename(t, a) == Filename(u, b) <==> t == u && SanitizeLabel(a) == SanitizeLabel(b)
  {
    if Filename(t, a) == Filename(u, b) {
      NameParts(t, a);
      NameParts(u, b);
      StampInjective(t, u);
      EndingInjective(a, b);
    }
  }

  // ---------------------------------------------------------------- rotation

  /** A directory entry: whether it is a regular file, whether its name is text, its modification time if it
      can be read, and whether it can be removed. */
  datatype Entry = Entry(isFile: bool, textName: bool, modified: Option<int>, removable: bool)

  type Entries = map<string, Entry>

  predicate IsBackup(es: Entries, name: string)
    requires name in es
  {
    es[name].isFile && es[name].textName && IsBackupName(name)
  }

  function Backups(es: Entries): set<string> {
    set name | name in es && IsBackup(es, name)
  }

  const UNIX_EPOCH: int := 0

  function TimeOf(e: Entry): int {
    if e.modified.Some? then e.modified.value else UNIX_EPOCH
  }

  /** The order backups are removed in: by modification time, then by name. */
  predicate Older(es: Entries, a: string, b: string)
    requires a in es && b in es
  {
    TimeOf(es[a]) < TimeOf(es[b]) || (TimeOf(es[a]) == TimeOf(es[b]) && LexLess(Codes(a), Codes(b)))
  }

  /** `gone` are the oldest backups. */
  ghost predicate Oldest(es: Entries, gone: set<string>) {
    gone <= Backups(es) && forall a, b :: a in gone && b in Backups(es) && b !in gone ==> Older(es, a, b)
  }

  function Without(es: Entries, gone: set<string>): Entries {
    map name | name in es && name !in gone :: es[name]
  }

  /** How many backups exceed the number to keep. */
  function Excess(es: Entries, keep: nat): nat {
    var n := |Backups(es)|;
    if n <= keep then 0 else n - keep
  }

  datatype Dated = Dated(time: int, name: string)

  predicate DatedLeq(a: Dated, b: Dated) {
    a.time < b.time || (a.time == b.time && !LexLess(Codes(b.name), Codes(a.name)))
  }

  lemma DatedPreorder()
    ensures Preorder(DatedLeq)
  {
    forall x, y ensures DatedLeq(x, y) || DatedLeq(y, x) {
      LexTotal(Codes(x.name), Codes(y.name));
    }
    forall x, y, z | DatedLeq(x, y) && DatedLeq(y, z) ensures DatedLeq(x, z) {
      LexTotal(Codes(x.name), Codes(y.name));
      LexTotal(Codes(y.name), Codes(z.name));
      if LexLess(Codes(z.name), Codes(x.name)) && LexLess(Codes(x.name), Codes(y.name)) {
        LexTransitive(Codes(z.name), Codes(x.name), Codes(y.name));
      }
    }
  }

  function DatedOf(es: Entries): set<Dated> {
    set name | name in Backups(es) :: Dated(TimeOf(es[name]), name)
  }

  /** The backups in the order they are removed in. */
  ghost predicate InOrder(es: Entries, l: seq<Dated>) {
    && (forall i :: 0 <= i < |l| ==> l[i].name in Backups(es))
    && (forall i, j :: 0 <= i < j < |l| ==> l[i].name != l[j].name && Older(es, l[i].name, l[j].name))
    && (forall name :: name in Backups(es) ==> exists i :: 0 <= i < |l| && l[i].name == name)
  }

  /** Distinct entries in sorted order differ in name and are strictly ordered. */
  lemma SortedPair(es: Entries, d: Dated, e: Dated)
    requires d in DatedOf(es) && e in DatedOf(es) && d != e && DatedLeq(d, e)
    ensures d.name != e.name && Older(es, d.name, e.name)
  {
    LexTotal(Codes(d.name), Codes(e.name));
    if Codes(d.name) == Codes(e.name) {
      CodesInjective(d.name, e.name);
    }
  }

  lemma SortedListInOrder(es: Entries, l: seq<Dated>)
    requires Lists(l, DatedOf(es)) && Sorted(DatedLeq, l)
    ensures InOrder(es, l)
  {
    ListsMembers(l, DatedOf(es));
    hide Lists;
    forall i, j | 0 <= i < j < |l| ensures l[i].name != l[j].name && Older(es, l[i].name, l[j].name) {
      assert DatedLeq(l[i], l[j]);
      SortedPair(es, l[i], l[j]);
    }
    hide DatedLeq;
    hide Older;
    forall name | name in Backups(es) ensures exists i :: 0 <= i < |l| && l[i].name == name {
      var d := Dated(TimeOf(es[name]), name);
      assert d in DatedOf(es);
      var i :| 0 <= i < |l| && l[i] == d;
    }
  }

  lemma SortedInOrder(es: Entries, found: seq<Dated>)
    requires Lists(found, DatedOf(es))
    ensures InOrder(es, Sort(DatedLeq, found)) && |Sort(DatedLeq, found)| == |found|
  {
    DatedPreorder();
    SortSorts(DatedLeq, found);
    hide Preorder;
    hide InOrder;
    hide Sorted;
    SortedListInOrder(es, Sort(DatedLeq, found));
  }

  lemma {:induction false} DatedCount(es: Entries, names: set<string>)
    requires names <= es.Keys
    ensures |set name | name in names :: Dated(TimeOf(es[name]), name)| == |names|
  {
    if names == {} {
      assert (set name | name in names :: Dated(TimeOf(es[name]), name)) == {};
    } else {
      var x :| x in names;
      DatedCount(es, names - {x});
      assert (set name | name in names :: Dated(TimeOf(es[name]), name))
             == (set name | name in names - {x} :: Dated(TimeOf(es[name]), name)) + {Dated(TimeOf(es[x]), x)};
    }
  }

  /** The names of the first `n`. */
  ghost function Names(l: seq<Dated>, n: nat): set<string>
    requires n <= |l|
  {
    set i | 0 <= i < n :: l[i].name
  }

  lemma FirstAreOldest(es: Entries, l: seq<Dated>, n: nat)
    requires InOrder(es, l) && n <= |l|
    ensures Oldest(es, Names(l, n))
  {
    var gone := Names(l, n);
    forall a, b | a in gone && b in Backups(es) && b !in gone ensures Older(es, a, b) {
      var i :| 0 <= i < n && l[i].name == a;
      var j :| 0 <= j < |l| && l[j].name == b;
      assert j >= n;
    }
  }

  lemma NamesStep(es: Entries, l: seq<Dated>, n: nat)
    requires InOrder(es, l) && n < |l|
    ensures l[n].name in Backups(es) && l[n].name !in Names(l, n)
    ensures Names(l, n + 1) == Names(l, n) + {l[n].name}
  {
    hide Older;
    forall i | 0 <= i < n ensures l[i].name != l[n].name {
    }
  }

  lemma OneMore<T>(s: set<T>, x: T)
    requires x !in s
    ensures |s + {x}| == |s| + 1
  {
  }

  lemma NoNames(l: seq<Dated>)
    ensures Names(l, 0) == {}
  {
  }

  lemma {:induction false} NamesCount(es: Entries, l: seq<Dated>, n: nat)
    requires InOrder(es, l) && n <= |l|
    ensures |Names(l, n)| == n
  {
    hide Names;
    hide InOrder;
    if n == 0 {
      NoNames(l);
    } else {
      NamesCount(es, l, n - 1);
      NamesStep(es, l, n - 1);
      OneMore(Names(l, n - 1), l[n - 1].name);
    }
  }

  class Directory {
    var present: bool
    var entries: Entries

    /** The backups with their times, found in any order. */
    method Collect() returns (found: seq<Dated>)
      ensures Lists(found, DatedOf(entries))
    {
      found := [];
      ghost var es := entries;
      ghost var all := DatedOf(es);
      var rest := entries.Keys;
      ghost var left := set name | name in rest :: Dated(TimeOf(es[name]), name);
      assert all - left == {};
      ListsNothing<Dated>();
      hide Lists;
      hide IsBackupName;
      while rest != {}
        invariant rest <= es.Keys && left == set name | name in rest :: Dated(TimeOf(es[name]), name)
        invariant Lists(found, all - left)
        decreases |rest|
      {
        var name :| name in rest;
        var d := Dated(TimeOf(entries[name]), name);
        ListsNext(found, all, left, d);
        assert left - {d} == set x | x in rest - {name} :: Dated(TimeOf(es[x]), x);
        rest := rest - {name};
        left := left - {d};
        if IsBackup(entries, name) {
          assert d in all;
          found := found + [d];
        } else {
          assert d !in all;
        }
      }
      assert left == {} && all - {} == all;
    }

    /** Removes the oldest backups in excess of `maxFiles`; `gone` are the files removed. */
    method Rotate(maxFiles: nat) returns (r: Result<nat>, ghost gone: set<string>)
      modifies this`entries
      ensures Oldest(old(entries), gone) && entries == Without(old(entries), gone)
      ensures maxFiles == 0 ==> r == Err(Validation) && gone == {}
      ensures maxFiles > 0 && !present ==> r == Ok(0) && gone == {}
      ensures maxFiles > 0 && present && r.Ok? ==> r.value == |gone| == Excess(old(entries), maxFiles)
      ensures maxFiles > 0 && r.Err? ==>
                r.error == Storage && |gone| < Excess(old(entries), maxFiles)
                && exists name :: name in Backups(old(entries)) - gone && !old(entries)[name].removable
                                  && Oldest(old(entries), gone + {name})
    {
      gone := {};
      assert Without(entries, {}) == entries;
      if maxFiles == 0 {
        return Err(Validation), gone;
      }
      if !present {
        return Ok(0), gone;
      }
      var found := Collect();
      ghost var es := entries;
      var backups := Sort(DatedLeq, found);
      SortedInOrder(es, found);
      ListsMembers(found, DatedOf(es));
      DatedCount(es, Backups(es));
      if |backups| <= maxFiles {
        return Ok(0), gone;
      }
      r, gone := RemoveFirst(backups, |backups| - maxFiles);
    }

    /** Removes the first `removeCount` backups one by one, and stops at the first failure. */
    method RemoveFirst(backups: seq<Dated>, removeCount: nat) returns (r: Result<nat>, ghost gone: set<string>)
      requires InOrder(entries, backups) && removeCount <= |backups|
      modifies this`entries
      ensures Oldest(old(entries), gone) && entries == Without(old(entries), gone)
      ensures r.Ok? ==> r.value == |gone| == removeCount
      ensures r.Err? ==>
                r.error == Storage && |gone| < removeCount
                && exists name :: name in Backups(old(entries)) - gone && !old(entries)[name].removable
                                  && Oldest(old(entries), gone + {name})
    {
      ghost var es := entries;
      gone := {};
      assert Without(es, {}) == es && Names(backups, 0) == {};
      var deleted := 0;
      hide InOrder;
      while deleted < removeCount
        invariant deleted <= removeCount && gone == Names(backups, deleted) && entries == Without(es, gone)
      {
        var name := backups[deleted].name;
        RemoveNext(es, backups, deleted);
        if !entries[name].removable {
          return Err(Storage), gone;
        }
        entries := entries - {name};
        gone := gone + {name};
        deleted := deleted + 1;
      }
      FirstAreOldest(es, backups, deleted);
      NamesCount(es, backups, deleted);
      return Ok(deleted), gone;
    }
  }

  lemma WithoutOneMore(es: Entries, gone: set<string>, name: string)
    ensures Without(es, gone) - {name} == Without(es, gone + {name})
  {
  }

  lemma RemoveNext(es: Entries, l: seq<Dated>, n: nat)
    requires InOrder(es, l) && n < |l|
    ensures var name := l[n].name;
            && name in Backups(es) && name in es && name !in Names(l, n) && |Names(l, n)| == n
            && Names(l, n + 1) == Names(l, n) + {name}
            && Oldest(es, Names(l, n)) && Oldest(es, Names(l, n) + {name})
            && Without(es, Names(l, n)) - {name} == Without(es, Names(l, n) + {name})
  {
    FirstAreOldest(es, l, n);
    FirstAreOldest(es, l, n + 1);
    NamesCount(es, l, n);
    NamesStep(es, l, n);
    WithoutOneMore(es, Names(l, n), l[n].name);
    hide InOrder;
    hide Oldest;
    hide Names;
    hide Without;
  }

  // ---------------------------------------------------------------- what a rotation leaves

  lemma BackupsWithout(es: Entries, gone: set<string>)
    ensures Backups(Without(es, gone)) == Backups(es) - gone
  {
  }

  /** A completed rotation leaves as many backups as it may keep, each newer than each one removed, and every
      other file as it was; an immediate second one removes nothing. */
  lemma KeepsTheNewest(es: Entries, gone: set<string>, keep: nat)
    requires Oldest(es, gone) && |gone| == Excess(es, keep)
    ensures var after := Without(es, gone);
            && |Backups(after)| == (if |Backups(es)| < keep then |Backups(es)| else keep)
            && (forall a, b :: a in gone && b in Backups(after) ==> Older(es, a, b))
            && (forall name :: name in es && !IsBackup(es, name) ==> name in after && after[name] == es[name])
            && Excess(after, keep) == 0
  {
    BackupsWithout(es, gone);
    assert |Backups(es) - gone| == |Backups(es)| - |gone|;
  }

  /** Of two backups with readable times, the one removed is not the newer; an unreadable time counts as the epoch. */
  lemma RemovedIsOlder(es: Entries, gone: set<string>, a: string, b: string)
    requires Oldest(es, gone) && a in gone && b in Backups(es) && b !in gone && a in es
    ensures es[a].modified.Some? && es[b].modified.Some? ==> es[a].modified.value <= es[b].modified.value
    ensures es[a].modified.None? && es[b].modified.Some? ==> 0 <= es[b].modified.value
    ensures es[a].modified == es[b].modified ==> LexLess(Codes(a), Codes(b))
  {
    assert Older(es, a, b);
  }

  /** Which files a rotation removes does not depend on the order the directory is read in. */
  lemma OldestUnique(es: Entries, g: set<string>, h: set<string>)
    requires Oldest(es, g) && Oldest(es, h) && |g| == |h|
    ensures g == h
  {
    if g - h != {} {
      var a :| a in g - h;
      SizesDiffer(g, h);
      var b :| b in h - g;
      assert Older(es, a, b) && Older(es, b, a);
      LexTotal(Codes(a), Codes(b));
    } else if h - g != {} {
      SizesDiffer(h, g);
    } else {
      assert g == h;
    }
  }

  lemma SizesDiffer<T>(g: set<T>, h: set<T>)
    requires |g| == |h| && g - h != {}
    ensures h - g != {}
  {
    assert |g - h| + |g * h| == |g| && |h - g| + |g * h| == |h| by {
      assert g == (g - h) + (g * h);
      assert h == (h - g) + (g * h);
    }
  }
}
