/** Lexicographic order, identifiers and stable sorting. */
module Ordering {

  // ---------------------------------------------------------------- lexicographic order

  predicate LexLess(a: seq<int>, b: seq<int>) {
    if b == [] then false
    else if a == [] then true
    else if a[0] != b[0] then a[0] < b[0]
    else LexLess(a[1..], b[1..])
  }

  lemma {:induction false} LexTotal(a: seq<int>, b: seq<int>)
    ensures !LexLess(a, a)
    ensures LexLess(a, b) || LexLess(b, a) || a == b
    ensures !(LexLess(a, b) && LexLess(b, a))
    decreases |a|
  {
    if a != [] {
      if b != [] {
        LexTotal(a[1..], b[1..]);
        if a[0] == b[0] && a[1..] == b[1..] {
          assert a == [a[0]] + a[1..] && b == [b[0]] + b[1..];
        }
      } else {
        LexTotal(a[1..], []);
      }
    }
  }

  lemma {:induction false} LexTransitive(a: seq<int>, b: seq<int>, c: seq<int>)
    requires LexLess(a, b) && LexLess(b, c)
    ensures LexLess(a, c)
    decreases |a|
  {
    if a != [] && a[0] == b[0] == c[0] {
      LexTransitive(a[1..], b[1..], c[1..]);
    }
  }

  /** The first difference decides, and a proper beginning comes first. */
  lemma {:induction false} LexIs(a: seq<int>, b: seq<int>)
    ensures LexLess(a, b) <==>
              || (|a| < |b| && a == b[..|a|])
              || exists k :: 0 <= k < |a| && k < |b| && a[..k] == b[..k] && a[k] < b[k]
    decreases |a|
  {
    if a != [] && b != [] {
      LexIs(a[1..], b[1..]);
      if a[0] == b[0] {
        LexIsStep(a, b);
      } else if a[0] < b[0] {
        assert a[..0] == b[..0];
      }
    }
  }

  lemma LexIsStep(a: seq<int>, b: seq<int>)
    requires a != [] && b != [] && a[0] == b[0]
    ensures (|a| < |b| && a == b[..|a|]) <==> (|a[1..]| < |b[1..]| && a[1..] == b[1..][..|a[1..]|])
    ensures (exists k :: 0 <= k < |a| && k < |b| && a[..k] == b[..k] && a[k] < b[k])
            <==> exists k :: 0 <= k < |a[1..]| && k < |b[1..]| && a[1..][..k] == b[1..][..k] && a[1..][k] < b[1..][k]
  {
    var x, y := a[1..], b[1..];
    assert a == [a[0]] + x && b == [b[0]] + y;
    if |a| < |b| {
      assert b[..|a|] == [b[0]] + y[..|x|];
    }
    if k :| 0 <= k < |a| && k < |b| && a[..k] == b[..k] && a[k] < b[k] {
      assert a[..k] == [a[0]] + x[..k - 1] && b[..k] == [b[0]] + y[..k - 1];
      assert x[..k - 1] == y[..k - 1] && x[k - 1] < y[k - 1];
    }
    if k :| 0 <= k < |x| && k < |y| && x[..k] == y[..k] && x[k] < y[k] {
      assert a[..k + 1] == [a[0]] + x[..k] && b[..k + 1] == [b[0]] + y[..k];
      assert a[k + 1] < b[k + 1];
    }
  }

  /** Texts compare by their code points. */
  function Codes(s: string): seq<int> {
    seq(|s|, i requires 0 <= i < |s| => s[i] as int)
  }

  lemma CodesInjective(a: string, b: string)
    requires Codes(a) == Codes(b)
    ensures a == b
  {
    assert |a| == |Codes(a)| == |Codes(b)| == |b|;
    forall i | 0 <= i < |a| ensures a[i] == b[i] {
      assert Codes(a)[i] == a[i] as int && Codes(b)[i] == b[i] as int;
    }
  }

  // ---------------------------------------------------------------- UUIDs

  type Byte = b: int | 0 <= b < 256

  type Uuid = u: seq<Byte> | |u| == 16 witness seq(16, _ => 0)

  function Hex(d: int): char
    requires 0 <= d < 16
  {
    if d < 10 then '0' + d as char else 'a' + (d - 10) as char
  }

  /** The digits of byte `i`, with the hyphen that precedes bytes 4, 6, 8 and 10. */
  function Group(i: nat, b: Byte): string {
    (if i == 4 || i == 6 || i == 8 || i == 10 then "-" else "") + [Hex(b / 16), Hex(b % 16)]
  }

  function TextFrom(u: Uuid, i: nat): string
    requires i <= 16
    decreases 16 - i
  {
    if i == 16 then "" else Group(i, u[i]) + TextFrom(u, i + 1)
  }

  /** Hyphenated lower-case text of a UUID. */
  function Text(u: Uuid): string {
    TextFrom(u, 0)
  }

  lemma CodesConcat(s: string, t: string)
    ensures Codes(s + t) == Codes(s) + Codes(t)
  {
  }

  lemma {:induction false} LexPrefix(p: seq<int>, a: seq<int>, b: seq<int>)
    ensures LexLess(p + a, p + b) <==> LexLess(a, b)
    decreases |p|
  {
    if p == [] {
      assert p + a == a && p + b == b;
    } else {
      assert (p + a)[1..] == p[1..] + a && (p + b)[1..] == p[1..] + b;
      LexPrefix(p[1..], a, b);
    }
  }

  /** Blocks of one length decide before what follows them. */
  lemma {:induction false} LexBlocks(p: seq<int>, q: seq<int>, a: seq<int>, b: seq<int>)
    requires |p| == |q| && p != q
    ensures LexLess(p + a, q + b) <==> LexLess(p, q)
    decreases |p|
  {
    assert (p + a)[1..] == p[1..] + a && (q + b)[1..] == q[1..] + b;
    assert p == [p[0]] + p[1..] && q == [q[0]] + q[1..];
    if p[0] == q[0] {
      LexBlocks(p[1..], q[1..], a, b);
    }
  }

  lemma GroupOrder(i: nat, b: Byte, c: Byte)
    ensures |Codes(Group(i, b))| == |Codes(Group(i, c))|
    ensures LexLess(Codes(Group(i, b)), Codes(Group(i, c))) <==> b < c
    ensures Codes(Group(i, b)) == Codes(Group(i, c)) <==> b == c
  {
    var dash := if i == 4 || i == 6 || i == 8 || i == 10 then "-" else "";
    DigitsOrder(b, c);
    CodesConcat(dash, [Hex(b / 16), Hex(b % 16)]);
    CodesConcat(dash, [Hex(c / 16), Hex(c % 16)]);
    var x, y := Codes([Hex(b / 16), Hex(b % 16)]), Codes([Hex(c / 16), Hex(c % 16)]);
    LexPrefix(Codes(dash), x, y);
    if Codes(dash) + x == Codes(dash) + y {
      assert x == (Codes(dash) + x)[|dash|..] == (Codes(dash) + y)[|dash|..] == y;
    }
  }

  lemma DigitsOrder(b: Byte, c: Byte)
    ensures var x, y := Codes([Hex(b / 16), Hex(b % 16)]), Codes([Hex(c / 16), Hex(c % 16)]);
            |x| == |y| && (LexLess(x, y) <==> b < c) && (x == y <==> b == c)
  {
    var x, y := Codes([Hex(b / 16), Hex(b % 16)]), Codes([Hex(c / 16), Hex(c % 16)]);
    assert x == [Hex(b / 16) as int, Hex(b % 16) as int];
    assert y == [Hex(c / 16) as int, Hex(c % 16) as int];
    assert x[1..] == [x[1]] && y[1..] == [y[1]];
    LexOne(x[1], y[1]);
    assert LexLess(x, y) <==> x[0] < y[0] || (x[0] == y[0] && x[1] < y[1]);
    HexOrder(b / 16, c / 16);
    HexOrder(b % 16, c % 16);
  }

  lemma LexOne(d: int, e: int)
    ensures LexLess([d], [e]) <==> d < e
  {
    assert [d][1..] == [] && [e][1..] == [];
  }

  lemma HexOrder(d: int, e: int)
    requires 0 <= d < 16 && 0 <= e < 16
    ensures (Hex(d) as int) < (Hex(e) as int) <==> d < e
    ensures Hex(d) == Hex(e) <==> d == e
  {
  }

  lemma {:induction false} TextOrderFrom(u: Uuid, v: Uuid, i: nat)
    requires i <= 16
    ensures LexLess(Codes(TextFrom(u, i)), Codes(TextFrom(v, i))) <==> LexLess(u[i..], v[i..])
    decreases 16 - i
  {
    if i < 16 {
      GroupOrder(i, u[i], v[i]);
      CodesConcat(Group(i, u[i]), TextFrom(u, i + 1));
      CodesConcat(Group(i, v[i]), TextFrom(v, i + 1));
      var p, q := Codes(Group(i, u[i])), Codes(Group(i, v[i]));
      var a, b := Codes(TextFrom(u, i + 1)), Codes(TextFrom(v, i + 1));
      assert u[i..][1..] == u[i + 1..] && v[i..][1..] == v[i + 1..];
      TextOrderFrom(u, v, i + 1);
      if u[i] == v[i] {
        LexPrefix(p, a, b);
      } else {
        LexBlocks(p, q, a, b);
      }
    }
  }

  /** The text of UUIDs orders as their bytes do. */
  lemma TextOrder(u: Uuid, v: Uuid)
    ensures LexLess(Codes(Text(u)), Codes(Text(v))) <==> LexLess(u, v)
  {
    hide LexLess;
    hide TextFrom;
    TextOrderFrom(u, v, 0);
    assert u[0..] == u && v[0..] == v;
  }

  /** Where the digits of byte `i`, or the hyphen before them, start. */
  function Place(i: nat): nat {
    2 * i + if i <= 4 then 0 else if i <= 6 then 1 else if i <= 8 then 2 else if i <= 10 then 3 else 4
  }

  lemma Dropped(t: string, p: nat, g: string, rest: string)
    requires p <= |t| && t[p..] == g + rest
    ensures p + |g| <= |t| && t[p + |g|..] == rest && forall k :: 0 <= k < |g| ==> t[p + k] == g[k]
  {
    assert t[p + |g|..] == t[p..][|g|..];
    forall k | 0 <= k < |g| ensures t[p + k] == g[k] {
      assert t[p + k] == t[p..][k];
    }
  }

  lemma GroupIs(i: nat, b: Byte)
    ensures var g := Group(i, b);
            var k := if i in {4, 6, 8, 10} then 1 else 0;
            && |g| == k + 2 == Place(i + 1) - Place(i) && (k == 1 ==> g[0] == '-')
            && g[k] == "0123456789abcdef"[b / 16] && g[k + 1] == "0123456789abcdef"[b % 16]
  {
    HexDigit(b / 16);
    HexDigit(b % 16);
  }

  lemma TextStep(u: Uuid, i: nat)
    requires i < 16
    ensures TextFrom(u, i) == Group(i, u[i]) + TextFrom(u, i + 1)
  {
    hide Group;
  }

  lemma {:induction false} TextTail(u: Uuid, i: nat)
    requires i <= 16
    ensures Place(i) <= |Text(u)| && Text(u)[Place(i)..] == TextFrom(u, i)
  {
    hide TextFrom;
    hide Group;
    if i == 0 {
      assert Text(u)[0..] == Text(u);
    } else {
      hide Text;
      TextTail(u, i - 1);
      TextStep(u, i - 1);
      GroupIs(i - 1, u[i - 1]);
      Dropped(Text(u), Place(i - 1), Group(i - 1, u[i - 1]), TextFrom(u, i));
    }
  }

  /** The text has 36 characters: the lower-case hexadecimal digits of the bytes in order, with hyphens behind the
      fourth, sixth, eighth and tenth byte. */
  lemma TextIs(u: Uuid, i: nat)
    requires i < 16
    ensures var t := Text(u);
            var p := Place(i) + if i in {4, 6, 8, 10} then 1 else 0;
            && |t| == 36 && p + 1 < 36
            && t[p] == "0123456789abcdef"[u[i] / 16] && t[p + 1] == "0123456789abcdef"[u[i] % 16]
            && (i in {4, 6, 8, 10} ==> t[p - 1] == '-')
  {
    TextTail(u, 16);
    TextTail(u, i);
    TextStep(u, i);
    assert TextFrom(u, 16) == "";
    hide TextFrom;
    hide Text;
    GroupIs(i, u[i]);
    hide Group;
    Dropped(Text(u), Place(i), Group(i, u[i]), TextFrom(u, i + 1));
  }

  lemma HexDigit(d: int)
    requires 0 <= d < 16
    ensures Hex(d) == "0123456789abcdef"[d]
  {
  }

  // ---------------------------------------------------------------- stable sorting

  /** `leq(x, y)`: x may stand in front of y. */
  ghost predicate Preorder<T(!new)>(leq: (T, T) -> bool) {
    && (forall x, y :: leq(x, y) || leq(y, x))
    && (forall x, y, z :: leq(x, y) && leq(y, z) ==> leq(x, z))
  }

  ghost predicate Sorted<T>(leq: (T, T) -> bool, s: seq<T>) {
    forall i, j :: 0 <= i < j < |s| ==> leq(s[i], s[j])
  }

  function Insert<T>(leq: (T, T) -> bool, x: T, s: seq<T>): seq<T> {
    if s == [] || leq(x, s[0]) then [x] + s else [s[0]] + Insert(leq, x, s[1..])
  }

  /** Equal elements keep their order. */
  function Sort<T>(leq: (T, T) -> bool, s: seq<T>): seq<T> {
    if s == [] then [] else Insert(leq, s[0], Sort(leq, s[1..]))
  }

  lemma {:induction false} InsertHolds<T>(leq: (T, T) -> bool, x: T, s: seq<T>)
    ensures multiset(Insert(leq, x, s)) == multiset(s) + multiset{x}
    ensures |Insert(leq, x, s)| == |s| + 1
  {
    if s != [] && !leq(x, s[0]) {
      InsertHolds(leq, x, s[1..]);
      assert s == [s[0]] + s[1..];
    }
  }

  lemma InsertMember<T>(leq: (T, T) -> bool, x: T, s: seq<T>, y: T)
    requires y in Insert(leq, x, s)
    ensures y == x || y in s
  {
    InsertHolds(leq, x, s);
    assert y in multiset(Insert(leq, x, s));
  }

  lemma {:induction false} InsertSorted<T(!new)>(leq: (T, T) -> bool, x: T, s: seq<T>)
    requires Preorder(leq) && Sorted(leq, s)
    ensures Sorted(leq, Insert(leq, x, s))
  {
    if s != [] && !leq(x, s[0]) {
      InsertSorted(leq, x, s[1..]);
      var t := Insert(leq, x, s[1..]);
      forall j | 0 <= j < |t| ensures leq(s[0], t[j]) {
        InsertMember(leq, x, s[1..], t[j]);
      }
    } else if s != [] {
      forall j | 0 <= j < |s| ensures leq(x, s[j]) {
        assert leq(s[0], s[j]);
      }
    }
  }

  /** Sorting permutes and orders. */
  lemma {:induction false} SortSorts<T(!new)>(leq: (T, T) -> bool, s: seq<T>)
    requires Preorder(leq)
    ensures Sorted(leq, Sort(leq, s)) && multiset(Sort(leq, s)) == multiset(s) && |Sort(leq, s)| == |s|
  {
    if s != [] {
      SortSorts(leq, s[1..]);
      InsertSorted(leq, s[0], Sort(leq, s[1..]));
      InsertHolds(leq, s[0], Sort(leq, s[1..]));
      assert s == [s[0]] + s[1..];
    }
  }

  // ---------------------------------------------------------------- filtering

  function Filter<T>(p: T -> bool, s: seq<T>): seq<T> {
    if s == [] then [] else if p(s[0]) then [s[0]] + Filter(p, s[1..]) else Filter(p, s[1..])
  }

  lemma {:induction false} FilterMembers<T>(p: T -> bool, s: seq<T>)
    ensures forall x :: x in Filter(p, s) <==> x in s && p(x)
    ensures |Filter(p, s)| <= |s|
  {
    if s != [] {
      FilterMembers(p, s[1..]);
      assert s == [s[0]] + s[1..];
    }
  }

  lemma {:induction false} FilterAll<T>(p: T -> bool, s: seq<T>)
    requires forall i :: 0 <= i < |s| ==> p(s[i])
    ensures Filter(p, s) == s
  {
    if s != [] {
      FilterAll(p, s[1..]);
      assert s == [s[0]] + s[1..];
    }
  }

  lemma {:induction false} FilterSorted<T(!new)>(leq: (T, T) -> bool, p: T -> bool, s: seq<T>)
    requires Sorted(leq, s)
    ensures Sorted(leq, Filter(p, s))
  {
    if s != [] {
      FilterSorted(leq, p, s[1..]);
      var t := Filter(p, s[1..]);
      forall j | 0 <= j < |t| ensures leq(s[0], t[j]) {
        FilterMembers(p, s[1..]);
        assert t[j] in t;
        var i :| 0 <= i < |s[1..]| && s[1..][i] == t[j];
        assert s[i + 1] == t[j];
      }
    }
  }

  lemma {:induction false} FilterInsert<T(!new)>(leq: (T, T) -> bool, p: T -> bool, x: T, s: seq<T>)
    requires Preorder(leq) && Sorted(leq, s)
    ensures Filter(p, Insert(leq, x, s)) == if p(x) then Insert(leq, x, Filter(p, s)) else Filter(p, s)
  {
    if s != [] && !leq(x, s[0]) {
      FilterInsert(leq, p, x, s[1..]);
      var t := Insert(leq, x, s);
      assert t[0] == s[0] && t[1..] == Insert(leq, x, s[1..]);
    } else {
      var t := [x] + s;
      assert t[1..] == s;
      if p(x) && Filter(p, s) != [] {
        FilterMembers(p, s);
        var y := Filter(p, s)[0];
        assert y in Filter(p, s);
        var j :| 0 <= j < |s| && s[j] == y;
        assert leq(s[0], y);
      }
    }
  }

  /** Filtering before or after a stable sort is the same. */
  lemma {:induction false} FilterSort<T(!new)>(leq: (T, T) -> bool, p: T -> bool, s: seq<T>)
    requires Preorder(leq)
    ensures Sort(leq, Filter(p, s)) == Filter(p, Sort(leq, s))
  {
    if s != [] {
      FilterSort(leq, p, s[1..]);
      SortSorts(leq, s[1..]);
      FilterInsert(leq, p, s[0], Sort(leq, s[1..]));
    }
  }

  // ---------------------------------------------------------------- enumerations

  /** `l` holds every element of `s` once, in some order. */
  ghost predicate Lists<T>(l: seq<T>, s: set<T>) {
    multiset(l) == multiset(s)
  }

  lemma ListsNothing<T>()
    ensures Lists<T>([], {})
  {
  }

  lemma ListsOneMore<T>(l: seq<T>, s: set<T>, x: T)
    requires Lists(l, s) && x !in s
    ensures Lists(l + [x], s + {x})
  {
    assert multiset(s + {x}) == multiset(s) + multiset{x};
  }

  lemma ListsMembers<T>(l: seq<T>, s: set<T>)
    requires Lists(l, s)
    ensures |l| == |s|
    ensures forall k :: 0 <= k < |l| ==> l[k] in s
    ensures forall x :: x in s ==> exists k :: 0 <= k < |l| && l[k] == x
    ensures forall i, j :: 0 <= i < j < |l| ==> l[i] != l[j]
  {
    assert |l| == |multiset(l)| == |multiset(s)|;
    forall k | 0 <= k < |l| ensures l[k] in s {
      assert l[k] in multiset(l);
    }
    forall x | x in s ensures exists k :: 0 <= k < |l| && l[k] == x {
      assert x in multiset(l);
    }
    forall i, j | 0 <= i < j < |l| ensures l[i] != l[j] {
      if l[i] == l[j] {
        Twice(l, i, j);
      }
    }
  }

  lemma Twice<T>(l: seq<T>, i: nat, j: nat)
    requires i < j < |l| && l[i] == l[j]
    ensures multiset(l)[l[i]] >= 2
  {
    assert l == l[..j] + [l[j]] + l[j + 1..];
    assert l[..j][i] == l[i];
    assert l[i] in multiset(l[..j]);
  }

  lemma TakeOne<T>(all: set<T>, rest: set<T>, x: T)
    requires x in rest
    ensures x !in all - rest
    ensures all - (rest - {x}) == if x in all then (all - rest) + {x} else all - rest
  {
  }

  /** Going through a set one element at a time, listing those that also lie in `all`. */
  lemma ListsNext<T>(l: seq<T>, all: set<T>, rest: set<T>, x: T)
    requires Lists(l, all - rest) && x in rest
    ensures Lists(if x in all then l + [x] else l, all - (rest - {x}))
  {
    if x in all {
      ListsOneMore(l, all - rest, x);
      assert all - (rest - {x}) == (all - rest) + {x};
    } else {
      assert all - (rest - {x}) == all - rest;
    }
  }
}
