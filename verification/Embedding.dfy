/** The deterministic embedding of a text, over exact reals. */
module Embedding {
  import opened Prelude
  import opened Ordering
  import opened Similarity
  import SimilarityLaws

  // ---------------------------------------------------------------- text

  predicate Blank(text: string) {
    forall i :: 0 <= i < |text| ==> IsWhite(text[i])
  }

  /** UTF-8. */
  function Encode(c: char): (bs: seq<Byte>)
    ensures bs != [] && (c == 0 as char ==> bs == [0]) && (c != 0 as char ==> bs[0] != 0)
  {
    var n := c as int;
    if n < 0x80 then [n]
    else if n < 0x800 then [0xC0 + n / 0x40, 0x80 + n % 0x40]
    else if n < 0x10000 then [0xE0 + n / 0x1000, 0x80 + n / 0x40 % 0x40, 0x80 + n % 0x40]
    else [0xF0 + n / 0x40000, 0x80 + n / 0x1000 % 0x40, 0x80 + n / 0x40 % 0x40, 0x80 + n % 0x40]
  }

  function Bytes(text: string): seq<Byte> {
    if text == "" then [] else Encode(text[0]) + Bytes(text[1..])
  }

  // ---------------------------------------------------------------- the embedding

  /** Exclusive or, bit by bit. */
  function Xor(a: nat, b: nat): nat {
    if a == 0 && b == 0 then 0 else 2 * Xor(a / 2, b / 2) + (a + b) % 2
  }

  const WORD: nat := 0x1_0000_0000_0000_0000

  /** The position byte `b` at `index` contributes to, in wrapping 64-bit arithmetic. */
  function Slot(index: nat, b: Byte, dims: nat): (slot: nat)
    requires dims > 0
    ensures slot < dims
  {
    Xor(index * 17 % WORD, b * 31 % WORD) % dims
  }

  /** Bit `k` of a number. */
  function Bit(a: nat, k: nat): nat {
    if k == 0 then a % 2 else Bit(a / 2, k - 1)
  }

  lemma XorHalf(a: nat, b: nat)
    ensures Xor(a, b) / 2 == Xor(a / 2, b / 2) && Xor(a, b) % 2 == (a + b) % 2
  {
  }

  /** Exclusive or adds each pair of bits without carry. */
  lemma {:induction false} XorBits(a: nat, b: nat, k: nat)
    ensures Bit(Xor(a, b), k) == (Bit(a, k) + Bit(b, k)) % 2
    decreases k
  {
    hide Xor;
    XorHalf(a, b);
    if k > 0 {
      XorBits(a / 2, b / 2, k - 1);
    }
  }

  lemma {:induction false} XorZero(a: nat)
    ensures Xor(a, 0) == a && Xor(0, a) == a
  {
    if a > 0 {
      XorZero(a / 2);
    }
  }

  lemma {:induction false} XorBack(a: nat, b: nat)
    ensures Xor(Xor(a, b), a) == b
    decreases a + b
  {
    if a > 0 || b > 0 {
      hide Xor;
      var x := Xor(a, b);
      XorHalf(a, b);
      XorHalf(x, a);
      XorBack(a / 2, b / 2);
      Halves(Xor(x, a), x, a, b);
    }
  }

  lemma Halves(y: nat, x: nat, a: nat, b: nat)
    requires x % 2 == (a + b) % 2 && y % 2 == (x + a) % 2 && y / 2 == b / 2
    ensures y == b
  {
  }

  lemma Small(x: nat, n: nat)
    requires x < n
    ensures x % n == x
  {
  }

  /** A position follows from 17 times the index alone for a NUL, from 31 times the byte alone at the start; and where
      there is room for them, different bytes at one index go to different positions. */
  lemma SlotIs(index: nat, b: Byte, c: Byte, dims: nat)
    requires dims > 0
    ensures Slot(index, 0, dims) == index * 17 % WORD % dims && Slot(0, b, dims) == b * 31 % dims
    ensures dims > Xor(index * 17 % WORD, b * 31) && dims > Xor(index * 17 % WORD, c * 31) ==>
              (Slot(index, b, dims) == Slot(index, c, dims) <==> b == c)
  {
    hide Xor;
    var x := index * 17 % WORD;
    Small(b * 31, WORD);
    Small(c * 31, WORD);
    XorZero(x);
    XorZero(b * 31);
    XorBack(x, b * 31);
    XorBack(x, c * 31);
    if dims > Xor(x, b * 31) && dims > Xor(x, c * 31) {
      Small(Xor(x, b * 31), dims);
      Small(Xor(x, c * 31), dims);
    }
  }

  /** The vector accumulated from the first `n` bytes. */
  function Accumulated(bytes: seq<Byte>, n: nat, dims: nat): (v: seq<real>)
    requires n <= |bytes| && dims > 0
    ensures |v| == dims
  {
    if n == 0 then seq(dims, _ => 0.0)
    else
      var v := Accumulated(bytes, n - 1, dims);
      var slot := Slot(n - 1, bytes[n - 1], dims);
      v[slot := v[slot] + bytes[n - 1] as real / 255.0]
  }

  function Scaled(v: seq<real>, n: real): (w: seq<real>)
    requires n != 0.0
    ensures |w| == |v|
  {
    seq(|v|, i requires 0 <= i < |v| => v[i] / n)
  }

  function Normalized(sqrt: real -> real, v: seq<real>): seq<real> {
    if Norm(sqrt, v) > 0.0 then Scaled(v, Norm(sqrt, v)) else v
  }

  function EmbeddingOf(sqrt: real -> real, text: string, dims: nat): seq<real>
    requires dims > 0
  {
    Normalized(sqrt, Accumulated(Bytes(text), |Bytes(text)|, dims))
  }

  method Accumulate(embedding: array<real>, bytes: seq<Byte>)
    requires embedding.Length > 0 && forall i :: 0 <= i < embedding.Length ==> embedding[i] == 0.0
    modifies embedding
    ensures embedding[..] == Accumulated(bytes, |bytes|, embedding.Length)
  {
    hide Slot;
    assert embedding[..] == Accumulated(bytes, 0, embedding.Length);
    for index := 0 to |bytes|
      invariant embedding[..] == Accumulated(bytes, index, embedding.Length)
    {
      var slot := Slot(index, bytes[index], embedding.Length);
      embedding[slot] := embedding[slot] + bytes[index] as real / 255.0;
    }
  }

  method Normalize(sqrt: real -> real, embedding: array<real>)
    modifies embedding
    ensures embedding[..] == Normalized(sqrt, old(embedding[..]))
  {
    hide Dot;
    var norm := Norm(sqrt, embedding[..]);
    if norm > 0.0 {
      for i := 0 to embedding.Length
        invariant forall k :: 0 <= k < i ==> embedding[k] == old(embedding[k]) / norm
        invariant forall k :: i <= k < embedding.Length ==> embedding[k] == old(embedding[k])
      {
        embedding[i] := embedding[i] / norm;
      }
    }
  }

  method DeterministicEmbedding(sqrt: real -> real, text: string, dims: nat) returns (r: Result<seq<real>>)
    ensures r == if Blank(text) || dims == 0 then Err(Validation) else Ok(EmbeddingOf(sqrt, text, dims))
  {
    if Blank(text) {
      return Err(Validation);
    }
    if dims == 0 {
      return Err(Validation);
    }
    var embedding := new real[dims](_ => 0.0);
    Accumulate(embedding, Bytes(text));
    Normalize(sqrt, embedding);
    return Ok(embedding[..]);
  }

  // ---------------------------------------------------------------- non-negative, and zero only for NULs

  ghost predicate NonNegative(v: seq<real>) {
    forall i :: 0 <= i < |v| ==> v[i] >= 0.0
  }

  ghost predicate NonZero(v: seq<real>) {
    exists i :: 0 <= i < |v| && v[i] != 0.0
  }

  lemma {:induction false} AccumulatedSigns(bytes: seq<Byte>, n: nat, dims: nat)
    requires n <= |bytes| && dims > 0
    ensures NonNegative(Accumulated(bytes, n, dims))
    ensures NonZero(Accumulated(bytes, n, dims)) <==> exists k :: 0 <= k < n && bytes[k] != 0
  {
    hide Slot;
    if n > 0 {
      AccumulatedSigns(bytes, n - 1, dims);
      var v := Accumulated(bytes, n - 1, dims);
      var slot := Slot(n - 1, bytes[n - 1], dims);
      AddedSigns(v, slot, bytes[n - 1]);
      if exists k :: 0 <= k < n && bytes[k] != 0 {
        var k :| 0 <= k < n && bytes[k] != 0;
        assert k < n - 1 || bytes[n - 1] != 0;
      }
    }
  }

  lemma AddedSigns(v: seq<real>, slot: nat, b: Byte)
    requires NonNegative(v) && slot < |v|
    ensures var w := v[slot := v[slot] + b as real / 255.0]; NonNegative(w) && (NonZero(w) <==> NonZero(v) || b != 0)
  {
    var x := b as real / 255.0;
    assert x >= 0.0 && (x == 0.0 <==> b == 0);
    var w := v[slot := v[slot] + x];
    if NonZero(v) {
      var i :| 0 <= i < |v| && v[i] != 0.0;
      assert w[i] != 0.0;
    } else if b != 0 {
      assert w[slot] != 0.0;
    } else {
      assert w == v;
    }
  }

  lemma {:induction false} BytesZero(text: string)
    ensures (forall k :: 0 <= k < |Bytes(text)| ==> Bytes(text)[k] == 0)
            <==> forall i :: 0 <= i < |text| ==> text[i] == 0 as char
  {
    if text != "" {
      BytesZero(text[1..]);
      var head, tail := Encode(text[0]), Bytes(text[1..]);
      assert forall i :: 0 <= i < |text[1..]| ==> text[1..][i] == text[i + 1];
      if forall k :: 0 <= k < |Bytes(text)| ==> Bytes(text)[k] == 0 {
        assert Bytes(text)[0] == head[0];
        forall k | 0 <= k < |tail| ensures tail[k] == 0 {
          assert Bytes(text)[|head| + k] == tail[k];
        }
      }
      if forall i :: 0 <= i < |text| ==> text[i] == 0 as char {
        assert text[0] == 0 as char;
        forall k | 0 <= k < |Bytes(text)| ensures Bytes(text)[k] == 0 {
          assert head == [0] && (k > 0 ==> Bytes(text)[k] == tail[k - 1]);
        }
      }
    }
  }

  // ---------------------------------------------------------------- unit norm

  // Products are written with Product, whose definition is hidden where only its laws matter.

  lemma Unscale(x: real, m: real)
    requires m > 0.0
    ensures Product(x / m, m) == x
  {
  }

  lemma Interchange(p: real, q: real, m: real, n: real)
    ensures Product(Product(p, q), Product(m, n)) == Product(Product(p, m), Product(q, n))
  {
    assert (p * q) * (m * n) == (p * m) * (q * n);
  }

  lemma Distribute(a: real, d: real, b: real)
    ensures Product(a + d, b) == Product(a, b) + Product(d, b)
  {
  }

  lemma DotStep(v: seq<real>, w: seq<real>)
    requires |v| == |w| > 0
    ensures Dot(v, w) == Product(v[0], w[0]) + Dot(v[1..], w[1..])
  {
  }

  lemma ScaledStep(v: seq<real>, m: real)
    requires v != [] && m > 0.0
    ensures Scaled(v, m)[0] == v[0] / m && Scaled(v, m)[1..] == Scaled(v[1..], m)
  {
  }

  lemma ProductOfZero(x: real)
    ensures Product(0.0, x) == 0.0
  {
  }

  /** Scaling back: quotients without dividing. */
  lemma {:induction false} DotScaled(v: seq<real>, w: seq<real>, m: real, n: real)
    requires |v| == |w| && m > 0.0 && n > 0.0
    ensures Product(Dot(Scaled(v, m), Scaled(w, n)), Product(m, n)) == Dot(v, w)
  {
    hide Product;
    if v == [] {
      ProductOfZero(Product(m, n));
    } else {
      hide Dot;
      hide Scaled;
      ScaledStep(v, m);
      ScaledStep(w, n);
      DotStep(Scaled(v, m), Scaled(w, n));
      DotStep(v, w);
      DotScaled(v[1..], w[1..], m, n);
      var p, q := v[0] / m, w[0] / n;
      Unscale(v[0], m);
      Unscale(w[0], n);
      Distribute(Product(p, q), Dot(Scaled(v[1..], m), Scaled(w[1..], n)), Product(m, n));
      Interchange(p, q, m, n);
    }
  }

  lemma ScaledSigns(v: seq<real>, n: real)
    requires NonNegative(v) && n > 0.0
    ensures NonNegative(Scaled(v, n)) && (NonZero(Scaled(v, n)) <==> NonZero(v))
  {
    forall i | 0 <= i < |v| ensures v[i] / n >= 0.0 && (v[i] / n == 0.0 <==> v[i] == 0.0) {
      QuotientSign(v[i], n);
    }
    assert forall i :: 0 <= i < |v| ==> Scaled(v, n)[i] == v[i] / n;
    if NonZero(v) {
      var i :| 0 <= i < |v| && v[i] != 0.0;
      assert Scaled(v, n)[i] != 0.0;
    }
    if NonZero(Scaled(v, n)) {
      var i :| 0 <= i < |v| && Scaled(v, n)[i] != 0.0;
      assert v[i] != 0.0;
    }
  }

  lemma QuotientSign(x: real, n: real)
    requires x >= 0.0 && n > 0.0
    ensures x / n >= 0.0 && (x / n == 0.0 <==> x == 0.0)
  {
    var r := x / n;
    assert r * n == x;
    if r < 0.0 {
      MulLess(r, 0.0, n);
    }
  }

  lemma Cancel(d: real, n: real)
    requires n > 0.0 && Product(d, n) == n
    ensures d == 1.0
  {
    if d < 1.0 {
      MulLess(d, 1.0, n);
    } else if d > 1.0 {
      MulLess(1.0, d, n);
    }
  }

  lemma NormProductIs(sqrt: real -> real, v: seq<real>)
    requires IsSqrt(sqrt)
    ensures Product(Norm(sqrt, v), Norm(sqrt, v)) == Dot(v, v)
  {
    hide Dot;
    NormSquare(sqrt, v);
  }

  lemma UnitSquare(sqrt: real -> real, v: seq<real>)
    requires IsSqrt(sqrt) && Norm(sqrt, v) > 0.0
    ensures Dot(Scaled(v, Norm(sqrt, v)), Scaled(v, Norm(sqrt, v))) == 1.0
  {
    hide Dot;
    hide Norm;
    hide IsSqrt;
    hide Scaled;
    hide Product;
    var n := Norm(sqrt, v);
    NormProductIs(sqrt, v);
    ProductPositive(n, n);
    DotScaled(v, v, n, n);
    Cancel(Dot(Scaled(v, n), Scaled(v, n)), Product(n, n));
  }

  lemma NormPositive(sqrt: real -> real, v: seq<real>)
    requires IsSqrt(sqrt)
    ensures Norm(sqrt, v) > 0.0 <==> NonZero(v)
  {
    DotSelf(v);
    NormSquare(sqrt, v);
    SquareZero(Norm(sqrt, v));
    assert Square(Norm(sqrt, v)) == Norm(sqrt, v) * Norm(sqrt, v);
    hide Square;
    hide Norm;
    hide Dot;
  }

  /** Normalizing keeps the signs and makes a non-zero vector one of unit norm. */
  lemma NormalizedIsUnit(sqrt: real -> real, v: seq<real>)
    requires IsSqrt(sqrt) && NonNegative(v)
    ensures var e := Normalized(sqrt, v);
            && |e| == |v| && NonNegative(e) && (NonZero(e) <==> NonZero(v))
            && Dot(e, e) == if NonZero(v) then 1.0 else 0.0
  {
    NormPositive(sqrt, v);
    DotSelf(v);
    if Norm(sqrt, v) > 0.0 {
      ScaledSigns(v, Norm(sqrt, v));
      UnitSquare(sqrt, v);
      hide Dot;
      hide Norm;
      hide NonNegative;
      hide NonZero;
      hide IsSqrt;
    } else {
      hide Dot;
      hide Norm;
      hide IsSqrt;
    }
  }

  ghost predicate HasText(text: string) {
    exists i :: 0 <= i < |text| && text[i] != 0 as char
  }

  /** Some byte is not zero if and only if some character is not NUL. */
  lemma BytesNonZero(text: string)
    ensures (exists k :: 0 <= k < |Bytes(text)| && Bytes(text)[k] != 0) <==> HasText(text)
  {
    BytesZero(text);
    hide Bytes;
  }

  lemma TextSigns(text: string, dims: nat)
    requires dims > 0
    ensures var v := Accumulated(Bytes(text), |Bytes(text)|, dims);
            |v| == dims && NonNegative(v) && (NonZero(v) <==> HasText(text))
  {
    hide *;
    AccumulatedSigns(Bytes(text), |Bytes(text)|, dims);
    BytesNonZero(text);
  }

  lemma EmbeddingSigns(sqrt: real -> real, text: string, dims: nat)
    requires IsSqrt(sqrt) && dims > 0
    ensures var e := EmbeddingOf(sqrt, text, dims);
            && |e| == dims && NonNegative(e) && (NonZero(e) <==> HasText(text))
            && Dot(e, e) == if HasText(text) then 1.0 else 0.0
  {
    assert EmbeddingOf(sqrt, text, dims) == Normalized(sqrt, Accumulated(Bytes(text), |Bytes(text)|, dims));
    hide *;
    TextSigns(text, dims);
    NormalizedIsUnit(sqrt, Accumulated(Bytes(text), |Bytes(text)|, dims));
  }

  /** An embedding is non-negative; it has unit norm if the text holds anything but NULs, and is zero otherwise. */
  lemma EmbeddingIsUnit(sqrt: real -> real, text: string, dims: nat)
    requires IsSqrt(sqrt) && dims > 0
    ensures var e := EmbeddingOf(sqrt, text, dims);
            && |e| == dims && NonNegative(e)
            && (NonZero(e) <==> exists i :: 0 <= i < |text| && text[i] != 0 as char)
            && Dot(e, e) == if NonZero(e) then 1.0 else 0.0
  {
    assert HasText(text) <==> exists i :: 0 <= i < |text| && text[i] != 0 as char;
    hide *;
    EmbeddingSigns(sqrt, text, dims);
  }

  lemma {:induction false} DotNonNegative(a: seq<real>, b: seq<real>)
    requires |a| == |b| && NonNegative(a) && NonNegative(b)
    ensures Dot(a, b) >= 0.0
  {
    if a != [] {
      DotNonNegative(a[1..], b[1..]);
      ProductNonNegative(a[0], b[0]);
    }
  }

  /** Any two embeddings score between 0 and 1, and an embedding that is not zero scores 1 against itself. */
  lemma EmbeddingScores(sqrt: real -> real, text: string, text': string, dims: nat, dims': nat)
    requires IsSqrt(sqrt) && dims > 0 && dims' > 0
    ensures var e, e' := EmbeddingOf(sqrt, text, dims), EmbeddingOf(sqrt, text', dims');
            && 0.0 <= Cosine(sqrt, e, e') <= 1.0
            && ((exists i :: 0 <= i < |text| && text[i] != 0 as char) ==> Cosine(sqrt, e, e) == 1.0)
  {
    var e, e' := EmbeddingOf(sqrt, text, dims), EmbeddingOf(sqrt, text', dims');
    EmbeddingIsUnit(sqrt, text, dims);
    EmbeddingIsUnit(sqrt, text', dims');
    hide EmbeddingOf;
    ScoreBounds(sqrt, e, e');
    SelfScore(sqrt, e);
    if |e| == |e'| {
      DotNonNegative(e, e');
    }
  }

  /** Two embeddings of one dimension that are not zero score their dot product, and lie the closer the higher. */
  lemma EmbeddingDistance(sqrt: real -> real, text: string, text': string, dims: nat)
    requires IsSqrt(sqrt) && dims > 0
    requires exists i :: 0 <= i < |text| && text[i] != 0 as char
    requires exists i :: 0 <= i < |text'| && text'[i] != 0 as char
    ensures var e, e' := EmbeddingOf(sqrt, text, dims), EmbeddingOf(sqrt, text', dims);
            && |e| == |e'| && Cosine(sqrt, e, e') == Dot(e, e')
            && SimilarityLaws.Distance(e, e') == 2.0 - 2.0 * Cosine(sqrt, e, e')
  {
    EmbeddingIsUnit(sqrt, text, dims);
    EmbeddingIsUnit(sqrt, text', dims);
    hide EmbeddingOf;
    hide Dot;
    SimilarityLaws.UnitScore(sqrt, EmbeddingOf(sqrt, text, dims), EmbeddingOf(sqrt, text', dims));
  }

  // ---------------------------------------------------------------- what is accumulated

  /** The bytes that go to position `slot`, added up and divided by 255. */
  function SumAt(bytes: seq<Byte>, n: nat, dims: nat, slot: nat): real
    requires n <= |bytes| && dims > 0
  {
    if n == 0 then 0.0
    else
      SumAt(bytes, n - 1, dims, slot)
      + if Slot(n - 1, bytes[n - 1], dims) == slot then bytes[n - 1] as real / 255.0 else 0.0
  }

  lemma {:induction false} AccumulatedIs(bytes: seq<Byte>, n: nat, dims: nat, slot: nat)
    requires n <= |bytes| && slot < dims
    ensures Accumulated(bytes, n, dims)[slot] == SumAt(bytes, n, dims, slot)
  {
    hide Slot;
    if n > 0 {
      AccumulatedIs(bytes, n - 1, dims, slot);
    }
  }

  /** The code point a UTF-8 sequence starts with. */
  function Decode(bs: seq<int>): int
    requires bs != []
  {
    if bs[0] < 0x80 then bs[0]
    else if bs[0] < 0xE0 && |bs| > 1 then (bs[0] - 0xC0) * 0x40 + (bs[1] - 0x80)
    else if bs[0] < 0xF0 && |bs| > 2 then (bs[0] - 0xE0) * 0x1000 + (bs[1] - 0x80) * 0x40 + (bs[2] - 0x80)
    else if |bs| > 3 then
      (bs[0] - 0xF0) * 0x40000 + (bs[1] - 0x80) * 0x1000 + (bs[2] - 0x80) * 0x40 + (bs[3] - 0x80)
    else 0
  }

  /** Base-64 digits add up to the number they are digits of. */
  lemma Digits(n: nat)
    ensures n == n / 0x40 * 0x40 + n % 0x40
    ensures n / 0x40 == n / 0x1000 * 0x40 + n / 0x40 % 0x40
    ensures n / 0x1000 == n / 0x40000 * 0x40 + n / 0x1000 % 0x40
  {
    assert n / 0x1000 == n / 0x40 / 0x40;
    assert n / 0x40000 == n / 0x1000 / 0x40;
  }

  /** Encoding and decoding a character gives it back. */
  lemma EncodeRoundTrip(c: char)
    ensures Decode(Encode(c)) == c as int
  {
    var n := c as int;
    Digits(n);
    var a, b, d, e := n / 0x40000, n / 0x1000 % 0x40, n / 0x40 % 0x40, n % 0x40;
    if n < 0x80 {
      assert Encode(c) == [n];
    } else if n < 0x800 {
      assert Encode(c) == [0xC0 + n / 0x40, 0x80 + e];
    } else if n < 0x10000 {
      assert Encode(c) == [0xE0 + n / 0x1000, 0x80 + d, 0x80 + e];
    } else {
      assert Encode(c) == [0xF0 + a, 0x80 + b, 0x80 + d, 0x80 + e];
    }
  }

  /** Every byte behind the first lies in 80..BF. */
  lemma ContinuationBytes(c: char, k: nat)
    requires 1 <= k < |Encode(c)|
    ensures 0x80 <= Encode(c)[k] < 0xC0
  {
  }
}
