/** What fixes every score: distances, scaling, and when a score is 1. */
module SimilarityLaws {
  import opened Similarity

  // Products are written with Product, whose definition is hidden where only its laws matter.

  function Minus(a: seq<real>, b: seq<real>): (c: seq<real>)
    requires |a| == |b|
    ensures |c| == |a|
  {
    seq(|a|, i requires 0 <= i < |a| => a[i] - b[i])
  }

  function Times(k: real, a: seq<real>): (c: seq<real>)
    ensures |c| == |a|
  {
    seq(|a|, i requires 0 <= i < |a| => k * a[i])
  }

  /** The squared distance of two vectors. */
  function Distance(a: seq<real>, b: seq<real>): real
    requires |a| == |b|
  {
    Dot(Minus(a, b), Minus(a, b))
  }

  // ---------------------------------------------------------------- products

  lemma ProductComm(x: real, y: real)
    ensures Product(x, y) == Product(y, x)
  {
  }

  lemma ProductZero(x: real)
    ensures Product(0.0, x) == 0.0 && Product(x, 0.0) == 0.0
  {
  }

  lemma ProductOne(x: real)
    ensures Product(1.0, x) == x
  {
  }

  lemma ProductAssoc(x: real, y: real, z: real)
    ensures Product(Product(x, y), z) == Product(x, Product(y, z))
  {
  }

  lemma ProductSum(x: real, y: real, z: real)
    ensures Product(x, y + z) == Product(x, y) + Product(x, z)
  {
  }

  lemma SquareOfDifference(x: real, y: real)
    ensures Product(x - y, x - y) == Product(x, x) + Product(y, y) - 2.0 * Product(x, y)
  {
  }

  lemma QuotientIs(d: real, n: real)
    requires n != 0.0
    ensures Product(d / n, n) == d
  {
  }

  lemma ProductLess(x: real, y: real, n: real)
    requires x < y && n > 0.0
    ensures Product(x, n) < Product(y, n)
  {
    MulLess(x, y, n);
  }

  /** Positive factors cancel. */
  lemma CancelFactor(x: real, y: real, n: real)
    requires n > 0.0 && Product(x, n) == Product(y, n)
    ensures x == y
  {
    hide Product;
    if x < y {
      ProductLess(x, y, n);
    } else if y < x {
      ProductLess(y, x, n);
    }
  }

  /** Numbers that are not negative are equal if their squares are. */
  lemma SameSquare(x: real, y: real)
    requires x >= 0.0 && y >= 0.0 && Product(x, x) == Product(y, y)
    ensures x == y
  {
    assert Square(x) == Product(x, x) && Square(y) == Product(y, y);
    hide Square;
    hide Product;
    SquareMonotone(x, y);
    SquareMonotone(y, x);
  }

  // ---------------------------------------------------------------- dot products

  lemma DotHead(a: seq<real>, b: seq<real>)
    requires |a| == |b| > 0
    ensures Dot(a, b) == Product(a[0], b[0]) + Dot(a[1..], b[1..])
  {
  }

  lemma DotNothing()
    ensures Dot([], []) == 0.0
  {
  }

  lemma {:induction false} DotComm(a: seq<real>, b: seq<real>)
    requires |a| == |b|
    ensures Dot(a, b) == Dot(b, a)
  {
    hide Product;
    if a != [] {
      DotHead(a, b);
      DotHead(b, a);
      hide Dot;
      ProductComm(a[0], b[0]);
      DotComm(a[1..], b[1..]);
    }
  }

  lemma TimesTail(k: real, a: seq<real>)
    requires a != []
    ensures Times(k, a)[0] == Product(k, a[0]) && Times(k, a)[1..] == Times(k, a[1..])
  {
    var c, d := Times(k, a)[1..], Times(k, a[1..]);
    forall i | 0 <= i < |d| ensures c[i] == d[i] {
      assert c[i] == Times(k, a)[i + 1] && a[1..][i] == a[i + 1];
    }
  }

  lemma {:induction false} DotTimes(k: real, a: seq<real>, b: seq<real>)
    requires |a| == |b|
    ensures Dot(Times(k, a), b) == Product(k, Dot(a, b))
  {
    if a == [] {
      ProductZero(k);
    } else {
      var c := Times(k, a);
      TimesTail(k, a);
      DotHead(c, b);
      DotHead(a, b);
      DotTimes(k, a[1..], b[1..]);
      hide Dot;
      hide Times;
      hide Product;
      ProductAssoc(k, a[0], b[0]);
      ProductSum(k, Product(a[0], b[0]), Dot(a[1..], b[1..]));
    }
  }

  lemma {:induction false} DistanceIs(a: seq<real>, b: seq<real>)
    requires |a| == |b|
    ensures Distance(a, b) == Dot(a, a) + Dot(b, b) - 2.0 * Dot(a, b)
  {
    if a != [] {
      var c := Minus(a, b);
      assert c[0] == a[0] - b[0] && c[1..] == Minus(a[1..], b[1..]);
      DotHead(c, c);
      DotHead(a, a);
      DotHead(b, b);
      DotHead(a, b);
      DistanceIs(a[1..], b[1..]);
      hide Dot;
      hide Minus;
      hide Product;
      SquareOfDifference(a[0], b[0]);
    }
  }

  lemma {:induction false} DistanceZero(a: seq<real>, b: seq<real>)
    requires |a| == |b|
    ensures Distance(a, b) == 0.0 <==> a == b
  {
    var c := Minus(a, b);
    DotSelf(c);
    hide Dot;
    assert forall i :: 0 <= i < |a| ==> c[i] == a[i] - b[i];
    if Distance(a, b) == 0.0 {
      forall i | 0 <= i < |a| ensures a[i] == b[i] {
        assert c[i] == 0.0;
      }
    }
  }

  // ---------------------------------------------------------------- norms

  lemma NormSquared(sqrt: real -> real, a: seq<real>)
    requires IsSqrt(sqrt)
    ensures Norm(sqrt, a) >= 0.0 && Product(Norm(sqrt, a), Norm(sqrt, a)) == Dot(a, a)
  {
    hide Dot;
    NormSquare(sqrt, a);
  }

  lemma NormIs(sqrt: real -> real, a: seq<real>, n: real)
    requires IsSqrt(sqrt) && n >= 0.0 && Product(n, n) == Dot(a, a)
    ensures Norm(sqrt, a) == n
  {
    hide *;
    NormSquared(sqrt, a);
    SameSquare(Norm(sqrt, a), n);
  }

  lemma NormTimes(sqrt: real -> real, k: real, a: seq<real>)
    requires IsSqrt(sqrt) && k >= 0.0
    ensures Norm(sqrt, Times(k, a)) == Product(k, Norm(sqrt, a)) >= 0.0
  {
    hide *;
    var n := Norm(sqrt, a);
    NormSquared(sqrt, a);
    TimesSelf(k, a);
    ProductsNonNegative(k, n);
    SquareOfProduct(k, n);
    NormIs(sqrt, Times(k, a), Product(k, n));
  }

  lemma ProductsNonNegative(x: real, y: real)
    requires x >= 0.0 && y >= 0.0
    ensures Product(x, y) >= 0.0
  {
    ProductNonNegative(x, y);
  }

  lemma SquareOfProduct(k: real, n: real)
    ensures Product(Product(k, n), Product(k, n)) == Product(Product(k, k), Product(n, n))
  {
    assert (k * n) * (k * n) == (k * k) * (n * n);
  }

  lemma TimesSelf(k: real, a: seq<real>)
    ensures Dot(Times(k, a), Times(k, a)) == Product(Product(k, k), Dot(a, a))
  {
    hide Dot;
    hide Product;
    DotTimes(k, a, Times(k, a));
    DotComm(a, Times(k, a));
    DotTimes(k, a, a);
    ProductAssoc(k, k, Dot(a, a));
  }

  // ---------------------------------------------------------------- scores

  lemma RatioTimes(d: real, na: real, nb: real)
    requires na >= 0.0 && nb >= 0.0 && -Product(na, nb) <= d <= Product(na, nb)
    ensures Product(Ratio(d, na, nb), Product(na, nb)) == d
  {
    if na == 0.0 || nb == 0.0 {
      ProductZero(na);
      ProductZero(nb);
      ProductComm(na, nb);
      assert Product(na, nb) == 0.0;
      ProductZero(Ratio(d, na, nb));
    } else {
      ProductPositive(na, nb);
      QuotientIs(d, Product(na, nb));
      assert Product(na, nb) == na * nb;
    }
  }

  lemma DotBounds(sqrt: real -> real, a: seq<real>, b: seq<real>)
    requires IsSqrt(sqrt) && |a| == |b|
    ensures -Product(Norm(sqrt, a), Norm(sqrt, b)) <= Dot(a, b) <= Product(Norm(sqrt, a), Norm(sqrt, b))
  {
    hide Dot;
    hide Norm;
    hide IsSqrt;
    NormProduct(sqrt, a, b);
  }

  lemma CosineIs(sqrt: real -> real, a: seq<real>, b: seq<real>)
    requires |a| == |b|
    ensures Cosine(sqrt, a, b) == if a == [] then 0.0 else Ratio(Dot(a, b), Norm(sqrt, a), Norm(sqrt, b))
  {
    hide Dot;
    hide Norm;
    hide Ratio;
  }

  /** A score times the norms is the dot product. */
  lemma ScoreTimesNorms(sqrt: real -> real, a: seq<real>, b: seq<real>)
    requires IsSqrt(sqrt) && |a| == |b|
    ensures Product(Cosine(sqrt, a, b), Product(Norm(sqrt, a), Norm(sqrt, b))) == Dot(a, b)
  {
    hide *;
    CosineIs(sqrt, a, b);
    if a == [] {
      DotNothing();
      ProductZero(Product(Norm(sqrt, a), Norm(sqrt, b)));
    } else {
      NormSquared(sqrt, a);
      NormSquared(sqrt, b);
      DotBounds(sqrt, a, b);
      RatioTimes(Dot(a, b), Norm(sqrt, a), Norm(sqrt, b));
    }
  }

  /** The law of cosines: a score fixes, and is fixed by, the distance of its vectors. */
  lemma LawOfCosines(sqrt: real -> real, a: seq<real>, b: seq<real>)
    requires IsSqrt(sqrt) && |a| == |b|
    ensures Distance(a, b) == Dot(a, a) + Dot(b, b)
                              - 2.0 * Product(Cosine(sqrt, a, b), Product(Norm(sqrt, a), Norm(sqrt, b)))
  {
    hide *;
    ScoreTimesNorms(sqrt, a, b);
    DistanceIs(a, b);
  }

  /** For unit vectors the squared distance is 2 - 2 times the score, and the score is the dot product. */
  lemma UnitScore(sqrt: real -> real, a: seq<real>, b: seq<real>)
    requires IsSqrt(sqrt) && |a| == |b| && Dot(a, a) == 1.0 && Dot(b, b) == 1.0
    ensures Distance(a, b) == 2.0 - 2.0 * Cosine(sqrt, a, b)
    ensures Cosine(sqrt, a, b) == Dot(a, b)
  {
    hide *;
    ProductOne(1.0);
    NormIs(sqrt, a, 1.0);
    NormIs(sqrt, b, 1.0);
    ScoreTimesNorms(sqrt, a, b);
    ProductOne(Cosine(sqrt, a, b));
    ProductComm(1.0, Cosine(sqrt, a, b));
    DistanceIs(a, b);
  }

  lemma ScoreSymmetric(sqrt: real -> real, a: seq<real>, b: seq<real>)
    ensures Cosine(sqrt, a, b) == Cosine(sqrt, b, a)
  {
    if |a| == |b| {
      DotComm(a, b);
      CosineIs(sqrt, a, b);
      CosineIs(sqrt, b, a);
      hide Dot;
      hide Cosine;
      RatioSwap(Dot(a, b), Norm(sqrt, a), Norm(sqrt, b));
    }
  }

  lemma RatioSwap(d: real, na: real, nb: real)
    ensures Ratio(d, na, nb) == Ratio(d, nb, na)
  {
    assert na * nb == nb * na;
  }

  lemma RatioScaled(k: real, d: real, na: real, nb: real)
    requires k > 0.0 && na >= 0.0 && nb >= 0.0 && -Product(na, nb) <= d <= Product(na, nb)
    ensures Ratio(Product(k, d), Product(k, na), nb) == Ratio(d, na, nb)
  {
    if na == 0.0 || nb == 0.0 {
      ProductZero(k);
    } else {
      ProductPositive(k, na);
      ProductPositive(na, nb);
      ProductPositive(Product(k, na), nb);
      ProductAssoc(k, na, nb);
      ScaledBounds(k, d, Product(na, nb));
      RatioTimes(d, na, nb);
      RatioTimes(Product(k, d), Product(k, na), nb);
      hide Ratio;
      hide Product;
      var x, y, n := Ratio(d, na, nb), Ratio(Product(k, d), Product(k, na), nb), Product(na, nb);
      ProductAssoc(k, x, n);
      ProductAssoc(x, k, n);
      ProductComm(x, k);
      ProductPositive(k, n);
      CancelFactor(y, x, Product(k, n));
    }
  }

  lemma ScaledBounds(k: real, d: real, n: real)
    requires k > 0.0 && -n <= d <= n
    ensures -Product(k, n) <= Product(k, d) <= Product(k, n)
  {
    ProductMonotone(k, d, n);
    ProductMonotone(k, -n, d);
    assert Product(k, -n) == -Product(k, n);
  }

  lemma ProductMonotone(k: real, x: real, y: real)
    requires k > 0.0 && x <= y
    ensures Product(k, x) <= Product(k, y)
  {
    if x < y {
      ProductLess(x, y, k);
      ProductComm(k, x);
      ProductComm(k, y);
    }
  }

  /** Scaling a vector by a positive factor does not change its scores. */
  lemma ScaleInvariant(sqrt: real -> real, k: real, a: seq<real>, b: seq<real>)
    requires IsSqrt(sqrt) && k > 0.0
    ensures Cosine(sqrt, Times(k, a), b) == Cosine(sqrt, a, b)
  {
    if |a| == |b| && a != [] {
      hide *;
      CosineIs(sqrt, a, b);
      CosineIs(sqrt, Times(k, a), b);
      DotTimes(k, a, b);
      NormTimes(sqrt, k, a);
      NormSquared(sqrt, a);
      NormSquared(sqrt, b);
      DotBounds(sqrt, a, b);
      RatioScaled(k, Dot(a, b), Norm(sqrt, a), Norm(sqrt, b));
    }
  }

  // ---------------------------------------------------------------- when a score is 1

  lemma UnitOf(sqrt: real -> real, a: seq<real>, k: real)
    requires IsSqrt(sqrt) && Norm(sqrt, a) > 0.0 && k == 1.0 / Norm(sqrt, a)
    ensures k > 0.0 && Product(k, Norm(sqrt, a)) == 1.0 && Dot(Times(k, a), Times(k, a)) == 1.0
  {
    var n := Norm(sqrt, a);
    NormSquared(sqrt, a);
    TimesSelf(k, a);
    InversePositive(n, k);
    hide *;
    SquareOfProduct(k, n);
    ProductOne(1.0);
  }

  lemma InversePositive(n: real, k: real)
    requires n > 0.0 && k == 1.0 / n
    ensures k > 0.0 && Product(k, n) == 1.0
  {
    QuotientIs(1.0, n);
    if k <= 0.0 {
      ProductMonotone(n, k, 0.0);
      ProductComm(n, k);
      ProductZero(n);
    }
  }

  lemma UnitPair(sqrt: real -> real, a: seq<real>, b: seq<real>, k: real, l: real)
    requires IsSqrt(sqrt) && |a| == |b| && k > 0.0 && l > 0.0
    requires Dot(Times(k, a), Times(k, a)) == 1.0 && Dot(Times(l, b), Times(l, b)) == 1.0
    requires Cosine(sqrt, a, b) == 1.0
    ensures Times(k, a) == Times(l, b)
  {
    hide *;
    ScaleInvariant(sqrt, k, a, b);
    ScoreSymmetric(sqrt, Times(k, a), b);
    ScaleInvariant(sqrt, l, b, Times(k, a));
    ScoreSymmetric(sqrt, Times(l, b), Times(k, a));
    UnitScore(sqrt, Times(k, a), Times(l, b));
    DistanceZero(Times(k, a), Times(l, b));
  }

  lemma TimesBack(a: seq<real>, b: seq<real>, k: real, l: real, n: real)
    requires |a| == |b| && Times(k, a) == Times(l, b) && Product(k, n) == 1.0
    ensures a == Times(Product(n, l), b)
  {
    forall i | 0 <= i < |a| ensures a[i] == Product(Product(n, l), b[i]) {
      assert Times(k, a)[i] == Product(k, a[i]) && Times(l, b)[i] == Product(l, b[i]);
      Unfactor(k, n, a[i], l, b[i]);
    }
    assert forall i :: 0 <= i < |a| ==> Times(Product(n, l), b)[i] == Product(Product(n, l), b[i]);
    hide Product;
  }

  lemma Unfactor(k: real, n: real, x: real, l: real, y: real)
    requires Product(k, n) == 1.0 && Product(k, x) == Product(l, y)
    ensures x == Product(Product(n, l), y)
  {
    hide Product;
    ProductAssoc(n, l, y);
    ProductAssoc(n, k, x);
    ProductComm(n, k);
    ProductOne(x);
  }

  /** Two vectors that are not zero score 1 exactly when one is a positive multiple of the other. */
  lemma ScoreOneIff(sqrt: real -> real, a: seq<real>, b: seq<real>)
    requires IsSqrt(sqrt) && |a| == |b| && Norm(sqrt, a) > 0.0 && Norm(sqrt, b) > 0.0
    ensures Cosine(sqrt, a, b) == 1.0 <==> exists k :: k > 0.0 && a == Times(k, b)
  {
    if Cosine(sqrt, a, b) == 1.0 {
      var k, l := 1.0 / Norm(sqrt, a), 1.0 / Norm(sqrt, b);
      hide *;
      UnitOf(sqrt, a, k);
      UnitOf(sqrt, b, l);
      UnitPair(sqrt, a, b, k, l);
      TimesBack(a, b, k, l, Norm(sqrt, a));
      ProductPositive(Norm(sqrt, a), l);
    }
    if k :| k > 0.0 && a == Times(k, b) {
      hide *;
      ScaleInvariant(sqrt, k, b, b);
      SelfIsOne(sqrt, b);
    }
  }

  lemma SelfIsOne(sqrt: real -> real, b: seq<real>)
    requires IsSqrt(sqrt) && Norm(sqrt, b) > 0.0
    ensures Cosine(sqrt, b, b) == 1.0
  {
    SelfScore(sqrt, b);
    DotSelf(b);
    NormSquared(sqrt, b);
    ProductPositive(Norm(sqrt, b), Norm(sqrt, b));
    hide Cosine;
    hide Norm;
    hide Dot;
    hide Product;
  }

  /** The example the formula is read off from: [1, 0] and [3, 4] score 3/5. */
  lemma ThreeFifths(sqrt: real -> real)
    requires IsSqrt(sqrt)
    ensures Cosine(sqrt, [1.0, 0.0], [3.0, 4.0]) == 0.6
  {
    var a, b := [1.0, 0.0], [3.0, 4.0];
    assert a[1..] == [0.0] && b[1..] == [4.0] && a[1..][1..] == [] && b[1..][1..] == [];
    assert Dot(a, b) == 3.0 && Dot(a, a) == 1.0 && Dot(b, b) == 25.0;
    assert Product(1.0, 1.0) == 1.0 && Product(5.0, 5.0) == 25.0 && Product(1.0, 5.0) == 5.0;
    hide Dot;
    hide IsSqrt;
    hide Norm;
    NormIs(sqrt, a, 1.0);
    NormIs(sqrt, b, 5.0);
    ScoreTimesNorms(sqrt, a, b);
    assert Product(0.6, 5.0) == 3.0;
    hide Product;
    hide Cosine;
    CancelFactor(Cosine(sqrt, a, b), 0.6, 5.0);
  }
}
