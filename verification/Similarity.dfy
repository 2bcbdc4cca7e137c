/** Cosine similarity over exact reals. */
module Similarity {

  function Dot(a: seq<real>, b: seq<real>): real
    requires |a| == |b|
  {
    if a == [] then 0.0 else a[0] * b[0] + Dot(a[1..], b[1..])
  }

  /** An exact square root; floating-point rounding is not modelled. */
  ghost predicate IsSqrt(sqrt: real -> real) {
    forall x :: x >= 0.0 ==> sqrt(x) >= 0.0 && sqrt(x) * sqrt(x) == x
  }

  function Norm(sqrt: real -> real, a: seq<real>): real {
    sqrt(Dot(a, a))
  }

  function Cosine(sqrt: real -> real, a: seq<real>, b: seq<real>): real {
    if a == [] || b == [] || |a| != |b| then 0.0 else Ratio(Dot(a, b), Norm(sqrt, a), Norm(sqrt, b))
  }

  function Ratio(dot: real, na: real, nb: real): real {
    if na == 0.0 || nb == 0.0 then 0.0 else dot / (na * nb)
  }

  // ---------------------------------------------------------------- Cauchy-Schwarz

  // Products are compared through Square, whose definition is hidden where only the order matters.

  function Square(x: real): real { x * x }

  lemma MulPositive(p: real, q: real)
    requires p > 0.0 && q > 0.0
    ensures p * q > 0.0
  {
  }

  lemma MulLess(p: real, q: real, n: real)
    requires p < q && n > 0.0
    ensures p * n < q * n
  {
    MulPositive(q - p, n);
    assert (q - p) * n == q * n - p * n;
  }

  lemma MulZero(p: real, q: real)
    requires p == 0.0
    ensures p * q == 0.0
  {
    assert 0.0 * q == 0.0;
  }

  lemma SquareOfZero()
    ensures Square(0.0) == 0.0
  {
  }

  function Product(x: real, y: real): real { x * y }

  lemma ProductPositive(p: real, q: real)
    requires p > 0.0 && q > 0.0
    ensures Product(p, q) > 0.0
  {
    MulPositive(p, q);
  }

  lemma SquareProducts(x: real)
    ensures Square(x) == Product(x, x) == Product(-x, -x)
  {
  }

  lemma SquarePositive(x: real)
    requires x != 0.0
    ensures Square(x) > 0.0
  {
    hide Square;
    hide Product;
    SquareProducts(x);
    if x > 0.0 {
      ProductPositive(x, x);
    } else {
      ProductPositive(-x, -x);
    }
  }

  lemma SquareZero(x: real)
    ensures Square(x) >= 0.0 && (Square(x) == 0.0 <==> x == 0.0)
  {
    hide Square;
    SquareOfZero();
    if x != 0.0 {
      SquarePositive(x);
    }
  }

  lemma SquareLessPositive(p: real, q: real)
    requires 0.0 < p < q
    ensures Square(p) < Square(q)
  {
    MulLess(p, q, p);
    MulLess(p, q, q);
  }

  lemma SquareMonotone(p: real, q: real)
    requires p >= 0.0 && Square(q) <= Square(p)
    ensures q <= p && -q <= p
  {
    assert Square(-q) == Square(q);
    hide Square;
    SquareOfZero();
    SquareZero(q);
    if q > p {
      if p > 0.0 {
        SquareLessPositive(p, q);
      }
    }
    if -q > p {
      if p > 0.0 {
        SquareLessPositive(p, -q);
      }
    }
  }

  lemma ProductSquare(x: real, y: real)
    ensures Square(x * y) == (x * x) * (y * y)
  {
  }

  lemma TwiceProduct(u: real, v: real)
    ensures (u + v) * (u + v) == (u - v) * (u - v) + 4.0 * (u * v)
    ensures (u - v) * (u - v) >= 0.0
  {
  }

  lemma MixedTerm(d: real, a: real, b: real, x: real, y: real)
    requires a >= 0.0 && b >= 0.0 && d * d <= a * b
    ensures 2.0 * d * x * y <= a * (y * y) + b * (x * x)
  {
    var u, v, w := a * (y * y), b * (x * x), (x * y) * (x * y);
    assert x * x >= 0.0 && y * y >= 0.0 && w >= 0.0;
    assert u >= 0.0 && v >= 0.0;
    TwiceProduct(u, v);
    assert u * v == (a * b) * w by { Rearrange(a, b, x, y); }
    Scale(d * d, a * b, w);
    var q := 2.0 * d * x * y;
    assert q * q == 4.0 * ((d * d) * w) by { SquareOf(d, x, y); }
    assert Square(q) <= Square(u + v);
    SquareMonotone(u + v, q);
  }

  lemma Rearrange(a: real, b: real, x: real, y: real)
    ensures (a * (y * y)) * (b * (x * x)) == (a * b) * ((x * y) * (x * y))
  {
  }

  lemma SquareOf(d: real, x: real, y: real)
    ensures (2.0 * d * x * y) * (2.0 * d * x * y) == 4.0 * ((d * d) * ((x * y) * (x * y)))
  {
  }

  lemma Scale(p: real, q: real, w: real)
    requires p <= q && w >= 0.0
    ensures p * w <= q * w
  {
  }

  lemma OneMoreTerm(d: real, a: real, b: real, x: real, y: real)
    requires a >= 0.0 && b >= 0.0 && d * d <= a * b
    ensures (x * y + d) * (x * y + d) <= (x * x + a) * (y * y + b)
  {
    MixedTerm(d, a, b, x, y);
    assert (x * y + d) * (x * y + d) == (x * y) * (x * y) + 2.0 * d * x * y + d * d;
    assert (x * x + a) * (y * y + b) == (x * x) * (y * y) + a * (y * y) + b * (x * x) + a * b;
    assert (x * y) * (x * y) == (x * x) * (y * y);
  }

  lemma {:induction false} DotSelf(a: seq<real>)
    ensures Dot(a, a) >= 0.0
    ensures Dot(a, a) == 0.0 <==> forall i :: 0 <= i < |a| ==> a[i] == 0.0
  {
    if a != [] {
      DotSelf(a[1..]);
      SquareZero(a[0]);
      assert Square(a[0]) == a[0] * a[0];
      assert forall i :: 0 <= i < |a[1..]| ==> a[1..][i] == a[i + 1];
      if Dot(a, a) == 0.0 {
        forall i | 0 <= i < |a| ensures a[i] == 0.0 {
          assert i > 0 ==> a[1..][i - 1] == 0.0;
        }
      }
    }
  }

  lemma {:induction false} CauchySchwarz(a: seq<real>, b: seq<real>)
    requires |a| == |b|
    ensures Dot(a, b) * Dot(a, b) <= Dot(a, a) * Dot(b, b)
  {
    if a != [] {
      CauchySchwarz(a[1..], b[1..]);
      DotSelf(a[1..]);
      DotSelf(b[1..]);
      OneMoreTerm(Dot(a[1..], b[1..]), Dot(a[1..], a[1..]), Dot(b[1..], b[1..]), a[0], b[0]);
    }
  }

  // ---------------------------------------------------------------- scores

  lemma QuotientBounds(d: real, n: real)
    requires n > 0.0 && -n <= d <= n
    ensures -1.0 <= d / n <= 1.0
    ensures d >= 0.0 ==> d / n >= 0.0
    ensures d == n ==> d / n == 1.0
  {
    var r := d / n;
    assert r * n == d;
    assert 1.0 * n == n && -1.0 * n == -n && 0.0 * n == 0.0;
    if r > 1.0 {
      MulLess(1.0, r, n);
    }
    if r < -1.0 {
      MulLess(r, -1.0, n);
    }
    if r < 0.0 {
      MulLess(r, 0.0, n);
    }
  }

  lemma NormSquare(sqrt: real -> real, a: seq<real>)
    requires IsSqrt(sqrt)
    ensures Norm(sqrt, a) >= 0.0 && Norm(sqrt, a) * Norm(sqrt, a) == Dot(a, a)
  {
    DotSelf(a);
  }

  lemma ProductNonNegative(x: real, y: real)
    requires x >= 0.0 && y >= 0.0
    ensures x * y >= 0.0
  {
    if x > 0.0 && y > 0.0 {
      MulPositive(x, y);
    } else if x == 0.0 {
      MulZero(x, y);
    } else {
      MulZero(y, x);
    }
  }

  lemma NormProduct(sqrt: real -> real, a: seq<real>, b: seq<real>)
    requires IsSqrt(sqrt) && |a| == |b|
    ensures var n := Norm(sqrt, a) * Norm(sqrt, b); n >= 0.0 && -n <= Dot(a, b) <= n
  {
    hide Dot;
    hide Norm;
    NormSquare(sqrt, a);
    NormSquare(sqrt, b);
    CauchySchwarz(a, b);
    assert Square(Dot(a, b)) == Dot(a, b) * Dot(a, b);
    Bounded(Norm(sqrt, a), Norm(sqrt, b), Dot(a, a), Dot(b, b), Dot(a, b));
  }

  lemma Bounded(x: real, y: real, xx: real, yy: real, d: real)
    requires x >= 0.0 && y >= 0.0 && xx == x * x && yy == y * y && Square(d) <= xx * yy
    ensures x * y >= 0.0 && -(x * y) <= d <= x * y
  {
    ProductSquare(x, y);
    ProductNonNegative(x, y);
    SquareMonotone(x * y, d);
  }

  lemma RatioBounds(na: real, nb: real, d: real)
    requires na >= 0.0 && nb >= 0.0 && -(na * nb) <= d <= na * nb
    ensures -1.0 <= Ratio(d, na, nb) <= 1.0 && (d >= 0.0 ==> Ratio(d, na, nb) >= 0.0)
  {
    if na > 0.0 && nb > 0.0 {
      MulPositive(na, nb);
      QuotientBounds(d, na * nb);
    }
  }

  lemma RatioSign(na: real, nb: real, d: real)
    requires na >= 0.0 && nb >= 0.0 && -(na * nb) <= d <= na * nb
    ensures Ratio(d, na, nb) >= 0.0 <==> d >= 0.0
  {
    if na > 0.0 && nb > 0.0 {
      MulPositive(na, nb);
      var n := na * nb;
      var r := d / n;
      assert r * n == d;
      if r >= 0.0 {
        ProductNonNegative(r, n);
      } else {
        MulLess(r, 0.0, n);
      }
    } else if na == 0.0 {
      MulZero(na, nb);
    } else {
      MulZero(nb, na);
    }
  }

  /** Every score lies between -1 and 1, and is not negative exactly when the dot product is not, or there is none. */
  lemma ScoreBounds(sqrt: real -> real, a: seq<real>, b: seq<real>)
    requires IsSqrt(sqrt)
    ensures -1.0 <= Cosine(sqrt, a, b) <= 1.0
    ensures Cosine(sqrt, a, b) >= 0.0 <==> |a| != |b| || Dot(a, b) >= 0.0
  {
    assert a == [] && b == [] ==> Dot(a, b) == 0.0;
    hide Dot;
    hide IsSqrt;
    hide Norm;
    hide Ratio;
    if |a| == |b| {
      NormProduct(sqrt, a, b);
      NormSquare(sqrt, a);
      NormSquare(sqrt, b);
      RatioBounds(Norm(sqrt, a), Norm(sqrt, b), Dot(a, b));
      RatioSign(Norm(sqrt, a), Norm(sqrt, b), Dot(a, b));
    }
  }

  /** Opposite vectors score below zero. */
  lemma NegativeScore(sqrt: real -> real)
    requires IsSqrt(sqrt)
    ensures Cosine(sqrt, [1.0], [-1.0]) < 0.0
  {
    assert [1.0][1..] == [] && [-1.0][1..] == [];
    assert Dot([1.0], [-1.0]) == -1.0;
    ScoreBounds(sqrt, [1.0], [-1.0]);
  }

  lemma RatioOne(n: real, d: real)
    requires d == n * n
    ensures Ratio(d, n, n) == if n == 0.0 then 0.0 else 1.0
  {
    if n != 0.0 {
      SquarePositive(n);
      assert Square(n) == n * n;
      QuotientBounds(d, n * n);
    }
  }

  /** A vector scores 1 against itself unless it is zero. */
  lemma SelfScore(sqrt: real -> real, a: seq<real>)
    requires IsSqrt(sqrt)
    ensures Cosine(sqrt, a, a) == if exists i :: 0 <= i < |a| && a[i] != 0.0 then 1.0 else 0.0
  {
    DotSelf(a);
    NormSquare(sqrt, a);
    var n := Norm(sqrt, a);
    RatioOne(n, Dot(a, a));
    SquareZero(n);
    assert Square(n) == n * n;
    hide Dot;
    hide Ratio;
    hide Square;
    hide Norm;
  }
}
