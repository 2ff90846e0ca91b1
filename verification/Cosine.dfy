/** Cosine similarity over the reals. A norm is any square root of the sum of squares; the
    square root itself is the platform's. */
module Cosine {

  function Dot(a: seq<real>, b: seq<real>): real
    requires |a| == |b|
  {
    if a == [] then 0.0 else a[0] * b[0] + Dot(a[1..], b[1..])
  }

  ghost predicate IsNorm(a: seq<real>, n: real) {
    n >= 0.0 && n * n == Dot(a, a)
  }

  /** `na` and `nb` are the norms the code computes for `a` and `b`. */
  function Similarity(a: seq<real>, b: seq<real>, na: real, nb: real): real {
    if a == [] || b == [] || |a| != |b| then 0.0
    else if na == 0.0 || nb == 0.0 then 0.0
    else Dot(a, b) / (na * nb)
  }

  lemma {:induction false} DotSelfNonNegative(a: seq<real>)
    ensures Dot(a, a) >= 0.0
  {
    if a != [] {
      DotSelfNonNegative(a[1..]);
      assert a[0] * a[0] >= 0.0;
    }
  }

  lemma SquareGrows(u: real, v: real)
    requires 0.0 <= u < v
    ensures u * u < v * v
  {
    var w := v - u;
    assert w * w > 0.0 && u * w >= 0.0;
    assert v * v == u * u + w * w + 2.0 * (u * w);
  }

  /** A non-negative number whose square dominates another's square dominates it. */
  lemma BySquares(u: real, v: real)
    requires u >= 0.0 && v * v <= u * u
    ensures -u <= v <= u
  {
    if v > u {
      SquareGrows(u, v);
    } else if v < -u {
      SquareGrows(u, -v);
    }
  }

  /** The inductive step of Cauchy-Schwarz: the cross term is below the mixed squares. */
  lemma CrossTerm(p: real, q: real, d: real, x: real, y: real)
    requires p >= 0.0 && q >= 0.0 && d * d <= p * q
    ensures 2.0 * d * x * y <= p * y * y + q * x * x
  {
    var u, v := p * (y * y) + q * (x * x), 2.0 * d * x * y;
    var py, qx := p * (y * y), q * (x * x);
    assert y * y >= 0.0 && x * x >= 0.0;
    assert py >= 0.0 && qx >= 0.0;
    assert u * u - 4.0 * (py * qx) == (py - qx) * (py - qx);
    assert (py - qx) * (py - qx) >= 0.0;
    var xy := x * y;
    assert py * qx == (p * q) * (xy * xy);
    assert xy * xy >= 0.0;
    assert (p * q - d * d) * (xy * xy) >= 0.0;
    assert v * v == 4.0 * ((d * d) * (xy * xy));
    assert v * v <= u * u;
    BySquares(u, v);
  }

  /** For vectors of every length, the squared dot product is at most the product of the
      squared norms. */
  lemma {:induction false} CauchySchwarz(a: seq<real>, b: seq<real>)
    requires |a| == |b|
    ensures Dot(a, b) * Dot(a, b) <= Dot(a, a) * Dot(b, b)
  {
    if a != [] {
      var x, y, d, p, q := a[0], b[0], Dot(a[1..], b[1..]), Dot(a[1..], a[1..]), Dot(b[1..], b[1..]);
      CauchySchwarz(a[1..], b[1..]);
      DotSelfNonNegative(a[1..]);
      DotSelfNonNegative(b[1..]);
      StepBound(p, q, d, x, y, Dot(a, b), Dot(a, a), Dot(b, b));
    }
  }

  lemma StepBound(p: real, q: real, d: real, x: real, y: real, d': real, p': real, q': real)
    requires p >= 0.0 && q >= 0.0 && d * d <= p * q
    requires d' == x * y + d && p' == x * x + p && q' == y * y + q
    ensures d' * d' <= p' * q'
  {
    CrossTerm(p, q, d, x, y);
    Expand(p, q, d, x, y);
  }

  lemma Expand(p: real, q: real, d: real, x: real, y: real)
    ensures (x * x + p) * (y * y + q) - (x * y + d) * (x * y + d)
         == (p * q - d * d) + (p * y * y + q * x * x - 2.0 * d * x * y)
  {
  }

  /** Similarity lies between minus one and one. */
  lemma SimilarityIsBounded(a: seq<real>, b: seq<real>, na: real, nb: real)
    requires IsNorm(a, na) && IsNorm(b, nb)
    ensures -1.0 <= Similarity(a, b, na, nb) <= 1.0
  {
    if a != [] && |a| == |b| && na != 0.0 && nb != 0.0 {
      CauchySchwarz(a, b);
      var d, n := Dot(a, b), na * nb;
      assert n > 0.0;
      assert n * n == (na * na) * (nb * nb);
      BySquares(n, d);
      DivideBetween(d, n);
    }
  }

  lemma DivideBetween(d: real, n: real)
    requires n > 0.0 && -n <= d <= n
    ensures -1.0 <= d / n <= 1.0
  {
    var c := d / n;
    assert c * n == d;
    assert (c - 1.0) * n <= 0.0 && (c + 1.0) * n >= 0.0;
  }

  lemma {:induction false} DotIsSymmetric(a: seq<real>, b: seq<real>)
    requires |a| == |b|
    ensures Dot(a, b) == Dot(b, a)
  {
    if a != [] {
      DotIsSymmetric(a[1..], b[1..]);
    }
  }

  lemma SimilarityIsSymmetric(a: seq<real>, b: seq<real>, na: real, nb: real)
    ensures Similarity(a, b, na, nb) == Similarity(b, a, nb, na)
  {
    if |a| == |b| {
      DotIsSymmetric(a, b);
    }
    assert na * nb == nb * na;
  }

  function Scale(k: real, a: seq<real>): (r: seq<real>)
    ensures |r| == |a|
  {
    if a == [] then [] else [k * a[0]] + Scale(k, a[1..])
  }

  lemma FactorOut(k: real, x: real, y: real, t: real)
    ensures k * (x * y + t) == (k * x) * y + k * t
  {
    assert (k * x) * y == k * (x * y);
  }

  lemma {:induction false} DotOfScaled(k: real, a: seq<real>, b: seq<real>)
    requires |a| == |b|
    ensures Dot(Scale(k, a), b) == k * Dot(a, b)
  {
    if a != [] {
      DotOfScaled(k, a[1..], b[1..]);
      assert Scale(k, a)[1..] == Scale(k, a[1..]);
      FactorOut(k, a[0], b[0], Dot(a[1..], b[1..]));
    }
  }

  lemma ScaledNorm(k: real, a: seq<real>, na: real)
    requires k > 0.0 && IsNorm(a, na)
    ensures IsNorm(Scale(k, a), k * na)
  {
    DotOfScaled(k, a, Scale(k, a));
    DotIsSymmetric(a, Scale(k, a));
    DotOfScaled(k, a, a);
    var d := Dot(a, a);
    assert (k * na) * (k * na) == k * (k * (na * na));
  }

  /** Stretching either vector by a positive factor leaves the similarity unchanged. */
  lemma SimilarityIgnoresScale(k: real, a: seq<real>, b: seq<real>, na: real, nb: real)
    requires k > 0.0 && IsNorm(a, na) && IsNorm(b, nb)
    ensures IsNorm(Scale(k, a), k * na)
    ensures Similarity(Scale(k, a), b, k * na, nb) == Similarity(a, b, na, nb)
  {
    ScaledNorm(k, a, na);
    if a != [] && |a| == |b| {
      DotOfScaled(k, a, b);
      Quotients(k, Dot(a, b), na, nb);
    }
  }

  lemma Quotients(k: real, d: real, na: real, nb: real)
    requires k > 0.0 && na >= 0.0 && nb >= 0.0
    ensures k * na == 0.0 <==> na == 0.0
    ensures na != 0.0 && nb != 0.0 ==> na * nb != 0.0 && (k * na) * nb != 0.0 && (k * d) / ((k * na) * nb) == d / (na * nb)
  {
    if na != 0.0 && nb != 0.0 {
      assert na * nb > 0.0;
      CancelFactor(k, d, na * nb);
      assert (k * na) * nb == k * (na * nb);
    }
  }

  lemma CancelFactor(k: real, d: real, n: real)
    requires k > 0.0 && n > 0.0
    ensures k * n != 0.0 && (k * d) / (k * n) == d / n
  {
    var c := d / n;
    assert c * n == d;
    assert k * n > 0.0;
    assert c * (k * n) == k * d;
  }

  // ---------------------------------------------------------------------------------------
  // Every coordinate counts

  /** The product of joined vectors is the sum of their parts' products, down to single numbers. */
  lemma {:induction false} DotOfSum(a: seq<real>, b: seq<real>, c: seq<real>, d: seq<real>, x: real, y: real)
    requires |a| == |b| && |c| == |d|
    ensures Dot(a + c, b + d) == Dot(a, b) + Dot(c, d)
    ensures Dot([x], [y]) == x * y
  {
    assert [x][1..] == [] && [y][1..] == [];
    if a == [] {
      assert a + c == c && b + d == d;
    } else {
      DotOfSum(a[1..], b[1..], c, d, x, y);
      assert (a + c)[1..] == a[1..] + c && (b + d)[1..] == b[1..] + d;
    }
  }

  function Unit(n: nat, k: nat): (r: seq<real>)
    ensures |r| == n
  {
    seq(n, i => if i == k then 1.0 else 0.0)
  }

  lemma {:induction false} DotOfZeros(a: seq<real>, b: seq<real>)
    requires |a| == |b| && forall i :: 0 <= i < |b| ==> b[i] == 0.0
    ensures Dot(a, b) == 0.0
  {
    if a != [] {
      DotOfZeros(a[1..], b[1..]);
    }
  }

  /** The product with a unit vector is that coordinate. */
  lemma {:induction false} DotWithUnit(a: seq<real>, k: nat)
    requires k < |a|
    ensures Dot(a, Unit(|a|, k)) == a[k]
  {
    if k == 0 {
      DotOfZeros(a[1..], Unit(|a|, 0)[1..]);
    } else {
      DotWithUnit(a[1..], k - 1);
      assert Unit(|a|, k)[1..] == Unit(|a| - 1, k - 1);
    }
  }

  lemma {:induction false} SquareIsCounted(a: seq<real>, k: nat)
    requires k < |a|
    ensures a[k] * a[k] <= Dot(a, a)
  {
    if k == 0 {
      DotSelfNonNegative(a[1..]);
    } else {
      SquareIsCounted(a[1..], k - 1);
      assert a[0] * a[0] >= 0.0;
    }
  }

  lemma CoordinateIsZero(a: seq<real>, k: nat)
    requires k < |a| && Dot(a, a) == 0.0
    ensures a[k] == 0.0
  {
    SquareIsCounted(a, k);
    SquareIsPositive(a[k]);
  }

  /** The norm is zero exactly when every coordinate is. */
  lemma NormIsZeroExactlyWhen(a: seq<real>, na: real)
    requires IsNorm(a, na)
    ensures na == 0.0 <==> forall k :: 0 <= k < |a| ==> a[k] == 0.0
  {
    if na == 0.0 {
      forall k | 0 <= k < |a| ensures a[k] == 0.0 {
        CoordinateIsZero(a, k);
      }
    }
    if forall k :: 0 <= k < |a| ==> a[k] == 0.0 {
      DotOfZeros(a, a);
      SquareIsPositive(na);
    }
  }

  lemma SquareIsPositive(x: real)
    ensures x * x >= 0.0 && (x * x == 0.0 ==> x == 0.0)
  {
    if x > 0.0 {
      SquareGrows(0.0, x);
    } else if x < 0.0 {
      SquareGrows(0.0, -x);
      OppositeSquare(x, -x);
    }
  }

  lemma OppositeSquare(x: real, y: real)
    requires x == -y
    ensures x * x == y * y
  {
  }

  /** What the function returns, without a division: zero when there is nothing to compare, and otherwise
      the number whose multiple by both norms is the product. */
  lemma SimilarityExactly(a: seq<real>, b: seq<real>, na: real, nb: real, c: real)
    ensures |a| != |b| || a == [] || na == 0.0 || nb == 0.0 ==> Similarity(a, b, na, nb) == 0.0
    ensures |a| == |b| && a != [] && na != 0.0 && nb != 0.0 ==>
              (Similarity(a, b, na, nb) == c <==> c * (na * nb) == Dot(a, b))
  {
    if |a| == |b| && a != [] && na != 0.0 && nb != 0.0 {
      SimilarityIsQuotient(a, b, na, nb, c);
    }
  }

  lemma SimilarityIsQuotient(a: seq<real>, b: seq<real>, na: real, nb: real, c: real)
    requires |a| == |b| && a != [] && na != 0.0 && nb != 0.0
    ensures Similarity(a, b, na, nb) == c <==> c * (na * nb) == Dot(a, b)
  {
    ProductIsNotZero(na, nb);
    QuotientExactly(c, Dot(a, b), na * nb);
  }

  lemma ProductIsNotZero(x: real, y: real)
    requires x != 0.0 && y != 0.0
    ensures x * y != 0.0
  {
    if x * y == 0.0 {
      SameQuotient(x, 0.0, y);
    }
  }

  lemma QuotientExactly(c: real, d: real, n: real)
    requires n != 0.0
    ensures d / n == c <==> c * n == d
  {
    assert (d / n) * n == d;
    if c * n == d {
      SameQuotient(c, d / n, n);
    }
  }

  lemma SameQuotient(x: real, y: real, n: real)
    requires n != 0.0 && x * n == y * n
    ensures x == y
  {
    assert (x - y) * n == 0.0;
  }

  function Add(a: seq<real>, b: seq<real>): (r: seq<real>)
    requires |a| == |b|
    ensures |r| == |a|
    ensures forall i :: 0 <= i < |a| ==> r[i] == a[i] + b[i]
  {
    if a == [] then [] else [a[0] + b[0]] + Add(a[1..], b[1..])
  }

  lemma {:induction false} DotOfAdded(a: seq<real>, b: seq<real>, c: seq<real>)
    requires |a| == |b| == |c|
    ensures Dot(Add(a, b), c) == Dot(a, c) + Dot(b, c)
  {
    if a != [] {
      DotOfAdded(a[1..], b[1..], c[1..]);
      assert Add(a, b)[1..] == Add(a[1..], b[1..]);
      assert (a[0] + b[0]) * c[0] == a[0] * c[0] + b[0] * c[0];
    }
  }

  lemma SquareOfAdded(a: seq<real>, b: seq<real>)
    requires |a| == |b|
    ensures Dot(Add(a, b), Add(a, b)) == Dot(a, a) + 2.0 * Dot(a, b) + Dot(b, b)
  {
    var v := Add(a, b);
    DotOfAdded(a, b, v);
    DotIsSymmetric(a, v);
    DotIsSymmetric(b, v);
    DotOfAdded(a, b, a);
    DotOfAdded(a, b, b);
    DotIsSymmetric(a, b);
  }

  lemma DotOfTwoScaled(p: real, a: seq<real>, q: real, b: seq<real>)
    requires |a| == |b|
    ensures Dot(Scale(p, a), Scale(q, b)) == p * (q * Dot(a, b))
  {
    DotOfScaled(p, a, Scale(q, b));
    DotIsSymmetric(a, Scale(q, b));
    DotOfScaled(q, b, a);
    DotIsSymmetric(a, b);
  }

  lemma DistanceIs(a: seq<real>, b: seq<real>, x: real, y: real)
    requires |a| == |b|
    ensures var v := Add(Scale(y, a), Scale(-x, b));
            Dot(v, v) == y * (y * Dot(a, a)) + 2.0 * (y * (-x * Dot(a, b))) + -x * (-x * Dot(b, b))
  {
    SquareOfAdded(Scale(y, a), Scale(-x, b));
    DotOfTwoScaled(y, a, y, a);
    DotOfTwoScaled(y, a, -x, b);
    DotOfTwoScaled(-x, b, -x, b);
  }

  /** Stretched to the same length, two vectors with the product of their norms as product are equal. */
  lemma NoDistance(a: seq<real>, b: seq<real>, na: real, nb: real)
    requires |a| == |b| && IsNorm(a, na) && IsNorm(b, nb) && Dot(a, b) == na * nb
    ensures var v := Add(Scale(nb, a), Scale(-na, b)); Dot(v, v) == 0.0
  {
    DistanceIs(a, b, na, nb);
    Cancels(na, nb, Dot(a, a), Dot(a, b), Dot(b, b));
  }

  lemma Cancels(x: real, y: real, p: real, d: real, q: real)
    requires p == x * x && d == x * y && q == y * y
    ensures y * (y * p) + 2.0 * (y * (-x * d)) + -x * (-x * q) == 0.0
  {
    assert y * (y * p) == d * d;
    assert -x * (-x * q) == d * d;
    assert y * (-x * d) == -(d * d);
  }

  lemma {:induction false} ScaleAt(k: real, a: seq<real>, i: nat)
    requires i < |a|
    ensures Scale(k, a)[i] == k * a[i]
  {
    if i > 0 {
      ScaleAt(k, a[1..], i - 1);
    }
  }

  /** Two vectors that are not zero have similarity one exactly when one is a positive multiple of
      the other. */
  lemma SimilarityIsOneExactlyWhen(a: seq<real>, b: seq<real>, na: real, nb: real)
    requires |a| == |b| && IsNorm(a, na) && IsNorm(b, nb) && na != 0.0 && nb != 0.0
    ensures Similarity(a, b, na, nb) == 1.0 <==> exists k: real :: k > 0.0 && b == Scale(k, a)
  {
    assert na * nb > 0.0;
    SimilarityExactly(a, b, na, nb, 1.0);
    if Similarity(a, b, na, nb) == 1.0 {
      IsMultiple(a, b, na, nb);
    }
    if k: real :| k > 0.0 && b == Scale(k, a) {
      MultipleIsOne(a, b, na, nb, k);
    }
  }

  lemma IsMultiple(a: seq<real>, b: seq<real>, na: real, nb: real)
    requires |a| == |b| && IsNorm(a, na) && IsNorm(b, nb) && na > 0.0 && nb > 0.0 && Dot(a, b) == na * nb
    ensures nb / na > 0.0 && b == Scale(nb / na, a)
  {
    QuotientIsPositive(nb, na);
    NoDistance(a, b, na, nb);
    forall i | 0 <= i < |a| ensures b[i] == Scale(nb / na, a)[i] {
      MultipleAt(a, b, na, nb, i);
    }
  }

  lemma MultipleAt(a: seq<real>, b: seq<real>, x: real, y: real, i: nat)
    requires |a| == |b| && i < |a| && x > 0.0
    requires var v := Add(Scale(y, a), Scale(-x, b)); Dot(v, v) == 0.0
    ensures b[i] == Scale(y / x, a)[i]
  {
    CoordinateIsZero(Add(Scale(y, a), Scale(-x, b)), i);
    ScaledCoordinate(a, b, x, y, i);
  }

  lemma ScaledCoordinate(a: seq<real>, b: seq<real>, x: real, y: real, i: nat)
    requires |a| == |b| && i < |a| && x > 0.0 && Scale(y, a)[i] + Scale(-x, b)[i] == 0.0
    ensures b[i] == Scale(y / x, a)[i]
  {
    ScaleAt(y, a, i);
    ScaleAt(-x, b, i);
    ScaleAt(y / x, a, i);
    NegativeTimes(x, b[i]);
    QuotientTimesNumber(y, x, a[i], b[i]);
  }

  lemma QuotientIsPositive(d: real, n: real)
    requires d > 0.0 && n > 0.0
    ensures d / n > 0.0
  {
    FactorIsPositive(d / n, n);
  }

  lemma FactorIsPositive(k: real, n: real)
    requires n > 0.0 && k * n > 0.0
    ensures k > 0.0
  {
  }

  lemma NegativeTimes(x: real, y: real)
    ensures -x * y == -(x * y)
  {
  }

  lemma QuotientTimesNumber(d: real, n: real, x: real, y: real)
    requires n > 0.0 && n * y == d * x
    ensures y == d / n * x
  {
    var k := d / n;
    assert k * n == d;
    assert (k * x) * n == (k * n) * x;
    SameQuotient(y, k * x, n);
  }

  lemma MultipleIsOne(a: seq<real>, b: seq<real>, na: real, nb: real, k: real)
    requires |a| == |b| && IsNorm(a, na) && IsNorm(b, nb) && na > 0.0 && nb > 0.0 && k > 0.0 && b == Scale(k, a)
    ensures Dot(a, b) == na * nb
  {
    ScaledNorm(k, a, na);
    DotOfScaled(k, a, a);
    DotIsSymmetric(a, b);
    SameSquare(k * na, nb);
    assert k * (na * na) == na * (k * na);
  }

  lemma SameSquare(x: real, y: real)
    requires x >= 0.0 && y >= 0.0 && x * x == y * y
    ensures x == y
  {
    if x < y {
      SquareGrows(x, y);
    } else if y < x {
      SquareGrows(y, x);
    }
  }

  /** A vector that is not zero has similarity one with itself. */
  lemma SelfSimilarityIsOne(a: seq<real>, na: real, k: nat)
    requires k < |a| && a[k] != 0.0 && IsNorm(a, na)
    ensures na > 0.0 && Similarity(a, a, na, na) == 1.0
  {
    NormIsZeroExactlyWhen(a, na);
    SquareIsPositive(na);
    SimilarityExactly(a, a, na, na, 1.0);
  }
}
