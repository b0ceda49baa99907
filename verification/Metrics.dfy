/**
 * The distance functions of internal/storage/vector.go over the reals. The square root is a parameter:
 * any function that gives nonnegative roots of nonnegative numbers.
 */
module Metrics {

  const MAX_FLOAT32: real := 340282346638528859811704183484516925440.0

  ghost predicate IsSqrt(sqrt: real -> real) {
    forall x :: x >= 0.0 ==> sqrt(x) >= 0.0 && sqrt(x) * sqrt(x) == x
  }

  // ----- Specification -----

  function Dot(a: seq<real>, b: seq<real>): real
    requires |a| == |b|
  {
    if a == [] then 0.0
    else Dot(a[..|a| - 1], b[..|b| - 1]) + a[|a| - 1] * b[|b| - 1]
  }

  function Minus(a: seq<real>, b: seq<real>): (d: seq<real>)
    requires |a| == |b|
    ensures |d| == |a| && forall i :: 0 <= i < |a| ==> d[i] == a[i] - b[i]
  {
    seq(|a|, i requires 0 <= i < |a| => a[i] - b[i])
  }

  function Scaled(t: real, a: seq<real>): (s: seq<real>)
    ensures |s| == |a| && forall i :: 0 <= i < |a| ==> s[i] == t * a[i]
  {
    seq(|a|, i requires 0 <= i < |a| => t * a[i])
  }

  function Ratio(x: real, y: real): real {
    if y == 0.0 then 0.0 else x / y
  }

  function Cosine(a: seq<real>, b: seq<real>, sqrt: real -> real): real {
    if |a| != |b| || Dot(a, a) == 0.0 || Dot(b, b) == 0.0 then 0.0
    else Ratio(Dot(a, b), Times(sqrt(Dot(a, a)), sqrt(Dot(b, b))))
  }

  function Euclidean(a: seq<real>, b: seq<real>, sqrt: real -> real): real {
    if |a| != |b| then MAX_FLOAT32 else sqrt(Dot(Minus(a, b), Minus(a, b)))
  }

  /** The function a metric name selects; unknown names select the Euclidean distance. */
  function GetDistanceFunc(metric: string, sqrt: real -> real): (seq<real>, seq<real>) -> real {
    if metric == "cosine" then (a, b) => 1.0 - Cosine(a, b, sqrt)
    else if metric == "dot_product" then (a, b) => if |a| != |b| then 0.0 else -Dot(a, b)
    else (a, b) => Euclidean(a, b, sqrt)
  }

  predicate IsZero(a: seq<real>) {
    forall i :: 0 <= i < |a| ==> a[i] == 0.0
  }

  // ----- The loops -----

  method DotProduct(a: seq<real>, b: seq<real>) returns (product: real)
    ensures product == if |a| != |b| then 0.0 else Dot(a, b)
  {
    if |a| != |b| {
      return 0.0;
    }
    product := 0.0;
    for i := 0 to |a|
      invariant product == Dot(a[..i], b[..i])
    {
      product := product + a[i] * b[i];
      assert a[..i + 1][..i] == a[..i] && b[..i + 1][..i] == b[..i];
    }
    assert a[..|a|] == a && b[..|b|] == b;
  }

  method CosineSimilarity(a: seq<real>, b: seq<real>, sqrt: real -> real) returns (similarity: real)
    requires IsSqrt(sqrt)
    ensures similarity == Cosine(a, b, sqrt)
  {
    if |a| != |b| {
      return 0.0;
    }
    var dotProduct, normA, normB := 0.0, 0.0, 0.0;
    for i := 0 to |a|
      invariant dotProduct == Dot(a[..i], b[..i])
      invariant normA == Dot(a[..i], a[..i]) && normB == Dot(b[..i], b[..i])
    {
      dotProduct, normA, normB := dotProduct + a[i] * b[i], normA + a[i] * a[i], normB + b[i] * b[i];
      assert a[..i + 1][..i] == a[..i] && b[..i + 1][..i] == b[..i];
    }
    assert a[..|a|] == a && b[..|b|] == b;
    if normA == 0.0 || normB == 0.0 {
      return 0.0;
    }
    CosineIsQuotient(a, b, sqrt);
    return dotProduct / (sqrt(normA) * sqrt(normB));
  }

  lemma RootIsPositive(sqrt: real -> real, x: real)
    requires IsSqrt(sqrt) && x > 0.0
    ensures sqrt(x) > 0.0
  {
    RootPositive(sqrt, x);
  }

  lemma PositiveTimes(x: real, y: real)
    requires x > 0.0 && y > 0.0
    ensures Times(x, y) > 0.0
  {
  }

  /** The product of the two lengths is not zero, and the cosine is the quotient by it. */
  lemma CosineIsQuotient(a: seq<real>, b: seq<real>, sqrt: real -> real)
    requires IsSqrt(sqrt) && |a| == |b| && Dot(a, a) != 0.0 && Dot(b, b) != 0.0
    ensures var lengths := Times(sqrt(Dot(a, a)), sqrt(Dot(b, b)));
      lengths > 0.0 && Cosine(a, b, sqrt) == Ratio(Dot(a, b), lengths)
  {
    NormPositive(a);
    NormPositive(b);
    RootIsPositive(sqrt, Dot(a, a));
    RootIsPositive(sqrt, Dot(b, b));
    PositiveTimes(sqrt(Dot(a, a)), sqrt(Dot(b, b)));
  }

  method EuclideanDistance(a: seq<real>, b: seq<real>, sqrt: real -> real) returns (distance: real)
    ensures distance == Euclidean(a, b, sqrt)
  {
    if |a| != |b| {
      return MAX_FLOAT32;
    }
    var sum := 0.0;
    for i := 0 to |a|
      invariant sum == Dot(Minus(a, b)[..i], Minus(a, b)[..i])
    {
      var diff := a[i] - b[i];
      sum := sum + diff * diff;
      assert Minus(a, b)[..i + 1][..i] == Minus(a, b)[..i];
    }
    assert Minus(a, b)[..|a|] == Minus(a, b);
    return sqrt(sum);
  }

  // ----- Products of reals -----

  /** A product by name, so that equal factors give equal products without arithmetic. */
  function Times(x: real, y: real): real {
    x * y
  }

  lemma Positive(x: real, y: real, product: real)
    requires x > 0.0 && y > 0.0 && product == x * y
    ensures product > 0.0
  {
  }

  lemma SquarePositive(x: real, square: real)
    requires square == x * x
    ensures square >= 0.0
    ensures square == 0.0 <==> x == 0.0
  {
    if x > 0.0 {
      Positive(x, x, square);
    } else if x < 0.0 {
      Positive(-x, -x, square);
    }
  }

  /** The root of a positive number is positive. */
  lemma RootPositive(sqrt: real -> real, x: real)
    requires IsSqrt(sqrt) && x > 0.0
    ensures sqrt(x) > 0.0 && sqrt(x) * sqrt(x) == x
  {
    SquarePositive(sqrt(x), x);
  }

  lemma Distribute(t: real, x: real, y: real)
    ensures t * (x + y) == t * x + t * y
  {
  }

  lemma Monotone(x: real, y: real, z: real)
    requires x <= y && z >= 0.0
    ensures Times(x, z) <= Times(y, z)
  {
  }

  lemma StrictlyMonotone(x: real, y: real, z: real)
    requires x < y && z > 0.0
    ensures x * z < y * z
  {
    Positive(y - x, z, (y - x) * z);
  }

  lemma CancelFactor(x: real, y: real, z: real)
    requires z > 0.0 && Times(x, z) == Times(y, z)
    ensures x == y
  {
    if x < y {
      StrictlyMonotone(x, y, z);
    } else if y < x {
      StrictlyMonotone(y, x, z);
    }
  }

  lemma LargerSquare(r: real, x: real)
    requires 0.0 <= r < x
    ensures r * r < x * x
  {
    calc {
      r * r;
    <=  { Monotone(r, x, r); }
      x * r;
    ==
      r * x;
    <   { StrictlyMonotone(r, x, x); }
      x * x;
    }
  }

  lemma AtMostRoot(x: real, r: real)
    requires r >= 0.0 && x * x <= r * r
    ensures x <= r
  {
    if x > r {
      LargerSquare(r, x);
    }
  }

  lemma SquareOrder(x: real, r: real)
    requires r >= 0.0 && x * x <= r * r
    ensures -r <= x <= r
  {
    AtMostRoot(x, r);
    assert (-x) * (-x) == x * x;
    AtMostRoot(-x, r);
  }

  lemma SameSquare(x: real, y: real)
    requires x >= 0.0 && y >= 0.0 && x * x == y * y
    ensures x == y
  {
    SquareOrder(x, y);
    SquareOrder(y, x);
  }

  lemma ProductOfSquares(x: real, y: real)
    ensures (x * y) * (x * y) == (x * x) * (y * y)
  {
  }

  lemma SquareOfDifference(x: real, y: real)
    ensures (x - y) * (x - y) == x * x - 2.0 * (x * y) + y * y
  {
  }

  lemma Quotient(x: real, y: real) returns (q: real)
    requires y > 0.0
    ensures Times(q, y) == x
    ensures x > 0.0 ==> q > 0.0
  {
    q := x / y;
    if q <= 0.0 {
      Monotone(q, 0.0, y);
    }
  }

  // ----- Dot products -----

  lemma {:induction false} DotSymmetric(a: seq<real>, b: seq<real>)
    requires |a| == |b|
    ensures Dot(a, b) == Dot(b, a)
  {
    if a != [] {
      DotSymmetric(a[..|a| - 1], b[..|b| - 1]);
    }
  }

  lemma ScaledInit(t: real, a: seq<real>)
    requires a != []
    ensures Scaled(t, a)[..|a| - 1] == Scaled(t, a[..|a| - 1])
  {
    var n := |a| - 1;
    forall i | 0 <= i < n ensures Scaled(t, a)[..n][i] == Scaled(t, a[..n])[i] {
      assert a[..n][i] == a[i];
    }
  }

  lemma {:induction false} DotScaled(t: real, a: seq<real>, b: seq<real>)
    requires |a| == |b|
    ensures Dot(Scaled(t, a), b) == Times(t, Dot(a, b))
  {
    if a != [] {
      var n := |a| - 1;
      DotScaled(t, a[..n], b[..n]);
      ScaledInit(t, a);
      Distribute(t, Dot(a[..n], b[..n]), a[n] * b[n]);
    }
  }

  /** A sum of squares is never negative, and zero only for the zero vector. */
  lemma {:induction false} NormPositive(a: seq<real>)
    ensures Dot(a, a) >= 0.0
    ensures Dot(a, a) == 0.0 <==> IsZero(a)
  {
    if a != [] {
      var n := |a| - 1;
      NormPositive(a[..n]);
      var square := a[n] * a[n];
      SquarePositive(a[n], square);
      assert Dot(a, a) == Dot(a[..n], a[..n]) + square;
      if IsZero(a[..n]) && a[n] == 0.0 {
        assert forall i :: 0 <= i < n ==> a[i] == a[..n][i];
      }
    }
  }

  lemma {:induction false} DotZero(a: seq<real>, b: seq<real>)
    requires |a| == |b| && IsZero(b)
    ensures Dot(a, b) == 0.0
  {
    if a != [] {
      DotZero(a[..|a| - 1], b[..|b| - 1]);
    }
  }

  lemma {:induction false} DifferenceSquared(a: seq<real>, b: seq<real>)
    requires |a| == |b|
    ensures Dot(Minus(a, b), Minus(a, b)) == Dot(a, a) - 2.0 * Dot(a, b) + Dot(b, b)
  {
    if a != [] {
      var n := |a| - 1;
      DifferenceSquared(a[..n], b[..n]);
      assert Minus(a, b)[..n] == Minus(a[..n], b[..n]);
      SquareOfDifference(a[n], b[n]);
    }
  }

  lemma ZeroDifference(a: seq<real>, b: seq<real>)
    requires |a| == |b|
    ensures IsZero(Minus(a, b)) <==> a == b
  {
    assert forall i :: 0 <= i < |a| ==> Minus(a, b)[i] == a[i] - b[i];
  }

  /** The projection t * b of a on b: its dot product with a is its own squared length. */
  lemma Projection(a: seq<real>, b: seq<real>) returns (t: real, square: real)
    requires |a| == |b| && !IsZero(b)
    ensures Dot(a, b) > 0.0 ==> t > 0.0
    ensures Dot(a, Scaled(t, b)) == square && Dot(Scaled(t, b), Scaled(t, b)) == square
    ensures Times(square, Dot(b, b)) == Times(Dot(a, b), Dot(a, b))
  {
    NormPositive(b);
    t := Quotient(Dot(a, b), Dot(b, b));
    square := Times(t, Dot(a, b));
    DotScaledRight(t, a, b);
    DotScaledRight(t, b, b);
    DotScaled(t, b, Scaled(t, b));
    Regroup(t, Dot(a, b), Dot(b, b));
  }

  lemma Regroup(t: real, ab: real, bb: real)
    requires Times(t, bb) == ab
    ensures Times(Times(t, ab), bb) == Times(ab, ab)
  {
    calc {
      (t * ab) * bb;
    ==
      (t * bb) * ab;
    }
  }

  lemma DotScaledRight(t: real, a: seq<real>, b: seq<real>)
    requires |a| == |b|
    ensures Dot(a, Scaled(t, b)) == Times(t, Dot(a, b))
  {
    DotSymmetric(a, Scaled(t, b));
    DotScaled(t, b, a);
    DotSymmetric(a, b);
  }

  /** Cauchy-Schwarz: the projection of a on b is no longer than a. */
  lemma CauchySchwarz(a: seq<real>, b: seq<real>)
    requires |a| == |b|
    ensures Times(Dot(a, b), Dot(a, b)) <= Times(Dot(a, a), Dot(b, b))
  {
    NormPositive(b);
    if IsZero(b) {
      DotZero(a, b);
    } else {
      var t, square := Projection(a, b);
      ProjectionIsShorter(a, Scaled(t, b));
      Monotone(square, Dot(a, a), Dot(b, b));
    }
  }

  lemma ProjectionIsShorter(a: seq<real>, p: seq<real>)
    requires |a| == |p| && Dot(a, p) == Dot(p, p)
    ensures Dot(p, p) <= Dot(a, a)
    ensures Dot(p, p) == Dot(a, a) ==> a == p
  {
    DifferenceSquared(a, p);
    NormPositive(Minus(a, p));
    ZeroDifference(a, p);
  }

  // ----- What fixes the dot product: it is additive, homogeneous, and reads components off -----

  function Plus(a: seq<real>, b: seq<real>): (s: seq<real>)
    requires |a| == |b|
    ensures |s| == |a| && forall i :: 0 <= i < |a| ==> s[i] == a[i] + b[i]
  {
    seq(|a|, i requires 0 <= i < |a| => a[i] + b[i])
  }

  /** The vector of length n with a one at position i. */
  function Unit(n: nat, i: nat): (u: seq<real>)
    ensures |u| == n && forall j :: 0 <= j < n ==> u[j] == if j == i then 1.0 else 0.0
  {
    seq(n, j => if j == i then 1.0 else 0.0)
  }

  lemma DistributeRight(x: real, y: real, t: real)
    ensures (x + y) * t == x * t + y * t
  {
  }

  lemma {:induction false} DotAdditive(a: seq<real>, c: seq<real>, b: seq<real>)
    requires |a| == |c| == |b|
    ensures Dot(Plus(a, c), b) == Dot(a, b) + Dot(c, b)
  {
    if a != [] {
      var n := |a| - 1;
      DotAdditive(a[..n], c[..n], b[..n]);
      assert Plus(a, c)[..n] == Plus(a[..n], c[..n]);
      DistributeRight(a[n], c[n], b[n]);
    }
  }

  lemma {:induction false} DotUnit(b: seq<real>, i: nat)
    requires i < |b|
    ensures Dot(Unit(|b|, i), b) == b[i]
  {
    var n := |b| - 1;
    assert Unit(|b|, i)[..n] == Unit(n, i);
    if i < n {
      DotUnit(b[..n], i);
    } else {
      assert IsZero(Unit(n, i));
      DotZero(b[..n], Unit(n, i));
      DotSymmetric(b[..n], Unit(n, i));
    }
  }

  // ----- Cosine -----

  lemma RatioBounds(x: real, y: real)
    requires y > 0.0 && -y <= x <= y
    ensures -1.0 <= x / y <= 1.0
    ensures x == y <==> x / y == 1.0
  {
    var q := x / y;
    assert q * y == x;
    if q > 1.0 {
      StrictlyMonotone(1.0, q, y);
    } else if q < -1.0 {
      StrictlyMonotone(q, -1.0, y);
    } else if q < 1.0 {
      StrictlyMonotone(q, 1.0, y);
    }
  }

  /** The product of the two lengths bounds the dot product. */
  lemma DotWithinLengths(a: seq<real>, b: seq<real>, sqrt: real -> real)
    requires IsSqrt(sqrt) && |a| == |b|
    ensures var r := Times(sqrt(Dot(a, a)), sqrt(Dot(b, b)));
      r >= 0.0 && Times(r, r) == Times(Dot(a, a), Dot(b, b)) && -r <= Dot(a, b) <= r
  {
    NormPositive(a);
    NormPositive(b);
    CauchySchwarz(a, b);
    WithinRoots(Dot(a, a), Dot(b, b), Dot(a, b), sqrt);
  }

  lemma WithinRoots(xx: real, yy: real, xy: real, sqrt: real -> real)
    requires IsSqrt(sqrt) && xx >= 0.0 && yy >= 0.0 && Times(xy, xy) <= Times(xx, yy)
    ensures var r := Times(sqrt(xx), sqrt(yy));
      r >= 0.0 && Times(r, r) == Times(xx, yy) && -r <= xy <= r
  {
    var rx, ry := sqrt(xx), sqrt(yy);
    ProductOfSquares(rx, ry);
    Monotone(0.0, rx, ry);
    SquareOrder(xy, rx * ry);
  }

  /** Similarity lies in [-1, 1] and the cosine distance in [0, 2], for vectors of any lengths. */
  lemma CosineBounds(a: seq<real>, b: seq<real>, sqrt: real -> real)
    requires IsSqrt(sqrt)
    ensures -1.0 <= Cosine(a, b, sqrt) <= 1.0
    ensures 0.0 <= GetDistanceFunc("cosine", sqrt)(a, b) <= 2.0
  {
    if |a| == |b| && !IsZero(a) && !IsZero(b) {
      NormPositive(a);
      NormPositive(b);
      RootPositive(sqrt, Dot(a, a));
      RootPositive(sqrt, Dot(b, b));
      var lengths := Times(sqrt(Dot(a, a)), sqrt(Dot(b, b)));
      Positive(sqrt(Dot(a, a)), sqrt(Dot(b, b)), lengths);
      DotWithinLengths(a, b, sqrt);
      RatioBounds(Dot(a, b), lengths);
    } else if |a| == |b| {
      NormPositive(a);
      NormPositive(b);
    }
  }

  lemma CosineSymmetric(a: seq<real>, b: seq<real>, sqrt: real -> real)
    ensures Cosine(a, b, sqrt) == Cosine(b, a, sqrt)
  {
    if |a| == |b| {
      DotSymmetric(a, b);
    }
  }

  lemma RatioTimes(x: real, y: real)
    requires y != 0.0
    ensures Times(y, Ratio(x, y)) == x
  {
  }

  /** The cosine times the two lengths is the dot product. */
  lemma CosineTimesLengths(a: seq<real>, b: seq<real>, sqrt: real -> real)
    requires IsSqrt(sqrt) && |a| == |b| && !IsZero(a) && !IsZero(b)
    ensures Times(Times(sqrt(Dot(a, a)), sqrt(Dot(b, b))), Cosine(a, b, sqrt)) == Dot(a, b)
  {
    NormPositive(a);
    NormPositive(b);
    RootPositive(sqrt, Dot(a, a));
    RootPositive(sqrt, Dot(b, b));
    var lengths := Times(sqrt(Dot(a, a)), sqrt(Dot(b, b)));
    Positive(sqrt(Dot(a, a)), sqrt(Dot(b, b)), lengths);
    RatioTimes(Dot(a, b), lengths);
  }

  lemma RootSquared(sqrt: real -> real, x: real)
    requires IsSqrt(sqrt) && x >= 0.0
    ensures Times(sqrt(x), sqrt(x)) == x
  {
  }

  /** The squared distance of two vectors of one length. */
  lemma EuclideanSquared(a: seq<real>, b: seq<real>, sqrt: real -> real)
    requires IsSqrt(sqrt) && |a| == |b|
    ensures Times(Euclidean(a, b, sqrt), Euclidean(a, b, sqrt)) == Dot(a, a) - 2.0 * Dot(a, b) + Dot(b, b)
  {
    DifferenceSquared(a, b);
    NormPositive(Minus(a, b));
    RootSquared(sqrt, Dot(Minus(a, b), Minus(a, b)));
  }

  /** The law of cosines, for nonzero vectors of one length. */
  lemma LawOfCosines(a: seq<real>, b: seq<real>, sqrt: real -> real)
    requires IsSqrt(sqrt) && |a| == |b| && !IsZero(a) && !IsZero(b)
    ensures Times(Euclidean(a, b, sqrt), Euclidean(a, b, sqrt)) ==
      Dot(a, a) + Dot(b, b) - 2.0 * Times(Times(sqrt(Dot(a, a)), sqrt(Dot(b, b))), Cosine(a, b, sqrt))
  {
    CosineTimesLengths(a, b, sqrt);
    EuclideanSquared(a, b, sqrt);
  }

  /** Nonzero vectors have cosine zero exactly when they are orthogonal. */
  lemma OrthogonalCosine(a: seq<real>, b: seq<real>, sqrt: real -> real)
    requires IsSqrt(sqrt) && |a| == |b| && !IsZero(a) && !IsZero(b)
    ensures Cosine(a, b, sqrt) == 0.0 <==> Dot(a, b) == 0.0
  {
    CosineTimesLengths(a, b, sqrt);
    NormPositive(a);
    NormPositive(b);
    if Dot(a, b) == 0.0 {
      RootPositive(sqrt, Dot(a, a));
      RootPositive(sqrt, Dot(b, b));
      var lengths := Times(sqrt(Dot(a, a)), sqrt(Dot(b, b)));
      Positive(sqrt(Dot(a, a)), sqrt(Dot(b, b)), lengths);
      CancelFactor(Cosine(a, b, sqrt), 0.0, lengths);
    }
  }

  /** A vector without direction, or of another length, has cosine zero to everything. */
  lemma NoDirectionNoCosine(a: seq<real>, b: seq<real>, sqrt: real -> real)
    requires |a| != |b| || IsZero(a) || IsZero(b)
    ensures Cosine(a, b, sqrt) == 0.0
  {
    NormPositive(a);
    NormPositive(b);
  }

  /** The vectors [3, 4] and [4, 3] have cosine 24/25. */
  lemma CosineOfThreeFour(sqrt: real -> real)
    requires IsSqrt(sqrt)
    ensures Cosine([3.0, 4.0], [4.0, 3.0], sqrt) == 24.0 / 25.0
  {
    var a, b := [3.0, 4.0], [4.0, 3.0];
    assert a[..1] == [3.0] && b[..1] == [4.0] && [3.0][..0] == [] && [4.0][..0] == [];
    assert Dot([3.0], [3.0]) == 9.0 && Dot([4.0], [4.0]) == 16.0 && Dot([3.0], [4.0]) == 12.0;
    assert Dot(a, a) == 25.0 && Dot(b, b) == 25.0 && Dot(a, b) == 24.0;
    SameSquare(sqrt(25.0), 5.0);
  }

  ghost predicate SameDirection(a: seq<real>, b: seq<real>) {
    exists t :: t > 0.0 && a == Scaled(t, b)
  }

  /** Cosine distance is zero exactly between nonzero vectors of the same direction. */
  lemma CosineDistanceZero(a: seq<real>, b: seq<real>, sqrt: real -> real)
    requires IsSqrt(sqrt)
    ensures GetDistanceFunc("cosine", sqrt)(a, b) == 0.0 <==>
      |a| == |b| && !IsZero(a) && !IsZero(b) && SameDirection(a, b)
  {
    if |a| == |b| {
      NormPositive(a);
      NormPositive(b);
      if !IsZero(a) && !IsZero(b) {
        RootPositive(sqrt, Dot(a, a));
        RootPositive(sqrt, Dot(b, b));
        var lengths := Times(sqrt(Dot(a, a)), sqrt(Dot(b, b)));
        Positive(sqrt(Dot(a, a)), sqrt(Dot(b, b)), lengths);
        DotWithinLengths(a, b, sqrt);
        RatioBounds(Dot(a, b), lengths);
        assert GetDistanceFunc("cosine", sqrt)(a, b) == 1.0 - Dot(a, b) / lengths;
        if Dot(a, b) == lengths {
          TightIsParallel(a, b);
        }
        if SameDirection(a, b) {
          ParallelIsTight(a, b, lengths);
        }
      }
    }
  }

  lemma TightIsParallel(a: seq<real>, b: seq<real>)
    requires |a| == |b| && !IsZero(b) && Dot(a, b) > 0.0
    requires Times(Dot(a, b), Dot(a, b)) == Times(Dot(a, a), Dot(b, b))
    ensures SameDirection(a, b)
  {
    NormPositive(b);
    var t, square := Projection(a, b);
    CancelFactor(square, Dot(a, a), Dot(b, b));
    ProjectionIsShorter(a, Scaled(t, b));
  }

  lemma ParallelIsTight(a: seq<real>, b: seq<real>, lengths: real)
    requires |a| == |b| && SameDirection(a, b) && lengths >= 0.0
    requires Times(lengths, lengths) == Times(Dot(a, a), Dot(b, b))
    ensures Dot(a, b) == lengths
  {
    var t :| t > 0.0 && a == Scaled(t, b);
    DotScaled(t, b, b);
    DotScaledRight(t, a, b);
    NormPositive(b);
    ParallelProducts(Dot(a, a), Dot(a, b), Dot(b, b), t, lengths);
  }

  lemma ParallelProducts(aa: real, ab: real, bb: real, t: real, lengths: real)
    requires t > 0.0 && bb >= 0.0 && ab == Times(t, bb) && aa == Times(t, ab)
    requires lengths >= 0.0 && Times(lengths, lengths) == Times(aa, bb)
    ensures ab == lengths
  {
    Monotone(0.0, t, bb);
    Regroup(t, ab, bb);
    SameSquare(ab, lengths);
  }

  /** The dot-product distance ranks by decreasing dot product; any other name means Euclidean distance. */
  lemma OtherDistances(metric: string, q: seq<real>, a: seq<real>, b: seq<real>, sqrt: real -> real)
    requires |q| == |a| == |b|
    ensures metric == "dot_product" ==>
      (GetDistanceFunc(metric, sqrt)(q, a) <= GetDistanceFunc(metric, sqrt)(q, b) <==> Dot(q, a) >= Dot(q, b))
    ensures metric != "cosine" && metric != "dot_product" ==>
      GetDistanceFunc(metric, sqrt)(q, a) == Euclidean(q, a, sqrt)
  {
  }

  function PowerOf2(e: nat): real {
    if e == 0 then 1.0 else 2.0 * PowerOf2(e - 1)
  }

  lemma {:induction false} PowersMultiply(d: nat, e: nat)
    ensures PowerOf2(d + e) == PowerOf2(d) * PowerOf2(e)
  {
    if d > 0 {
      PowersMultiply(d - 1, e);
    }
  }

  /** The distance of vectors of different lengths is the largest 32-bit float: 24 one bits, times 2^104. */
  lemma LargestFloat()
    ensures MAX_FLOAT32 == (PowerOf2(24) - 1.0) * PowerOf2(104)
  {
    PowersOfEight();
    PowersMultiply(8, 16);
    PowersMultiply(16, 16);
    PowersMultiply(32, 32);
    PowersMultiply(64, 32);
    PowersMultiply(96, 8);
  }

  lemma PowersOfEight()
    ensures PowerOf2(8) == 256.0 && PowerOf2(16) == 65536.0
  {
    assert PowerOf2(2) == 4.0;
    PowersMultiply(2, 2);
    PowersMultiply(4, 4);
    PowersMultiply(8, 8);
  }

  // ----- Euclidean distance -----

  lemma EuclideanSymmetric(a: seq<real>, b: seq<real>, sqrt: real -> real)
    ensures Euclidean(a, b, sqrt) == Euclidean(b, a, sqrt)
  {
    if |a| == |b| {
      var d, e := Minus(a, b), Minus(b, a);
      assert e == Scaled(-1.0, d);
      DotScaled(-1.0, d, e);
      DotScaled(-1.0, d, d);
      DotSymmetric(d, e);
    }
  }

  /** Zero exactly for equal vectors, vectors of different lengths included. */
  lemma EuclideanZero(a: seq<real>, b: seq<real>, sqrt: real -> real)
    requires IsSqrt(sqrt)
    ensures Euclidean(a, b, sqrt) >= 0.0
    ensures Euclidean(a, b, sqrt) == 0.0 <==> a == b
  {
    if |a| == |b| {
      var d := Minus(a, b);
      NormPositive(d);
      SquarePositive(sqrt(Dot(d, d)), Dot(d, d));
      ZeroDifference(a, b);
    }
  }

  lemma EuclideanTriangle(a: seq<real>, b: seq<real>, c: seq<real>, sqrt: real -> real)
    requires IsSqrt(sqrt) && |a| == |b| == |c|
    ensures Euclidean(a, c, sqrt) <= Euclidean(a, b, sqrt) + Euclidean(b, c, sqrt)
  {
    var x, y := Minus(a, b), Minus(c, b);
    assert Minus(a, c) == Minus(x, y);
    EuclideanSymmetric(b, c, sqrt);
    DifferenceTriangle(x, y, sqrt);
  }

  /** The length of a difference is at most the sum of the lengths. */
  lemma DifferenceTriangle(x: seq<real>, y: seq<real>, sqrt: real -> real)
    requires IsSqrt(sqrt) && |x| == |y|
    ensures sqrt(Dot(Minus(x, y), Minus(x, y))) <= sqrt(Dot(x, x)) + sqrt(Dot(y, y))
  {
    var xx, yy, zz := Dot(x, x), Dot(y, y), Dot(Minus(x, y), Minus(x, y));
    DifferenceSquared(x, y);
    NormPositive(x);
    NormPositive(y);
    NormPositive(Minus(x, y));
    DotAboveLengths(x, y, sqrt);
    Triangle(sqrt, xx, yy, zz, Dot(x, y));
  }

  lemma DotAboveLengths(a: seq<real>, b: seq<real>, sqrt: real -> real)
    requires IsSqrt(sqrt) && |a| == |b|
    ensures -Times(sqrt(Dot(a, a)), sqrt(Dot(b, b))) <= Dot(a, b)
  {
    DotWithinLengths(a, b, sqrt);
  }

  lemma Triangle(sqrt: real -> real, xx: real, yy: real, zz: real, xy: real)
    requires IsSqrt(sqrt) && xx >= 0.0 && yy >= 0.0 && zz >= 0.0
    requires zz == xx - 2.0 * xy + yy && -Times(sqrt(xx), sqrt(yy)) <= xy
    ensures sqrt(zz) <= sqrt(xx) + sqrt(yy)
  {
    var rx, ry, rz := sqrt(xx), sqrt(yy), sqrt(zz);
    assert (rx + ry) * (rx + ry) == rx * rx + 2.0 * (rx * ry) + ry * ry;
    AtMostRoot(rz, rx + ry);
  }
}
