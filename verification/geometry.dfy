/** Planar geometry used by the form-line selector: Euclidean magnitude,
    point-to-segment and point-to-polyline distance, and polyline arc length.

    Dafny's reals have no square root, so every member that needs one takes
    it as a parameter `sqrt` constrained by `IsSqrt`. With it, `Magnitude` is
    exactly the Euclidean norm that the source computes in floating point. */
module Geometry {

  datatype Point = Point(x: real, y: real)

  /** A product of reals. The multiplication sits two recursion levels down,
      so the solver treats `Mul(a, b)` as an opaque value until a proof asks
      for `ProductsExpand`: proofs that only compare distances never meet the
      polynomials behind them. */
  function Mul(a: real, b: real): real {
    Deferred(a, b, 2)
  }

  function Deferred(a: real, b: real, depth: nat): real {
    if depth == 0 then a * b else Deferred(a, b, depth - 1)
  }

  /** The square of a real, the source's `powi(2)`. */
  function Sq(a: real): real {
    Mul(a, a)
  }

  lemma MulDef(a: real, b: real)
    ensures Mul(a, b) == a * b
  {
    assert Deferred(a, b, 1) == Deferred(a, b, 0);
  }

  lemma SqDef(a: real)
    ensures Sq(a) == a * a
  {
    MulDef(a, a);
  }

  /** Every product multiplied out, for proofs that do polynomial algebra. */
  lemma ProductsExpand()
    ensures forall a: real, b: real :: Mul(a, b) == a * b
  {
    forall a: real, b: real
      ensures Mul(a, b) == a * b
    {
      MulDef(a, b);
    }
  }

  /** Every square multiplied out. */
  lemma SquaresExpand()
    ensures forall a: real :: Sq(a) == a * a
  {
    forall a: real
      ensures Sq(a) == a * a
    {
      SqDef(a);
    }
  }

  lemma SqNonNegative(a: real)
    ensures 0.0 <= Sq(a)
  {
    SquaresExpand();
  }

  lemma MulPositive(u: real, v: real)
    requires 0.0 < u && 0.0 < v
    ensures 0.0 < u * v
  {
  }

  lemma MulNonNegative(u: real, v: real)
    requires 0.0 <= u && 0.0 <= v
    ensures 0.0 <= u * v
  {
  }

  lemma SqMonotone(a: real, b: real)
    requires 0.0 <= a <= b
    ensures Sq(a) <= Sq(b)
  {
    SquaresExpand();
    MulNonNegative(b - a, b + a);
    assert (b - a) * (b + a) == Sq(b) - Sq(a);
  }

  lemma SqStrictMonotone(a: real, b: real)
    ensures 0.0 <= a < b ==> Sq(a) < Sq(b)
  {
    if 0.0 <= a < b {
      SqDef(a);
      SqDef(b);
      MulPositive(b - a, b + a);
      assert (b - a) * (b + a) == Sq(b) - Sq(a);
    }
  }

  /** On non-negative reals, squaring reflects the order. */
  lemma SqLeInverse(a: real, b: real)
    requires 0.0 <= a && 0.0 <= b
    requires Sq(a) <= Sq(b)
    ensures a <= b
  {
    SqStrictMonotone(b, a);
  }

  lemma SqNegate(a: real)
    ensures Sq(-a) == Sq(a)
  {
    SquaresExpand();
  }

  lemma SqIsZero(a: real)
    requires Sq(a) == 0.0
    ensures a == 0.0
  {
    if 0.0 <= a {
      SqLeInverse(a, 0.0);
    } else {
      SqNegate(a);
      SqLeInverse(-a, 0.0);
    }
  }

  /** `sqrt` returns the non-negative square root of every non-negative real.
      The second half only fires where a squared root is mentioned, so that
      the solver does not meet products of roots it has no use for. */
  ghost predicate IsSqrt(sqrt: real -> real) {
    && (forall v: real :: 0.0 <= v ==> 0.0 <= sqrt(v))
    && (forall v: real {:trigger Sq(sqrt(v))} :: 0.0 <= v ==> Sq(sqrt(v)) == v)
  }

  /** The source's `f64::sqrt`, taken from the `sqrt` parameter. */
  function Root(sqrt: real -> real, v: real): real
    requires IsSqrt(sqrt)
  {
    sqrt(v)
  }

  lemma SqrtSquared(sqrt: real -> real, v: real)
    requires IsSqrt(sqrt)
    requires 0.0 <= v
    ensures Sq(Root(sqrt, v)) == v
  {
  }

  lemma SqrtMonotone(sqrt: real -> real, u: real, v: real)
    requires IsSqrt(sqrt)
    requires 0.0 <= u <= v
    ensures Root(sqrt, u) <= Root(sqrt, v)
  {
    SqrtSquared(sqrt, u);
    SqrtSquared(sqrt, v);
    SqLeInverse(Root(sqrt, u), Root(sqrt, v));
  }

  /** The square root is unique: it undoes squaring on non-negative reals. */
  lemma SqrtOfSq(sqrt: real -> real, a: real)
    requires IsSqrt(sqrt)
    requires 0.0 <= a
    ensures Root(sqrt, Sq(a)) == a
  {
    SqNonNegative(a);
    var s := Root(sqrt, Sq(a));
    SqrtSquared(sqrt, Sq(a));
    SqLeInverse(s, a);
    SqLeInverse(a, s);
  }

  /** The sum of two squares, the radicand of every magnitude. */
  function SquaredNorm(dx: real, dy: real): (s: real)
    ensures 0.0 <= s
  {
    SqNonNegative(dx);
    SqNonNegative(dy);
    Sq(dx) + Sq(dy)
  }

  lemma SquaredNormZero(dx: real, dy: real)
    ensures SquaredNorm(dx, dy) == 0.0 <==> dx == 0.0 && dy == 0.0
  {
    SqNonNegative(dx);
    SqNonNegative(dy);
    if SquaredNorm(dx, dy) == 0.0 {
      SqIsZero(dx);
      SqIsZero(dy);
    }
  }

  /** `magnitude`: the Euclidean length of the vector (dx, dy). */
  function Magnitude(sqrt: real -> real, dx: real, dy: real): (m: real)
    requires IsSqrt(sqrt)
    ensures 0.0 <= m
  {
    Root(sqrt, SquaredNorm(dx, dy))
  }

  lemma MagnitudeSquared(sqrt: real -> real, dx: real, dy: real)
    requires IsSqrt(sqrt)
    ensures Sq(Magnitude(sqrt, dx, dy)) == SquaredNorm(dx, dy)
  {
    SqrtSquared(sqrt, SquaredNorm(dx, dy));
  }

  function SquaredDist(p: Point, q: Point): real {
    SquaredNorm(p.x - q.x, p.y - q.y)
  }

  /** The distance from `p` to `q`, the source's `magnitude(p.x - q.x, p.y - q.y)`. */
  function Dist(sqrt: real -> real, p: Point, q: Point): (d: real)
    requires IsSqrt(sqrt)
    ensures 0.0 <= d
  {
    Magnitude(sqrt, p.x - q.x, p.y - q.y)
  }

  lemma DistSquared(sqrt: real -> real, p: Point, q: Point)
    requires IsSqrt(sqrt)
    ensures Sq(Dist(sqrt, p, q)) == SquaredDist(p, q)
  {
    MagnitudeSquared(sqrt, p.x - q.x, p.y - q.y);
  }

  lemma DistSymmetric(sqrt: real -> real, p: Point, q: Point)
    requires IsSqrt(sqrt)
    ensures Dist(sqrt, p, q) == Dist(sqrt, q, p)
  {
    SqNegate(p.x - q.x);
    SqNegate(p.y - q.y);
    assert SquaredDist(p, q) == SquaredDist(q, p);
  }

  /** The distance is the root of the squared distance. */
  lemma DistIsRoot(sqrt: real -> real, p: Point, q: Point)
    requires IsSqrt(sqrt)
    ensures Dist(sqrt, p, q) == Root(sqrt, SquaredDist(p, q))
  {
  }

  lemma SqrtZero(sqrt: real -> real)
    requires IsSqrt(sqrt)
    ensures Root(sqrt, 0.0) == 0.0
  {
    SqrtSquared(sqrt, 0.0);
    SqIsZero(Root(sqrt, 0.0));
  }

  lemma DistToSelf(sqrt: real -> real, p: Point)
    requires IsSqrt(sqrt)
    ensures Dist(sqrt, p, p) == 0.0
  {
    assert SquaredDist(p, p) == SquaredNorm(0.0, 0.0);
    SqrtZero(sqrt);
  }

  lemma DistZeroOnlyToSelf(sqrt: real -> real, p: Point, q: Point)
    requires IsSqrt(sqrt)
    requires Dist(sqrt, p, q) == 0.0
    ensures p == q
  {
    DistSquared(sqrt, p, q);
    assert Sq(0.0) == 0.0;
    SquaredNormZero(p.x - q.x, p.y - q.y);
  }

  /** The distance is zero exactly between identical points. */
  lemma DistZeroIff(sqrt: real -> real, p: Point, q: Point)
    requires IsSqrt(sqrt)
    ensures Dist(sqrt, p, q) == 0.0 <==> p == q
  {
    if p == q {
      DistToSelf(sqrt, p);
    } else if Dist(sqrt, p, q) == 0.0 {
      DistZeroOnlyToSelf(sqrt, p, q);
    }
  }

  /** Comparing distances is comparing squared distances. */
  lemma DistLeFromSquares(sqrt: real -> real, p: Point, q: Point, a: Point, b: Point)
    requires IsSqrt(sqrt)
    requires SquaredDist(p, q) <= SquaredDist(a, b)
    ensures Dist(sqrt, p, q) <= Dist(sqrt, a, b)
  {
    SqrtMonotone(sqrt, SquaredDist(p, q), SquaredDist(a, b));
  }

  /** `dot_product` of the vectors (x1, y1) and (x2, y2). */
  function DotProduct(x1: real, y1: real, x2: real, y2: real): real {
    x1 * x2 + y1 * y2
  }

  /** The dot product does not depend on the order of its vectors, and a
      vector's dot product with itself is its squared magnitude, zero only
      for the zero vector: the denominator of the projection parameter. */
  lemma DotProductWithItself(sqrt: real -> real, x1: real, y1: real, x2: real, y2: real)
    requires IsSqrt(sqrt)
    ensures DotProduct(x1, y1, x2, y2) == DotProduct(x2, y2, x1, y1)
    ensures DotProduct(x1, y1, x1, y1) == Sq(Magnitude(sqrt, x1, y1))
    ensures DotProduct(x1, y1, x1, y1) == 0.0 <==> x1 == 0.0 && y1 == 0.0
  {
    SqDef(x1);
    SqDef(y1);
    MagnitudeSquared(sqrt, x1, y1);
    SquaredNormZero(x1, y1);
  }

  /** Two distinct points are a positive squared distance apart. */
  lemma SquaredDistPositive(p: Point, q: Point)
    requires p != q
    ensures 0.0 < SquaredDist(p, q)
  {
    SquaredNormZero(p.x - q.x, p.y - q.y);
  }

  /** A quotient, deferred like `Sq` so that proofs which never divide do
      not meet the division. */
  function Ratio(a: real, b: real): real
    requires b != 0.0
  {
    DeferredRatio(a, b, 2)
  }

  function DeferredRatio(a: real, b: real, depth: nat): real
    requires b != 0.0
  {
    if depth == 0 then a / b else DeferredRatio(a, b, depth - 1)
  }

  lemma RatioDef(a: real, b: real)
    requires b != 0.0
    ensures Ratio(a, b) == a / b
  {
    assert DeferredRatio(a, b, 1) == DeferredRatio(a, b, 0);
  }

  /** The scalar projection of `p` onto the line through `e1` and `e2`:
      0 at `e1`, 1 at `e2`. */
  function ProjectionParameter(p: Point, e1: Point, e2: Point): real
    requires e1 != e2
  {
    SquaredDistPositive(e2, e1);
    Ratio(DotProduct(e2.x - e1.x, e2.y - e1.y, p.x - e1.x, p.y - e1.y), SquaredDist(e2, e1))
  }

  lemma ProjectionParameterScaled(p: Point, e1: Point, e2: Point)
    requires e1 != e2
    ensures Mul(ProjectionParameter(p, e1, e2), SquaredDist(e2, e1))
            == DotProduct(e2.x - e1.x, e2.y - e1.y, p.x - e1.x, p.y - e1.y)
  {
    SquaredDistPositive(e2, e1);
    RatioDef(DotProduct(e2.x - e1.x, e2.y - e1.y, p.x - e1.x, p.y - e1.y), SquaredDist(e2, e1));
    MulDef(ProjectionParameter(p, e1, e2), SquaredDist(e2, e1));
  }

  /** The source divides by the squared magnitude of the segment; over the
      reals that is the squared length itself. */
  lemma ProjectionParameterFromMagnitude(sqrt: real -> real, p: Point, e1: Point, e2: Point)
    requires IsSqrt(sqrt)
    requires e1 != e2
    ensures 0.0 < Sq(Magnitude(sqrt, e2.x - e1.x, e2.y - e1.y))
            && DotProduct(e2.x - e1.x, e2.y - e1.y, p.x - e1.x, p.y - e1.y)
               / Sq(Magnitude(sqrt, e2.x - e1.x, e2.y - e1.y))
               == ProjectionParameter(p, e1, e2)
  {
    MagnitudeSquared(sqrt, e2.x - e1.x, e2.y - e1.y);
    SquaredDistPositive(e2, e1);
    RatioDef(DotProduct(e2.x - e1.x, e2.y - e1.y, p.x - e1.x, p.y - e1.y), SquaredDist(e2, e1));
  }

  /** The point at parameter `t` on the line through `e1` and `e2`. */
  function Lerp(e1: Point, e2: Point, t: real): Point {
    Point(e1.x + Mul(t, e2.x - e1.x), e1.y + Mul(t, e2.y - e1.y))
  }

  lemma LerpEnds(e1: Point, e2: Point)
    ensures Lerp(e1, e2, 0.0) == e1
    ensures Lerp(e1, e2, 1.0) == e2
  {
    ProductsExpand();
  }

  function Clamp01(t: real): real {
    if t < 0.0 then 0.0 else if t > 1.0 then 1.0 else t
  }

  /** The point of the segment [e1, e2] nearest to `p`: an independent
      description of what the distance to a segment measures. */
  function ClosestPoint(p: Point, e1: Point, e2: Point): Point
    requires e1 != e2
  {
    Lerp(e1, e2, Clamp01(ProjectionParameter(p, e1, e2)))
  }

  /** The squared distance from `p` to the line through `e1` and `e2`. */
  function SquaredPerpendicular(p: Point, e1: Point, e2: Point): real
    requires e1 != e2
  {
    SquaredDist(p, e1) - Mul(Sq(ProjectionParameter(p, e1, e2)), SquaredDist(e2, e1))
  }

  /** How much nearer the foot of the perpendicular is than the point at
      parameter `t`, in squared distance. */
  function SquaredExcess(p: Point, e1: Point, e2: Point, t: real): real
    requires e1 != e2
  {
    Mul(SquaredDist(e2, e1), Sq(t - ProjectionParameter(p, e1, e2)))
  }

  /** The vector from `b` to `a`. */
  function Sub(a: Point, b: Point): Point {
    Point(a.x - b.x, a.y - b.y)
  }

  /** Pythagoras along a line: with `r` the projection parameter of the
      vector w onto the vector v, the squared distance from w to t*v is the
      squared perpendicular distance plus a term growing with |t - r|. */
  lemma Pythagoras(wx: real, wy: real, vx: real, vy: real, b: real, t: real, r: real)
    ensures b == Sq(vx) + Sq(vy) && Mul(r, b) == DotProduct(vx, vy, wx, wy) ==>
            Sq(wx - Mul(t, vx)) + Sq(wy - Mul(t, vy))
            == Sq(wx) + Sq(wy) - Mul(Sq(r), b) + Mul(b, Sq(t - r))
  {
    if b == Sq(vx) + Sq(vy) && Mul(r, b) == DotProduct(vx, vy, wx, wy) {
      ProductsExpand();
    }
  }

  /** The squared distance from `p` to the point at parameter `t`, in
      coordinates relative to `e1`. */
  lemma LerpOffset(p: Point, e1: Point, e2: Point, t: real)
    ensures SquaredDist(p, Lerp(e1, e2, t))
            == Sq(Sub(p, e1).x - Mul(t, Sub(e2, e1).x)) + Sq(Sub(p, e1).y - Mul(t, Sub(e2, e1).y))
  {
    assert p.x - Lerp(e1, e2, t).x == Sub(p, e1).x - Mul(t, Sub(e2, e1).x);
    assert p.y - Lerp(e1, e2, t).y == Sub(p, e1).y - Mul(t, Sub(e2, e1).y);
  }

  /** Pythagoras along the segment's line, in coordinates relative to `e1`. */
  lemma PerpendicularAt(p: Point, e1: Point, e2: Point, t: real)
    requires e1 != e2
    ensures Sq(Sub(p, e1).x - Mul(t, Sub(e2, e1).x)) + Sq(Sub(p, e1).y - Mul(t, Sub(e2, e1).y))
            == SquaredPerpendicular(p, e1, e2) + SquaredExcess(p, e1, e2, t)
  {
    ProjectionParameterScaled(p, e1, e2);
    assert SquaredDist(p, e1) == Sq(Sub(p, e1).x) + Sq(Sub(p, e1).y);
    assert SquaredDist(e2, e1) == Sq(Sub(e2, e1).x) + Sq(Sub(e2, e1).y);
    assert DotProduct(e2.x - e1.x, e2.y - e1.y, p.x - e1.x, p.y - e1.y)
           == DotProduct(Sub(e2, e1).x, Sub(e2, e1).y, Sub(p, e1).x, Sub(p, e1).y);
    Pythagoras(Sub(p, e1).x, Sub(p, e1).y, Sub(e2, e1).x, Sub(e2, e1).y, SquaredDist(e2, e1),
               t, ProjectionParameter(p, e1, e2));
  }

  /** The squared distance from `p` to the point at parameter `t`. */
  lemma SquaredDistToLerp(p: Point, e1: Point, e2: Point, t: real)
    requires e1 != e2
    ensures SquaredDist(p, Lerp(e1, e2, t))
            == SquaredPerpendicular(p, e1, e2) + SquaredExcess(p, e1, e2, t)
  {
    LerpOffset(p, e1, e2, t);
    PerpendicularAt(p, e1, e2, t);
  }

  /** `distance_point_to_segment`: project `p` onto the segment's line; before
      `e1` the distance to `e1`, past `e2` the distance to `e2`, otherwise the
      perpendicular distance obtained from Pythagoras' relation. The source
      divides by the squared magnitude of the segment, so it needs distinct
      extremities (coincident ones give NaN); over the reals that divisor is
      the squared length (`ProjectionParameterFromMagnitude`). */
  function SegmentDistance(sqrt: real -> real, p: Point, e1: Point, e2: Point): real
    requires IsSqrt(sqrt)
    requires e1 != e2
  {
    var r := ProjectionParameter(p, e1, e2);
    if r < 0.0 then
      Magnitude(sqrt, p.x - e1.x, p.y - e1.y)
    else if r > 1.0 then
      Magnitude(sqrt, e2.x - p.x, e2.y - p.y)
    else
      Root(sqrt, Sq(Magnitude(sqrt, p.x - e1.x, p.y - e1.y))
           - Sq(Mul(r, Magnitude(sqrt, e2.x - e1.x, e2.y - e1.y))))
  }

  /** The perpendicular branch's radicand is the squared distance to the foot
      of the perpendicular. */
  lemma RadicandIsSquaredDist(sqrt: real -> real, p: Point, e1: Point, e2: Point)
    requires IsSqrt(sqrt)
    requires e1 != e2
    ensures Sq(Magnitude(sqrt, p.x - e1.x, p.y - e1.y))
            - Sq(Mul(ProjectionParameter(p, e1, e2), Magnitude(sqrt, e2.x - e1.x, e2.y - e1.y)))
            == SquaredDist(p, Lerp(e1, e2, ProjectionParameter(p, e1, e2)))
  {
    MagnitudeSquared(sqrt, p.x - e1.x, p.y - e1.y);
    ScaledLengthSquared(sqrt, p, e1, e2);
    FootDistance(p, e1, e2);
  }

  /** The subtracted term of the radicand: the squared distance from `e1` to
      the foot of the perpendicular. */
  lemma ScaledLengthSquared(sqrt: real -> real, p: Point, e1: Point, e2: Point)
    requires IsSqrt(sqrt)
    requires e1 != e2
    ensures Sq(Mul(ProjectionParameter(p, e1, e2), Magnitude(sqrt, e2.x - e1.x, e2.y - e1.y)))
            == SquaredDist(p, e1) - SquaredPerpendicular(p, e1, e2)
  {
    MagnitudeSquared(sqrt, e2.x - e1.x, e2.y - e1.y);
    assert Sq(Mul(ProjectionParameter(p, e1, e2), Magnitude(sqrt, e2.x - e1.x, e2.y - e1.y)))
           == Mul(Sq(ProjectionParameter(p, e1, e2)), Sq(Magnitude(sqrt, e2.x - e1.x, e2.y - e1.y))) by {
      SquaresExpand();
      ProductsExpand();
    }
  }

  /** The foot of the perpendicular is the squared perpendicular away. */
  lemma FootDistance(p: Point, e1: Point, e2: Point)
    requires e1 != e2
    ensures SquaredDist(p, Lerp(e1, e2, ProjectionParameter(p, e1, e2)))
            == SquaredPerpendicular(p, e1, e2)
  {
    SquaredDistToLerp(p, e1, e2, ProjectionParameter(p, e1, e2));
    ExcessAtFoot(p, e1, e2);
  }

  /** The foot of the perpendicular has no excess. */
  lemma ExcessAtFoot(p: Point, e1: Point, e2: Point)
    requires e1 != e2
    ensures SquaredExcess(p, e1, e2, ProjectionParameter(p, e1, e2)) == 0.0
  {
    assert Sq(0.0) == 0.0;
    MulDef(SquaredDist(e2, e1), 0.0);
  }

  /** The distance to a segment is the distance to its closest point; in
      particular it is the distance to `e1` when the projection falls before
      `e1` and to `e2` when it falls past `e2`. */
  lemma SegmentDistanceIsClosest(sqrt: real -> real, p: Point, e1: Point, e2: Point)
    requires IsSqrt(sqrt)
    requires e1 != e2
    ensures SegmentDistance(sqrt, p, e1, e2) == Dist(sqrt, p, ClosestPoint(p, e1, e2))
    ensures ProjectionParameter(p, e1, e2) < 0.0 ==> SegmentDistance(sqrt, p, e1, e2) == Dist(sqrt, p, e1)
    ensures ProjectionParameter(p, e1, e2) > 1.0 ==> SegmentDistance(sqrt, p, e1, e2) == Dist(sqrt, p, e2)
    ensures 0.0 <= SegmentDistance(sqrt, p, e1, e2)
  {
    var r := ProjectionParameter(p, e1, e2);
    if r < 0.0 {
      LerpEnds(e1, e2);
    } else if r > 1.0 {
      LerpEnds(e1, e2);
      DistSymmetric(sqrt, e2, p);
    } else {
      SegmentDistanceInterior(sqrt, p, e1, e2);
    }
  }

  /** Between the extremities, the source's formula is the distance to the
      foot of the perpendicular. */
  lemma SegmentDistanceInterior(sqrt: real -> real, p: Point, e1: Point, e2: Point)
    requires IsSqrt(sqrt)
    requires e1 != e2
    requires 0.0 <= ProjectionParameter(p, e1, e2) <= 1.0
    ensures SegmentDistance(sqrt, p, e1, e2) == Dist(sqrt, p, ClosestPoint(p, e1, e2))
  {
    InteriorBranch(sqrt, p, e1, e2);
    RadicandIsSquaredDist(sqrt, p, e1, e2);
    InteriorClosestPoint(sqrt, p, e1, e2);
  }

  lemma InteriorBranch(sqrt: real -> real, p: Point, e1: Point, e2: Point)
    requires IsSqrt(sqrt)
    requires e1 != e2
    requires 0.0 <= ProjectionParameter(p, e1, e2) <= 1.0
    ensures SegmentDistance(sqrt, p, e1, e2)
            == Root(sqrt, Sq(Magnitude(sqrt, p.x - e1.x, p.y - e1.y))
                          - Sq(Mul(ProjectionParameter(p, e1, e2), Magnitude(sqrt, e2.x - e1.x, e2.y - e1.y))))
  {
  }

  lemma InteriorClosestPoint(sqrt: real -> real, p: Point, e1: Point, e2: Point)
    requires IsSqrt(sqrt)
    requires e1 != e2
    requires 0.0 <= ProjectionParameter(p, e1, e2) <= 1.0
    ensures Dist(sqrt, p, ClosestPoint(p, e1, e2))
            == Root(sqrt, SquaredDist(p, Lerp(e1, e2, ProjectionParameter(p, e1, e2))))
  {
    assert ClosestPoint(p, e1, e2) == Lerp(e1, e2, ProjectionParameter(p, e1, e2));
  }

  lemma MulLeftMonotone(b: real, u: real, v: real)
    requires 0.0 <= b && u <= v
    ensures Mul(b, u) <= Mul(b, v)
  {
    ProductsExpand();
    MulNonNegative(b, v - u);
    assert b * (v - u) == b * v - b * u;
  }

  /** Within [0, 1], the clamped projection parameter is the nearest value to it. */
  lemma ClampIsNearest(r: real, t: real)
    requires 0.0 <= t <= 1.0
    ensures Sq(Clamp01(r) - r) <= Sq(t - r)
  {
    if r < 0.0 {
      SqMonotone(-r, t - r);
      SqNegate(r);
    } else if r > 1.0 {
      SqMonotone(r - 1.0, r - t);
      SqNegate(r - 1.0);
      SqNegate(r - t);
    } else {
      SqNonNegative(t - r);
    }
  }

  lemma ScaledClampIsNearest(b: real, r: real, t: real)
    requires 0.0 <= t <= 1.0
    ensures 0.0 <= b ==> Mul(b, Sq(Clamp01(r) - r)) <= Mul(b, Sq(t - r))
  {
    ClampIsNearest(r, t);
    if 0.0 <= b {
      MulLeftMonotone(b, Sq(Clamp01(r) - r), Sq(t - r));
    }
  }

  /** The clamped parameter has the least excess over the segment. */
  lemma ClampedExcessIsLeast(p: Point, e1: Point, e2: Point, t: real)
    requires e1 != e2
    requires 0.0 <= t <= 1.0
    ensures SquaredExcess(p, e1, e2, Clamp01(ProjectionParameter(p, e1, e2)))
            <= SquaredExcess(p, e1, e2, t)
  {
    ScaledClampIsNearest(SquaredDist(e2, e1), ProjectionParameter(p, e1, e2), t);
  }

  /** No point of the segment is nearer to `p` than the closest point. */
  lemma ClosestPointIsNearest(p: Point, e1: Point, e2: Point, t: real)
    requires e1 != e2
    requires 0.0 <= t <= 1.0
    ensures SquaredDist(p, ClosestPoint(p, e1, e2)) <= SquaredDist(p, Lerp(e1, e2, t))
  {
    SquaredDistToLerp(p, e1, e2, Clamp01(ProjectionParameter(p, e1, e2)));
    SquaredDistToLerp(p, e1, e2, t);
    ClampedExcessIsLeast(p, e1, e2, t);
  }

  /** The distance to a segment is the least distance to any of its points. */
  lemma SegmentDistanceIsMinimal(sqrt: real -> real, p: Point, e1: Point, e2: Point, t: real)
    requires IsSqrt(sqrt)
    requires e1 != e2
    requires 0.0 <= t <= 1.0
    ensures SegmentDistance(sqrt, p, e1, e2) <= Dist(sqrt, p, Lerp(e1, e2, t))
  {
    SegmentDistanceIsClosest(sqrt, p, e1, e2);
    ClosestPointIsNearest(p, e1, e2, t);
    DistLeFromSquares(sqrt, p, ClosestPoint(p, e1, e2), p, Lerp(e1, e2, t));
  }

  /** The distance to a segment never exceeds the distance to either extremity. */
  lemma SegmentDistanceAtMostEndpoints(sqrt: real -> real, p: Point, e1: Point, e2: Point)
    requires IsSqrt(sqrt)
    requires e1 != e2
    ensures SegmentDistance(sqrt, p, e1, e2) <= Dist(sqrt, p, e1)
    ensures SegmentDistance(sqrt, p, e1, e2) <= Dist(sqrt, p, e2)
  {
    SegmentDistanceIsMinimal(sqrt, p, e1, e2, 0.0);
    LerpEnds(e1, e2);
    SegmentDistanceIsMinimal(sqrt, p, e1, e2, 1.0);
  }

  /** `distance_point_to_polyline`, folded from the first vertex as the source's
      loop does: start from the distance to the first vertex and lower it by
      every consecutive segment that is strictly nearer. A segment whose
      extremities coincide yields NaN in the source, which never compares below
      the running minimum, so it is skipped here. The source panics on an empty
      polyline, which callers rule out. */
  function PolylineDistance(sqrt: real -> real, p: Point, pl: seq<Point>): real
    requires IsSqrt(sqrt)
    requires |pl| > 0
  {
    if |pl| == 1 then
      Dist(sqrt, p, pl[0])
    else
      var n := |pl|;
      var best := PolylineDistance(sqrt, p, pl[..n - 1]);
      if pl[n - 2] == pl[n - 1] then
        best
      else
        var d := SegmentDistance(sqrt, p, pl[n - 2], pl[n - 1]);
        if d < best then d else best
  }

  /** The distance to a polyline is a lower bound of the distance to each of
      its vertices and to each of its proper segments. */
  lemma {:induction false} PolylineDistanceIsLowerBound(sqrt: real -> real, p: Point, pl: seq<Point>)
    requires IsSqrt(sqrt)
    requires |pl| > 0
    ensures forall i :: 0 <= i < |pl| ==> PolylineDistance(sqrt, p, pl) <= Dist(sqrt, p, pl[i])
    ensures forall i :: 1 <= i < |pl| && pl[i - 1] != pl[i] ==>
              PolylineDistance(sqrt, p, pl) <= SegmentDistance(sqrt, p, pl[i - 1], pl[i])
    decreases |pl|
  {
    var n := |pl|;
    if n > 1 {
      var front := pl[..n - 1];
      PolylineDistanceIsLowerBound(sqrt, p, front);
      assert forall i :: 0 <= i < n - 1 ==> front[i] == pl[i];
      if pl[n - 2] != pl[n - 1] {
        SegmentDistanceAtMostEndpoints(sqrt, p, pl[n - 2], pl[n - 1]);
      }
    }
  }

  /** The distance to a polyline is attained: it is the distance to the first
      vertex or to one of its proper segments. */
  lemma {:induction false} PolylineDistanceIsAttained(sqrt: real -> real, p: Point, pl: seq<Point>)
    requires IsSqrt(sqrt)
    requires |pl| > 0
    ensures PolylineDistance(sqrt, p, pl) == Dist(sqrt, p, pl[0])
            || exists i :: 1 <= i < |pl| && pl[i - 1] != pl[i] &&
                 PolylineDistance(sqrt, p, pl) == SegmentDistance(sqrt, p, pl[i - 1], pl[i])
    decreases |pl|
  {
    var n := |pl|;
    if n > 1 {
      var front := pl[..n - 1];
      PolylineDistanceIsAttained(sqrt, p, front);
      assert forall i :: 0 <= i < n - 1 ==> front[i] == pl[i];
    }
  }

  /** Distances to a polyline are never negative. */
  lemma {:induction false} PolylineDistanceNonNegative(sqrt: real -> real, p: Point, pl: seq<Point>)
    requires IsSqrt(sqrt)
    requires |pl| > 0
    ensures 0.0 <= PolylineDistance(sqrt, p, pl)
    decreases |pl|
  {
    var n := |pl|;
    if n > 1 {
      PolylineDistanceNonNegative(sqrt, p, pl[..n - 1]);
      if pl[n - 2] != pl[n - 1] {
        SegmentDistanceIsClosest(sqrt, p, pl[n - 2], pl[n - 1]);
      }
    }
  }

  /** `polyline_length`: the sum of the distances between consecutive vertices,
      accumulated from the first vertex; zero for fewer than two vertices. */
  function PolylineLength(sqrt: real -> real, pl: seq<Point>): (len: real)
    requires IsSqrt(sqrt)
    ensures 0.0 <= len
    ensures |pl| < 2 ==> len == 0.0
  {
    if |pl| < 2 then 0.0
    else
      var n := |pl|;
      PolylineLength(sqrt, pl[..n - 1]) + Dist(sqrt, pl[n - 1], pl[n - 2])
  }

  /** Appending a vertex adds the distance to it, so the length never decreases. */
  lemma LengthAppend(sqrt: real -> real, pl: seq<Point>, q: Point)
    requires IsSqrt(sqrt)
    requires |pl| > 0
    ensures PolylineLength(sqrt, pl + [q])
            == PolylineLength(sqrt, pl) + Dist(sqrt, q, pl[|pl| - 1])
    ensures PolylineLength(sqrt, pl) <= PolylineLength(sqrt, pl + [q])
  {
    assert (pl + [q])[..|pl|] == pl;
  }

  /** Joining two polylines adds the distance across the joint. */
  lemma {:induction false} LengthConcat(sqrt: real -> real, a: seq<Point>, b: seq<Point>)
    requires IsSqrt(sqrt)
    requires |a| > 0 && |b| > 0
    ensures PolylineLength(sqrt, a + b)
            == PolylineLength(sqrt, a) + Dist(sqrt, b[0], a[|a| - 1]) + PolylineLength(sqrt, b)
    decreases |b|
  {
    if |b| == 1 {
      LengthAppend(sqrt, a, b[0]);
    } else {
      var n := |b|;
      var front := b[..n - 1];
      LengthConcat(sqrt, a, front);
      assert a + b == (a + front) + [b[n - 1]];
      LengthAppend(sqrt, a + front, b[n - 1]);
      assert (a + front)[|a + front| - 1] == b[n - 2];
    }
  }

  /** Prepending a vertex adds the distance to it. */
  lemma LengthPrepend(sqrt: real -> real, q: Point, pl: seq<Point>)
    requires IsSqrt(sqrt)
    requires |pl| > 0
    ensures PolylineLength(sqrt, [q] + pl) == Dist(sqrt, pl[0], q) + PolylineLength(sqrt, pl)
  {
    LengthConcat(sqrt, [q], pl);
  }

  /** A sub-run of a polyline is never longer than a run that contains it. */
  lemma {:induction false} LengthSliceMonotone(sqrt: real -> real, pl: seq<Point>, i: nat, j: nat, k: nat, l: nat)
    requires IsSqrt(sqrt)
    requires i <= j <= k <= l <= |pl|
    ensures PolylineLength(sqrt, pl[j..k]) <= PolylineLength(sqrt, pl[i..l])
    decreases (j - i) + (l - k)
  {
    if l > k {
      LengthSliceMonotone(sqrt, pl, i, j, k, l - 1);
      if l - 1 > i {
        assert pl[i..l] == pl[i..l - 1] + [pl[l - 1]];
        LengthAppend(sqrt, pl[i..l - 1], pl[l - 1]);
      }
    } else if j > i {
      LengthSliceMonotone(sqrt, pl, i + 1, j, k, l);
      if l > i + 1 {
        assert pl[i..l] == [pl[i]] + pl[i + 1..l];
        LengthPrepend(sqrt, pl[i], pl[i + 1..l]);
      }
    }
  }

  function Reverse<T>(s: seq<T>): (r: seq<T>)
    ensures |r| == |s|
    ensures forall i :: 0 <= i < |s| ==> r[i] == s[|s| - 1 - i]
  {
    if |s| == 0 then [] else [s[|s| - 1]] + Reverse(s[..|s| - 1])
  }

  /** Walking a polyline backwards covers the same length. */
  lemma {:induction false} LengthReverse(sqrt: real -> real, pl: seq<Point>)
    requires IsSqrt(sqrt)
    ensures PolylineLength(sqrt, Reverse(pl)) == PolylineLength(sqrt, pl)
    decreases |pl|
  {
    if |pl| >= 2 {
      var n := |pl|;
      var front := pl[..n - 1];
      LengthReverse(sqrt, front);
      assert Reverse(pl) == [pl[n - 1]] + Reverse(front);
      LengthPrepend(sqrt, pl[n - 1], Reverse(front));
      DistSymmetric(sqrt, pl[n - 1], pl[n - 2]);
    }
  }
}
