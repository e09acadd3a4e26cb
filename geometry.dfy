/** Epsilon-tolerant comparison and the ray/segment mathematics of the ray
    caster (src/core/util.cc), over the reals. Square roots, which the source
    takes from its vector library, are supplied by the caller as a function
    `sqrt` that satisfies `IsSquareRoot`. */
module Geometry {

  /** A 2D point or vector. */
  datatype Vec = Vec(x: real, y: real)

  const Zero: Vec := Vec(0.0, 0.0)

  /** The default tolerance of `FloatApproximation` in the source. */
  const DefaultEpsilon: real := 0.0000005

  function Add(a: Vec, b: Vec): Vec { Vec(a.x + b.x, a.y + b.y) }
  function Sub(a: Vec, b: Vec): Vec { Vec(a.x - b.x, a.y - b.y) }
  function Neg(a: Vec): Vec { Vec(-a.x, -a.y) }
  function Scale(k: real, a: Vec): Vec { Vec(k * a.x, k * a.y) }
  function Dot(a: Vec, b: Vec): real { a.x * b.x + a.y * b.y }

  /** The "complementary normal" <v.y, -v.x> the source builds repeatedly. */
  function Perp(v: Vec): Vec { Vec(v.y, -v.x) }

  /** The 2D cross product; `Dot(u, Perp(v)) == Cross(u, v)`. */
  function Cross(u: Vec, v: Vec): real { u.x * v.y - u.y * v.x }

  function Abs(r: real): real { if r < 0.0 then -r else r }

  function Min(a: real, b: real): real { if a <= b then a else b }

  /** A non-negative square root on the non-negative reals. */
  ghost predicate IsSquareRoot(sqrt: real -> real) {
    forall r: real {:trigger sqrt(r)} :: 0.0 <= r ==> 0.0 <= sqrt(r) && sqrt(r) * sqrt(r) == r
  }

  /** `glm::length`: zero exactly for the zero vector. */
  function Length(v: Vec, sqrt: real -> real): (l: real)
    requires IsSquareRoot(sqrt)
    ensures 0.0 <= l
    ensures l == 0.0 <==> v == Zero
  {
    DotSelf(v);
    RootOfNonNegative(sqrt, Dot(v, v));
    sqrt(Dot(v, v))
  }

  /** The length squared is the dot product of the vector with itself. */
  lemma LengthSquared(v: Vec, sqrt: real -> real)
    requires IsSquareRoot(sqrt)
    ensures Length(v, sqrt) * Length(v, sqrt) == Dot(v, v)
  {
    DotSelf(v);
    RootOfNonNegative(sqrt, Dot(v, v));
  }

  lemma RootOfNonNegative(sqrt: real -> real, x: real)
    requires IsSquareRoot(sqrt) && 0.0 <= x
    ensures 0.0 <= sqrt(x) && sqrt(x) * sqrt(x) == x
    ensures sqrt(x) == 0.0 <==> x == 0.0
  {
    var l := sqrt(x);
    assert l * l == x;
    if l > 0.0 {
      calc {
        x;
        == l * l;
        > { ProductPositive(l, l); } 0.0;
      }
    }
  }

  lemma ProductPositive(a: real, b: real)
    requires 0.0 < a && 0.0 < b
    ensures 0.0 < a * b
  {
  }

  /** Squares are stated with two equal parameters: the solver handles
      `a * b` under `a == b` more reliably than a literal square. */
  lemma SquareFacts(a: real, b: real)
    requires a == b
    ensures 0.0 <= a * b
    ensures a * b == 0.0 <==> a == 0.0
  {
    if a > 0.0 {
      assert a * b > 0.0;
    } else if a < 0.0 {
      assert (-a) * (-b) > 0.0;
    }
  }

  lemma DotSelf(v: Vec)
    ensures 0.0 <= Dot(v, v)
    ensures Dot(v, v) == 0.0 <==> v == Zero
  {
    SquareFacts(v.x, v.x);
    SquareFacts(v.y, v.y);
  }

  /** `glm::normalize` of a non-zero vector. */
  function Normalize(v: Vec, sqrt: real -> real): (n: Vec)
    requires IsSquareRoot(sqrt) && v != Zero
  {
    Scale(1.0 / Length(v, sqrt), v)
  }

  /** A distance that may be the floating-point +infinity of the source. */
  datatype Dist = Finite(value: real) | Infinity {
    /** The distance seen by a ray pointing the other way. */
    function Negated(): Dist {
      match this
      case Finite(v) => Finite(-v)
      case Infinity => Infinity
    }
  }

  // Numeric utilities =========================================================

  /** Weak relative approximation: absolute tolerance when either operand is
      zero, otherwise it suffices that the difference is small relative to
      either operand. */
  predicate FloatApproximation(a: real, b: real, eps: real) {
    var diff := Abs(a - b);
    if a == 0.0 || b == 0.0 then
      !(diff > eps)
    else
      !(diff > eps * Abs(a) && diff > eps * Abs(b))
  }

  /** For non-zero operands the test is the source's relative one: not both
      |a - b| / |a| and |a - b| / |b| exceed eps. */
  lemma FloatApproximationRelative(a: real, b: real, eps: real)
    requires a != 0.0 && b != 0.0
    ensures FloatApproximation(a, b, eps)
        <==> !(Abs(a - b) / Abs(a) > eps && Abs(a - b) / Abs(b) > eps)
  {
    RatioExceeds(Abs(a - b), Abs(a), eps);
    RatioExceeds(Abs(a - b), Abs(b), eps);
  }

  lemma RatioExceeds(d: real, m: real, eps: real)
    requires 0.0 < m
    ensures d / m > eps <==> d > eps * m
  {
    assert (d / m) * m == d;
    if d / m > eps {
      assert (d / m) * m > eps * m;
    } else {
      assert (d / m) * m <= eps * m;
    }
  }

  /** Two vectors approximate each other when both components do. */
  predicate VecApproximation(a: Vec, b: Vec, eps: real) {
    FloatApproximation(a.x, b.x, eps) && FloatApproximation(a.y, b.y, eps)
  }

  /** With a zero operand the test is the absolute one, |a - b| <= eps. */
  lemma FloatApproximationAtZero(a: real, b: real, eps: real)
    requires a == 0.0 || b == 0.0
    ensures FloatApproximation(a, b, eps) <==> Abs(a - b) <= eps
  {
  }

  /** The approximation is reflexive for a non-negative tolerance and symmetric. */
  lemma FloatApproximationReflexiveSymmetric(a: real, b: real, eps: real)
    ensures 0.0 <= eps ==> FloatApproximation(a, a, eps)
    ensures FloatApproximation(a, b, eps) <==> FloatApproximation(b, a, eps)
  {
    assert Abs(a - b) == Abs(b - a);
  }

  /** With zero tolerance the approximation is exact equality. */
  lemma FloatApproximationExact(a: real, b: real)
    ensures FloatApproximation(a, b, 0.0) <==> a == b
  {
    if a != 0.0 && b != 0.0 && a != b {
      assert Abs(a - b) > 0.0;
      assert Abs(a - b) / Abs(a) > 0.0;
      assert Abs(a - b) / Abs(b) > 0.0;
    }
  }

  /** The tolerance test against zero is the absolute bound |x| <= eps. */
  lemma NearZero(x: real)
    ensures FloatApproximation(x, 0.0, DefaultEpsilon) <==> Abs(x) <= DefaultEpsilon
    ensures FloatApproximation(-x, 0.0, DefaultEpsilon) <==> FloatApproximation(x, 0.0, DefaultEpsilon)
  {
  }

  /** Vector approximation is reflexive and symmetric like its components. */
  lemma VecApproximationReflexiveSymmetric(a: Vec, b: Vec)
    ensures VecApproximation(a, a, DefaultEpsilon)
    ensures VecApproximation(a, b, DefaultEpsilon) <==> VecApproximation(b, a, DefaultEpsilon)
  {
    FloatApproximationReflexiveSymmetric(a.x, b.x, DefaultEpsilon);
    FloatApproximationReflexiveSymmetric(a.y, b.y, DefaultEpsilon);
    FloatApproximationReflexiveSymmetric(a.x, a.x, DefaultEpsilon);
    FloatApproximationReflexiveSymmetric(a.y, a.y, DefaultEpsilon);
  }

  // Geometric utilities =======================================================

  /** `IsUnitVector`: the squared length approximates 1. */
  predicate IsUnitVector(v: Vec) {
    FloatApproximation(Dot(v, v), 1.0, DefaultEpsilon)
  }

  /** Twice the signed area of the triangle abc. */
  function Area(a: Vec, b: Vec, c: Vec): real {
    Cross(a, b) + Cross(b, c) + Cross(c, a)
  }

  /** `Collinear(a, b, c)`: (a - b)•<b.y - c.y, c.x - b.x> is approximately zero. */
  predicate Collinear(a: Vec, b: Vec, c: Vec) {
    FloatApproximation(Dot(Sub(a, b), Vec(b.y - c.y, c.x - b.x)), 0.0, DefaultEpsilon)
  }

  /** `Parallel(a, b)`: a•<b.y, -b.x> is approximately zero. */
  predicate Parallel(a: Vec, b: Vec) {
    FloatApproximation(Dot(a, Perp(b)), 0.0, DefaultEpsilon)
  }

  /** The quantity `Collinear` tests is the signed area of the triangle. */
  lemma CollinearMeasure(a: Vec, b: Vec, c: Vec)
    ensures Dot(Sub(a, b), Vec(b.y - c.y, c.x - b.x)) == Area(a, b, c)
  {
  }

  /** `Collinear` tests |Area(a, b, c)| <= eps, so it ignores the order of
      the three points. */
  lemma CollinearIsAreaTest(a: Vec, b: Vec, c: Vec)
    ensures Collinear(a, b, c) <==> Abs(Area(a, b, c)) <= DefaultEpsilon
    ensures Collinear(a, b, c) <==> Collinear(b, a, c)
    ensures Collinear(a, b, c) <==> Collinear(b, c, a)
  {
    CollinearMeasure(a, b, c);
    CollinearMeasure(b, a, c);
    CollinearMeasure(b, c, a);
    NearZero(Area(a, b, c));
    NearZero(Area(b, a, c));
    assert Area(b, a, c) == -Area(a, b, c);
    assert Area(b, c, a) == Area(a, b, c);
  }

  /** Two coinciding points are always collinear with a third. */
  lemma CollinearWhenPointsCoincide(a: Vec, b: Vec, c: Vec)
    requires a == b || b == c || a == c
    ensures Collinear(a, b, c)
  {
    CollinearIsAreaTest(a, b, c);
    CrossAntisymmetric(a, b);
    CrossAntisymmetric(b, c);
    CrossAntisymmetric(c, a);
    CrossAntisymmetric(a, a);
    CrossAntisymmetric(b, b);
    assert Area(a, b, c) == 0.0;
  }

  lemma CrossAntisymmetric(u: Vec, v: Vec)
    ensures Cross(u, v) == -Cross(v, u)
  {
  }

  lemma DotPerpIsCross(u: Vec, v: Vec)
    ensures Dot(u, Perp(v)) == Cross(u, v)
  {
  }

  /** `Parallel` tests |Cross(a, b)| <= eps, so it is symmetric. */
  lemma ParallelIsCrossTest(a: Vec, b: Vec)
    ensures Parallel(a, b) <==> Abs(Cross(a, b)) <= DefaultEpsilon
    ensures Parallel(a, b) <==> Parallel(b, a)
  {
    DotPerpIsCross(a, b);
    DotPerpIsCross(b, a);
    CrossAntisymmetric(a, b);
    NearZero(Cross(a, b));
  }

  /** The zero vector is parallel to every vector, and a vector to each of
      its multiples. */
  lemma ParallelDegenerate(a: Vec, b: Vec, k: real)
    ensures a == Zero || b == Zero ==> Parallel(a, b)
    ensures Parallel(a, Scale(k, a))
  {
    ParallelIsCrossTest(a, b);
    ParallelIsCrossTest(a, Scale(k, a));
    CrossScaled(a, k);
    if a == Zero || b == Zero {
      assert Cross(a, b) == 0.0;
    }
  }

  lemma CrossScaled(u: Vec, k: real)
    ensures Cross(u, Scale(k, u)) == 0.0
  {
    assert u.x * (k * u.y) == k * (u.x * u.y);
    assert u.y * (k * u.x) == k * (u.x * u.y);
  }

  lemma DotScaled(k: real, u: Vec, v: Vec)
    ensures Dot(Scale(k, u), v) == k * Dot(u, v)
    ensures Dot(u, Scale(k, v)) == k * Dot(u, v)
  {
  }

  /** The complementary normal and the negation keep the length. */
  lemma DotPerpNeg(v: Vec)
    ensures Dot(Perp(v), Perp(v)) == Dot(v, v)
    ensures Dot(Neg(v), Neg(v)) == Dot(v, v)
    ensures Perp(v) == Zero <==> v == Zero
  {
  }

  /** The positive factor by which GetRayToLineDistance rescales the ray
      direction: 1 when the complementary normal passes as a unit vector,
      otherwise one over the length. */
  function HeadingFactor(dir: Vec, sqrt: real -> real): (k: real)
    requires IsSquareRoot(sqrt) && dir != Zero
    ensures 0.0 < k
  {
    if IsUnitVector(Perp(dir)) then 1.0 else 1.0 / Length(dir, sqrt)
  }

  /** The ray direction as GetRayToLineDistance measures along it. */
  function Heading(dir: Vec, sqrt: real -> real): Vec
    requires IsSquareRoot(sqrt) && dir != Zero
  {
    Scale(HeadingFactor(dir, sqrt), dir)
  }

  /** `normal_dir` of GetRayToLineDistance: <dir.y, -dir.x>, normalized
      unless it already passes as a unit vector. */
  function RayNormal(dir: Vec, sqrt: real -> real): Vec
    requires IsSquareRoot(sqrt) && dir != Zero
  {
    var n := Perp(dir);
    if IsUnitVector(n) then n else (DotPerpNeg(dir); Normalize(n, sqrt))
  }

  /** The normal is the complementary normal of the heading. */
  lemma HeadingNormal(dir: Vec, sqrt: real -> real)
    requires IsSquareRoot(sqrt) && dir != Zero
    ensures RayNormal(dir, sqrt) == Perp(Heading(dir, sqrt))
    ensures Perp(Heading(dir, sqrt)) == Scale(HeadingFactor(dir, sqrt), Perp(dir))
  {
    DotPerpNeg(dir);
  }

  /** The heading passes as a unit vector; when it was normalized its squared
      length is exactly one. */
  lemma {:induction false} HeadingIsUnit(dir: Vec, sqrt: real -> real)
    requires IsSquareRoot(sqrt) && dir != Zero
    ensures IsUnitVector(Heading(dir, sqrt))
    ensures !IsUnitVector(Perp(dir)) ==> Dot(Heading(dir, sqrt), Heading(dir, sqrt)) == 1.0
  {
    var h := Heading(dir, sqrt);
    if IsUnitVector(Perp(dir)) {
      assert Dot(h, h) == Dot(Perp(dir), Perp(dir)) by {
        DotPerpNeg(dir);
        assert h == Scale(1.0, dir);
      }
    } else {
      assert Dot(h, h) == 1.0 by {
        var k := HeadingFactor(dir, sqrt);
        var l := Length(dir, sqrt);
        LengthSquared(dir, sqrt);
        assert k * l == 1.0;
        DotScaled(k, dir, h);
        DotScaled(k, dir, dir);
        InverseSquare(k, l, Dot(dir, dir));
      }
      FloatApproximationReflexiveSymmetric(1.0, 1.0, DefaultEpsilon);
    }
  }

  lemma InverseSquare(k: real, l: real, d: real)
    requires k * l == 1.0 && d == l * l
    ensures k * (k * d) == 1.0
  {
    calc {
      k * (k * d);
      == k * (k * (l * l));
      == (k * l) * (k * l);
      == 1.0;
    }
  }

  /** `GetRayToLineDistance`: the signed distance along the ray to the line
      through head and tail, `Infinity` when the ray runs parallel to it.
      The ray direction must be non-zero. */
  function GetRayToLineDistance(head: Vec, tail: Vec, pos: Vec, dir: Vec, sqrt: real -> real): Dist
    requires IsSquareRoot(sqrt) && dir != Zero
  {
    if VecApproximation(head, pos, DefaultEpsilon) then Finite(0.0)
    else if VecApproximation(tail, pos, DefaultEpsilon) then Finite(0.0)
    else if VecApproximation(head, tail, DefaultEpsilon) then Finite(Length(Sub(head, pos), sqrt))
    else
      var diff := Sub(head, tail);
      var normal := RayNormal(dir, sqrt);
      var ref := Vec(head.y - pos.y, pos.x - head.x);
      var r := Dot(diff, ref);
      if FloatApproximation(r, 0.0, DefaultEpsilon) then Finite(0.0)
      else
        var denominator := Dot(diff, normal);
        if FloatApproximation(denominator, 0.0, DefaultEpsilon) then Infinity
        else Finite(r / denominator)
  }

  /** The numerator and denominator of GetRayToLineDistance as cross products:
      r = Cross(head - tail, head - pos), denominator = k * Cross(head - tail, dir). */
  lemma RayToLineTerms(head: Vec, tail: Vec, pos: Vec, dir: Vec, sqrt: real -> real)
    requires IsSquareRoot(sqrt) && dir != Zero
    ensures Dot(Sub(head, tail), Vec(head.y - pos.y, pos.x - head.x)) == Cross(Sub(head, tail), Sub(head, pos))
    ensures Dot(Sub(head, tail), RayNormal(dir, sqrt)) == HeadingFactor(dir, sqrt) * Cross(Sub(head, tail), dir)
  {
    HeadingNormal(dir, sqrt);
    DotScaled(HeadingFactor(dir, sqrt), Sub(head, tail), Perp(dir));
    DotPerpIsCross(Sub(head, tail), dir);
  }

  /** The distance is 0 when the ray starts at an endpoint, or when it starts
      exactly on the line through a segment that is not a single point. */
  lemma {:induction false} RayToLineZero(head: Vec, tail: Vec, pos: Vec, dir: Vec, sqrt: real -> real, s: real)
    requires IsSquareRoot(sqrt) && dir != Zero
    requires VecApproximation(head, pos, DefaultEpsilon) || VecApproximation(tail, pos, DefaultEpsilon)
      || (!VecApproximation(head, tail, DefaultEpsilon) && pos == Add(tail, Scale(s, Sub(head, tail))))
    ensures GetRayToLineDistance(head, tail, pos, dir, sqrt) == Finite(0.0)
  {
    if !VecApproximation(head, pos, DefaultEpsilon) && !VecApproximation(tail, pos, DefaultEpsilon) {
      RayToLineTerms(head, tail, pos, dir, sqrt);
      var diff := Sub(head, tail);
      assert Sub(head, pos) == Scale(1.0 - s, diff);
      CrossScaled(diff, 1.0 - s);
      NearZero(0.0);
    }
  }

  /** For a segment that is not a single point and a start off its ends, the
      distance is the length to the head, never 0: the source measures the
      straight distance rather than treating the point as on the ray. */
  lemma PointSegmentDistance(head: Vec, tail: Vec, pos: Vec, dir: Vec, sqrt: real -> real)
    requires IsSquareRoot(sqrt) && dir != Zero
    requires VecApproximation(head, tail, DefaultEpsilon)
    requires !VecApproximation(head, pos, DefaultEpsilon) && !VecApproximation(tail, pos, DefaultEpsilon)
    ensures GetRayToLineDistance(head, tail, pos, dir, sqrt) == Finite(Length(Sub(head, pos), sqrt))
    ensures Length(Sub(head, pos), sqrt) > 0.0
  {
    VecApproximationReflexiveSymmetric(head, pos);
  }

  /** A ray exactly parallel to a (non-point) segment: it starts on the
      segment's line (or at an end) and is at distance 0, or it never meets
      the line and is infinitely far. */
  lemma RayToLineParallel(head: Vec, tail: Vec, pos: Vec, dir: Vec, sqrt: real -> real)
    requires IsSquareRoot(sqrt) && dir != Zero
    requires !VecApproximation(head, tail, DefaultEpsilon)
    requires Cross(Sub(head, tail), dir) == 0.0
    ensures (VecApproximation(head, pos, DefaultEpsilon) || VecApproximation(tail, pos, DefaultEpsilon)
             || Collinear(pos, head, tail)) ==> GetRayToLineDistance(head, tail, pos, dir, sqrt) == Finite(0.0)
    ensures (!VecApproximation(head, pos, DefaultEpsilon) && !VecApproximation(tail, pos, DefaultEpsilon)
             && !Collinear(pos, head, tail)) ==> GetRayToLineDistance(head, tail, pos, dir, sqrt) == Infinity
  {
    RayToLineOnLine(head, tail, pos, dir, sqrt);
    RayToLineNever(head, tail, pos, dir, sqrt);
    assert Parallel(Sub(head, tail), Heading(dir, sqrt)) by {
      CrossScaled2(Sub(head, tail), HeadingFactor(dir, sqrt), dir);
      DotPerpIsCross(Sub(head, tail), Heading(dir, sqrt));
      NearZero(0.0);
    }
  }

  /** The last step of GetRayToLineDistance on its numerator r and
      denominator: 0 when r is near zero, infinite when the denominator is. */
  function RatioOrInfinity(r: real, den: real): Dist {
    if FloatApproximation(r, 0.0, DefaultEpsilon) then Finite(0.0)
    else if FloatApproximation(den, 0.0, DefaultEpsilon) then Infinity
    else Finite(r / den)
  }

  /** For a segment that is not a single point, the distance in terms of
      r = Cross(head - tail, head - pos) and the denominator
      (head - tail)•RayNormal(dir). */
  lemma RayToLineCases(head: Vec, tail: Vec, pos: Vec, dir: Vec, sqrt: real -> real)
    requires IsSquareRoot(sqrt) && dir != Zero
    requires !VecApproximation(head, tail, DefaultEpsilon)
    ensures GetRayToLineDistance(head, tail, pos, dir, sqrt)
            == if VecApproximation(head, pos, DefaultEpsilon) || VecApproximation(tail, pos, DefaultEpsilon) then Finite(0.0)
               else RatioOrInfinity(Cross(Sub(head, tail), Sub(head, pos)), Dot(Sub(head, tail), RayNormal(dir, sqrt)))
  {
    RayToLineTerms(head, tail, pos, dir, sqrt);
  }

  /** The numerator of the distance is twice the signed area of the
      triangle (pos, head, tail), the quantity `Collinear` tests. */
  lemma AreaAsCross(p: Vec, h: Vec, t: Vec)
    ensures Area(p, h, t) == Cross(Sub(h, t), Sub(h, p))
  {
  }

  /** A ray starting at an end of a (non-point) segment, or on its line as
      the source's `Collinear` test judges it, is at distance 0. */
  lemma RayToLineOnLine(head: Vec, tail: Vec, pos: Vec, dir: Vec, sqrt: real -> real)
    requires IsSquareRoot(sqrt) && dir != Zero
    requires !VecApproximation(head, tail, DefaultEpsilon)
    ensures (VecApproximation(head, pos, DefaultEpsilon) || VecApproximation(tail, pos, DefaultEpsilon)
             || Collinear(pos, head, tail)) ==> GetRayToLineDistance(head, tail, pos, dir, sqrt) == Finite(0.0)
  {
    RayToLineCases(head, tail, pos, dir, sqrt);
    ClosedFormTerms(head, tail, pos, dir, sqrt);
    RatioOrInfinityMeaning(Area(pos, head, tail), Cross(Sub(head, tail), Heading(dir, sqrt)));
  }

  /** A ray starting off the line of a (non-point) segment that the source's
      `Parallel` test finds parallel to the ray's heading never meets the
      line: the distance is infinite. */
  lemma RayToLineNever(head: Vec, tail: Vec, pos: Vec, dir: Vec, sqrt: real -> real)
    requires IsSquareRoot(sqrt) && dir != Zero
    requires !VecApproximation(head, tail, DefaultEpsilon)
    ensures (!VecApproximation(head, pos, DefaultEpsilon) && !VecApproximation(tail, pos, DefaultEpsilon)
             && !Collinear(pos, head, tail) && Parallel(Sub(head, tail), Heading(dir, sqrt))) ==>
              GetRayToLineDistance(head, tail, pos, dir, sqrt) == Infinity
  {
    RayToLineCases(head, tail, pos, dir, sqrt);
    ClosedFormTerms(head, tail, pos, dir, sqrt);
    RatioOrInfinityMeaning(Area(pos, head, tail), Cross(Sub(head, tail), Heading(dir, sqrt)));
  }

  /** Otherwise the distance is the finite t whose travel along the heading
      cancels the triangle's area: t · Cross(head - tail, heading) equals
      Area(pos, head, tail). */
  lemma RayToLineMeets(head: Vec, tail: Vec, pos: Vec, dir: Vec, sqrt: real -> real)
    requires IsSquareRoot(sqrt) && dir != Zero
    requires !VecApproximation(head, tail, DefaultEpsilon)
    ensures (!VecApproximation(head, pos, DefaultEpsilon) && !VecApproximation(tail, pos, DefaultEpsilon)
             && !Collinear(pos, head, tail) && !Parallel(Sub(head, tail), Heading(dir, sqrt))) ==>
              Solves(GetRayToLineDistance(head, tail, pos, dir, sqrt), Cross(Sub(head, tail), Heading(dir, sqrt)),
                     Area(pos, head, tail))
  {
    var r := Area(pos, head, tail);
    var den := Cross(Sub(head, tail), Heading(dir, sqrt));
    if !VecApproximation(head, pos, DefaultEpsilon) && !VecApproximation(tail, pos, DefaultEpsilon)
       && !Collinear(pos, head, tail) && !Parallel(Sub(head, tail), Heading(dir, sqrt)) {
      RayToLineCases(head, tail, pos, dir, sqrt);
      ClosedFormTerms(head, tail, pos, dir, sqrt);
      FiniteQuotient(GetRayToLineDistance(head, tail, pos, dir, sqrt), r, den);
    }
  }

  /** `d` is a finite t with t · den == r. */
  predicate Solves(d: Dist, den: real, r: real) {
    d.Finite? && d.value * den == r
  }

  /** A ratio that is neither 0 nor infinite is the exact quotient. */
  lemma FiniteQuotient(d: Dist, r: real, den: real)
    requires d == RatioOrInfinity(r, den)
    requires !FloatApproximation(r, 0.0, DefaultEpsilon) && !FloatApproximation(den, 0.0, DefaultEpsilon)
    ensures Solves(d, den, r)
  {
    RatioOrInfinityMeaning(r, den);
  }

  /** The terms of GetRayToLineDistance as the quantities the source's
      `Collinear` and `Parallel` tests measure. */
  lemma ClosedFormTerms(head: Vec, tail: Vec, pos: Vec, dir: Vec, sqrt: real -> real)
    requires IsSquareRoot(sqrt) && dir != Zero
    ensures Cross(Sub(head, tail), Sub(head, pos)) == Area(pos, head, tail)
    ensures Dot(Sub(head, tail), RayNormal(dir, sqrt)) == Cross(Sub(head, tail), Heading(dir, sqrt))
    ensures Collinear(pos, head, tail) <==> FloatApproximation(Area(pos, head, tail), 0.0, DefaultEpsilon)
    ensures Parallel(Sub(head, tail), Heading(dir, sqrt))
            <==> FloatApproximation(Cross(Sub(head, tail), Heading(dir, sqrt)), 0.0, DefaultEpsilon)
  {
    HeadingNormal(dir, sqrt);
    DotPerpIsCross(Sub(head, tail), Heading(dir, sqrt));
    CollinearMeasure(pos, head, tail);
    AreaAsCross(pos, head, tail);
  }

  /** What the last step of GetRayToLineDistance yields: 0 for a near-zero
      numerator, infinity for a near-zero denominator, and otherwise the
      exact quotient. */
  lemma RatioOrInfinityMeaning(r: real, den: real)
    ensures FloatApproximation(r, 0.0, DefaultEpsilon) ==> RatioOrInfinity(r, den) == Finite(0.0)
    ensures !FloatApproximation(r, 0.0, DefaultEpsilon) && FloatApproximation(den, 0.0, DefaultEpsilon) ==>
              RatioOrInfinity(r, den) == Infinity
    ensures !FloatApproximation(r, 0.0, DefaultEpsilon) && !FloatApproximation(den, 0.0, DefaultEpsilon) ==>
              RatioOrInfinity(r, den).Finite? && RatioOrInfinity(r, den).value * den == r
  {
    if !FloatApproximation(r, 0.0, DefaultEpsilon) && !FloatApproximation(den, 0.0, DefaultEpsilon) {
      NearZero(0.0);
      assert den != 0.0;
      assert (r / den) * den == r;
    }
  }

  /** Negating the denominator negates the ratio. */
  lemma RatioOrInfinityNegated(r: real, den': real, den: real)
    requires den' == -den
    ensures RatioOrInfinity(r, den') == RatioOrInfinity(r, den).Negated()
  {
    NearZero(den);
    if den != 0.0 {
      assert r / (-den) == -(r / den);
    }
  }

  /** A finite non-zero ratio t satisfies t · den == r. */
  lemma RatioOrInfinityFinite(r: real, den: real, t: real)
    requires RatioOrInfinity(r, den) == Finite(t) && t != 0.0
    ensures t * den == r
  {
    NearZero(den);
    assert den != 0.0;
  }

  /** Pointing the ray the other way negates the distance (a point segment,
      whose distance is a length, is excluded). */
  lemma {:induction false} RayToLineReversed(head: Vec, tail: Vec, pos: Vec, dir: Vec, sqrt: real -> real)
    requires IsSquareRoot(sqrt) && dir != Zero
    requires !VecApproximation(head, tail, DefaultEpsilon)
    ensures GetRayToLineDistance(head, tail, pos, Neg(dir), sqrt)
         == GetRayToLineDistance(head, tail, pos, dir, sqrt).Negated()
  {
    NegNonZero(dir);
    RayToLineCases(head, tail, pos, dir, sqrt);
    RayToLineCases(head, tail, pos, Neg(dir), sqrt);
    ReversedRatio(Sub(head, tail), Sub(head, pos), dir, sqrt);
    if VecApproximation(head, pos, DefaultEpsilon) || VecApproximation(tail, pos, DefaultEpsilon) {
      assert Finite(0.0).Negated() == Finite(0.0);
    }
  }

  /** Reversing the direction reverses the normal, hence negates the ratio. */
  lemma ReversedRatio(diff: Vec, rel: Vec, dir: Vec, sqrt: real -> real)
    requires IsSquareRoot(sqrt) && dir != Zero
    ensures Neg(dir) != Zero
    ensures RatioOrInfinity(Cross(diff, rel), Dot(diff, RayNormal(Neg(dir), sqrt)))
         == RatioOrInfinity(Cross(diff, rel), Dot(diff, RayNormal(dir, sqrt))).Negated()
  {
    NegNonZero(dir);
    NormalReversed(dir, sqrt);
    DotNeg(diff, RayNormal(dir, sqrt));
    RatioOrInfinityNegated(Cross(diff, rel), Dot(diff, RayNormal(Neg(dir), sqrt)), Dot(diff, RayNormal(dir, sqrt)));
  }

  /** The normal of the reversed ray is the reversed normal. */
  lemma NormalReversed(dir: Vec, sqrt: real -> real)
    requires IsSquareRoot(sqrt) && dir != Zero
    ensures Neg(dir) != Zero
    ensures RayNormal(Neg(dir), sqrt) == Neg(RayNormal(dir, sqrt))
  {
    NegNonZero(dir);
    var n := Perp(dir);
    assert Perp(Neg(dir)) == Neg(n);
    assert Dot(Neg(n), Neg(n)) == Dot(n, n) by {
      DotPerpNeg(n);
    }
    if !IsUnitVector(n) {
      DotPerpNeg(dir);
      NegNonZero(n);
      var l := Length(n, sqrt);
      assert Length(Neg(n), sqrt) == l;
      assert Scale(1.0 / l, Neg(n)) == Neg(Scale(1.0 / l, n));
    }
  }

  lemma NegNonZero(v: Vec)
    ensures Neg(v) == Zero <==> v == Zero
  {
  }

  lemma DotNeg(u: Vec, v: Vec)
    ensures Dot(u, Neg(v)) == -Dot(u, v)
  {
  }

  /** A finite non-zero result t is where the ray meets the line: the point
      pos + t·Heading(dir) lies exactly on the line through head and tail. */
  lemma {:induction false} RayToLineReaches(head: Vec, tail: Vec, pos: Vec, dir: Vec, sqrt: real -> real, t: real)
    requires IsSquareRoot(sqrt) && dir != Zero
    requires !VecApproximation(head, tail, DefaultEpsilon)
    requires GetRayToLineDistance(head, tail, pos, dir, sqrt) == Finite(t) && t != 0.0
    ensures Cross(Sub(head, tail), Sub(Add(pos, Scale(t, Heading(dir, sqrt))), head)) == 0.0
  {
    var diff := Sub(head, tail);
    assert RatioOrInfinity(Cross(diff, Sub(head, pos)), Dot(diff, RayNormal(dir, sqrt))) == Finite(t) by {
      RayToLineCases(head, tail, pos, dir, sqrt);
    }
    HeadingNormal(dir, sqrt);
    ReachesFromRatio(diff, head, pos, Heading(dir, sqrt), t);
  }

  lemma ReachesFromRatio(diff: Vec, head: Vec, pos: Vec, h: Vec, t: real)
    requires RatioOrInfinity(Cross(diff, Sub(head, pos)), Dot(diff, Perp(h))) == Finite(t) && t != 0.0
    ensures Cross(diff, Sub(Add(pos, Scale(t, h)), head)) == 0.0
  {
    RatioOrInfinityFinite(Cross(diff, Sub(head, pos)), Dot(diff, Perp(h)), t);
    DotPerpIsCross(diff, h);
    CrossScaled2(diff, t, h);
    CrossLinear(diff, Add(pos, Scale(t, h)), head);
    CrossLinear(diff, head, pos);
    CrossAdditive(diff, pos, Scale(t, h));
  }

  lemma CrossScaled2(u: Vec, k: real, v: Vec)
    ensures Cross(u, Scale(k, v)) == k * Cross(u, v)
  {
  }

  lemma CrossLinear(u: Vec, v: Vec, w: Vec)
    ensures Cross(u, Sub(v, w)) == Cross(u, v) - Cross(u, w)
  {
  }

  lemma CrossAdditive(u: Vec, v: Vec, w: Vec)
    ensures Cross(u, Add(v, w)) == Cross(u, v) + Cross(u, w)
  {
  }

  // Ray and segment intersection ==============================================

  /** x counts as non-negative: strictly positive, or zero up to the
      tolerance when `tolerant` (the source), exactly zero otherwise. */
  predicate AtLeastZero(x: real, tolerant: bool) {
    x > 0.0 || (if tolerant then FloatApproximation(x, 0.0, DefaultEpsilon) else x == 0.0)
  }

  predicate AtMostZero(x: real, tolerant: bool) {
    x < 0.0 || (if tolerant then FloatApproximation(x, 0.0, DefaultEpsilon) else x == 0.0)
  }

  /** The case analysis of `RayIntersectsWithSegment` on the endpoints seen
      from the ray start, h = head - pos and t = tail - pos:
      a = h•<t.y, -t.x> says on which side of h the tail lies, and
      b = h•<dir.y, -dir.x>, c = t•<dir.y, -dir.x> say on which side of the
      ray each endpoint lies. `tolerant` selects how the signs of b and c
      are tested. */
  predicate SegmentHitTest(head: Vec, tail: Vec, pos: Vec, dir: Vec, tolerant: bool) {
    if VecApproximation(head, pos, DefaultEpsilon) || VecApproximation(tail, pos, DefaultEpsilon) then true
    else
      var h := Sub(head, pos);
      var t := Sub(tail, pos);
      var a := Dot(h, Vec(t.y, -t.x));
      var dirC := Vec(dir.y, -dir.x);
      if FloatApproximation(a, 0.0, DefaultEpsilon) then
        if Dot(h, t) < 0.0 then true
        else FloatApproximation(Dot(h, dirC), 0.0, DefaultEpsilon) && Dot(h, dir) > 0.0
      else
        var b := Dot(h, dirC);
        var c := Dot(t, dirC);
        if a > 0.0 then AtLeastZero(b, tolerant) && AtMostZero(c, tolerant)
        else AtMostZero(b, tolerant) && AtLeastZero(c, tolerant)
  }

  /** `RayIntersectsWithSegment` as the source writes it: the signs of b and
      c pass when they are within the absolute tolerance of zero. */
  predicate RayIntersectsWithSegmentAsWritten(head: Vec, tail: Vec, pos: Vec, dir: Vec) {
    SegmentHitTest(head, tail, pos, dir, true)
  }

  /** `RayIntersectsWithSegment` with exact sign tests on b and c. */
  predicate RayIntersectsWithSegment(head: Vec, tail: Vec, pos: Vec, dir: Vec) {
    SegmentHitTest(head, tail, pos, dir, false)
  }

  /** Both versions report an intersection when the ray starts at an
      endpoint, or strictly between the two endpoints of the segment. */
  lemma {:induction false} IntersectsFromInside(head: Vec, tail: Vec, pos: Vec, dir: Vec, s: real, tolerant: bool)
    requires VecApproximation(head, pos, DefaultEpsilon) || VecApproximation(tail, pos, DefaultEpsilon)
      || (0.0 < s < 1.0 && pos == Add(head, Scale(s, Sub(tail, head))))
    ensures SegmentHitTest(head, tail, pos, dir, tolerant)
  {
    if !VecApproximation(head, pos, DefaultEpsilon) && !VecApproximation(tail, pos, DefaultEpsilon) {
      var d := Sub(tail, head);
      VecApproximationReflexiveSymmetric(head, head);
      assert d != Zero;
      var h := Sub(head, pos);
      var t := Sub(tail, pos);
      assert h == Scale(-s, d);
      assert t == Scale(1.0 - s, d);
      BetweenSigns(d, s);
      DotPerpIsCross(h, t);
      NearZero(0.0);
    }
  }

  /** Seen from a point strictly inside the segment, the two endpoint
      vectors are opposite: zero cross product, negative dot product. */
  lemma BetweenSigns(d: Vec, s: real)
    requires d != Zero && 0.0 < s < 1.0
    ensures Cross(Scale(-s, d), Scale(1.0 - s, d)) == 0.0
    ensures Dot(Scale(-s, d), Scale(1.0 - s, d)) < 0.0
  {
    CrossScaled2(Scale(-s, d), 1.0 - s, d);
    CrossAntisymmetric(Scale(-s, d), d);
    CrossScaled2(d, -s, d);
    CrossScaled(d, 1.0);
    assert Cross(d, d) == 0.0 by {
      CrossAntisymmetric(d, d);
    }
    DotScaled(-s, d, Scale(1.0 - s, d));
    DotScaled(1.0 - s, d, d);
    DotSelf(d);
    var q := Dot(d, d);
    assert Dot(Scale(-s, d), Scale(1.0 - s, d)) == -s * ((1.0 - s) * q);
    ProductPositive(s, 1.0 - s);
    ProductPositive(s * (1.0 - s), q);
    assert s * ((1.0 - s) * q) == (s * (1.0 - s)) * q;
  }

  // Texture index =============================================================

  /** `TextureIndexOnLineOfRay`: how far from the head, along the segment's
      line, the ray's line crosses it; `Infinity` for a parallel ray off the
      line. */
  function TextureIndexOnLineOfRay(head: Vec, tail: Vec, pos: Vec, dir: Vec, sqrt: real -> real): Dist
    requires IsSquareRoot(sqrt)
  {
    if Parallel(dir, Sub(head, tail)) then
      if Collinear(pos, head, tail) then
        if Dot(dir, Sub(head, pos)) > 0.0 then Finite(0.0)
        else Finite(Length(Sub(pos, head), sqrt))
      else Infinity
    else
      ParallelDegenerate(dir, Sub(head, tail), 0.0);
      GetRayToLineDistance(pos, Add(pos, dir), head, Sub(tail, head), sqrt)
  }

  /** A single-point wall always yields a finite, non-negative index: 0 when
      the ray points at it, the distance to it otherwise. */
  lemma TextureIndexPointWall(head: Vec, pos: Vec, dir: Vec, sqrt: real -> real)
    requires IsSquareRoot(sqrt)
    ensures TextureIndexOnLineOfRay(head, head, pos, dir, sqrt)
         == if Dot(dir, Sub(head, pos)) > 0.0 then Finite(0.0) else Finite(Length(Sub(pos, head), sqrt))
  {
    ParallelDegenerate(dir, Sub(head, head), 0.0);
    CollinearWhenPointsCoincide(pos, head, head);
  }

  /** A finite non-zero index t locates the crossing: the point
      head + t·Heading(tail - head) on the segment's line lies exactly on the
      ray's line. */
  lemma TextureIndexLocatesCrossing(head: Vec, tail: Vec, pos: Vec, dir: Vec, sqrt: real -> real, t: real)
    requires IsSquareRoot(sqrt)
    requires !Parallel(dir, Sub(head, tail))
    requires !VecApproximation(pos, Add(pos, dir), DefaultEpsilon)
    requires TextureIndexOnLineOfRay(head, tail, pos, dir, sqrt) == Finite(t) && t != 0.0
    ensures Sub(tail, head) != Zero
    ensures Cross(dir, Sub(Add(head, Scale(t, Heading(Sub(tail, head), sqrt))), pos)) == 0.0
  {
    TextureIndexNotParallel(head, tail, pos, dir, sqrt);
    CrossingOnRayLine(pos, dir, head, Sub(tail, head), sqrt, t);
  }

  /** Off the parallel case the segment has a direction, and the index is
      the ray-to-line distance with the roles of ray and segment swapped. */
  lemma TextureIndexNotParallel(head: Vec, tail: Vec, pos: Vec, dir: Vec, sqrt: real -> real)
    requires IsSquareRoot(sqrt)
    requires !Parallel(dir, Sub(head, tail))
    ensures Sub(tail, head) != Zero
    ensures TextureIndexOnLineOfRay(head, tail, pos, dir, sqrt)
         == GetRayToLineDistance(pos, Add(pos, dir), head, Sub(tail, head), sqrt)
  {
    ParallelDegenerate(dir, Sub(head, tail), 0.0);
  }

  lemma CrossingOnRayLine(pos: Vec, dir: Vec, head: Vec, along: Vec, sqrt: real -> real, t: real)
    requires IsSquareRoot(sqrt) && along != Zero
    requires !VecApproximation(pos, Add(pos, dir), DefaultEpsilon)
    requires GetRayToLineDistance(pos, Add(pos, dir), head, along, sqrt) == Finite(t) && t != 0.0
    ensures Cross(dir, Sub(Add(head, Scale(t, Heading(along, sqrt))), pos)) == 0.0
  {
    RayToLineReaches(pos, Add(pos, dir), head, along, sqrt, t);
    var x := Add(head, Scale(t, Heading(along, sqrt)));
    assert Sub(pos, Add(pos, dir)) == Neg(dir);
    CrossNegLeft(dir, Sub(x, pos));
  }

  lemma CrossNegLeft(u: Vec, v: Vec)
    ensures Cross(Neg(u), v) == -Cross(u, v)
  {
  }

  // Sign analysis behind the wall distance ===================================

  /** The quantities of the intersection test and of the ray-to-line
      distance, as cross products of h = head - pos and t = tail - pos. */
  lemma SegmentAlgebra(head: Vec, tail: Vec, pos: Vec, dir: Vec)
    ensures var h := Sub(head, pos);
            var t := Sub(tail, pos);
            && Dot(h, Vec(t.y, -t.x)) == Cross(h, t)
            && Dot(Sub(pos, head), Vec(head.y - tail.y, tail.x - head.x)) == Cross(h, t)
            && Cross(Sub(head, tail), Sub(head, pos)) == Cross(h, t)
            && Cross(Sub(head, tail), dir) == Dot(h, Vec(dir.y, -dir.x)) - Dot(t, Vec(dir.y, -dir.x))
  {
  }

  /** With exact sign tests, an intersection off the collinear case puts
      the ray between the endpoint directions: the distance numerator r and
      Cross(head - tail, dir) never have opposite signs. */
  lemma ExactTestSigns(head: Vec, tail: Vec, pos: Vec, dir: Vec)
    requires RayIntersectsWithSegment(head, tail, pos, dir)
    requires !VecApproximation(head, pos, DefaultEpsilon) && !VecApproximation(tail, pos, DefaultEpsilon)
    requires !Collinear(pos, head, tail)
    ensures var r := Cross(Sub(head, tail), Sub(head, pos));
            var e := Cross(Sub(head, tail), dir);
            (r > 0.0 ==> e >= 0.0) && (r < 0.0 ==> e <= 0.0)
  {
    SegmentAlgebra(head, tail, pos, dir);
  }

  /** The distance is never negative when the numerator and the direction
      term agree in sign. */
  lemma RayToLineSigned(head: Vec, tail: Vec, pos: Vec, dir: Vec, sqrt: real -> real)
    requires IsSquareRoot(sqrt) && dir != Zero
    requires !VecApproximation(head, pos, DefaultEpsilon) && !VecApproximation(tail, pos, DefaultEpsilon) ==>
             var r := Cross(Sub(head, tail), Sub(head, pos));
             var e := Cross(Sub(head, tail), dir);
             (r > 0.0 ==> e >= 0.0) && (r < 0.0 ==> e <= 0.0)
    ensures GetRayToLineDistance(head, tail, pos, dir, sqrt) == Infinity
         || GetRayToLineDistance(head, tail, pos, dir, sqrt).value >= 0.0
  {
    if !VecApproximation(head, tail, DefaultEpsilon) {
      RayToLineCases(head, tail, pos, dir, sqrt);
      if !VecApproximation(head, pos, DefaultEpsilon) && !VecApproximation(tail, pos, DefaultEpsilon) {
        DenominatorSign(Sub(head, tail), dir, sqrt);
        RatioOrInfinitySigned(Cross(Sub(head, tail), Sub(head, pos)), Dot(Sub(head, tail), RayNormal(dir, sqrt)));
      }
    }
  }

  /** The denominator has the sign of Cross(diff, dir). */
  lemma DenominatorSign(diff: Vec, dir: Vec, sqrt: real -> real)
    requires IsSquareRoot(sqrt) && dir != Zero
    ensures Cross(diff, dir) >= 0.0 ==> Dot(diff, RayNormal(dir, sqrt)) >= 0.0
    ensures Cross(diff, dir) <= 0.0 ==> Dot(diff, RayNormal(dir, sqrt)) <= 0.0
  {
    HeadingNormal(dir, sqrt);
    DotScaled(HeadingFactor(dir, sqrt), diff, Perp(dir));
    DotPerpIsCross(diff, dir);
    var k := HeadingFactor(dir, sqrt);
    var e := Cross(diff, dir);
    if e > 0.0 {
      ProductPositive(k, e);
    } else if e < 0.0 {
      ProductPositive(k, -e);
    }
  }

  lemma RatioOrInfinitySigned(r: real, den: real)
    requires (r > 0.0 ==> den >= 0.0) && (r < 0.0 ==> den <= 0.0)
    ensures RatioOrInfinity(r, den) == Infinity || RatioOrInfinity(r, den).value >= 0.0
  {
    NearZero(den);
    if den != 0.0 && r != 0.0 {
      if r > 0.0 {
        assert r / den > 0.0;
      } else {
        assert (-r) / (-den) > 0.0;
        assert r / den == (-r) / (-den);
      }
    }
  }
}
