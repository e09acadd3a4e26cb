/** A straight wall segment and the hit a ray records on it
    (src/core/wall.cc, include/core/wall.h). */
module Walls {
  import opened Geometry
  import opened Hits

  /** The value `Distance` returns when the ray misses the wall. */
  const Missed: Dist := Finite(-1.0)

  /** A wall from `head` to `tail`. Walls are plain values: two walls are
      equal exactly when their heads and their tails are. */
  datatype Wall = Wall(head: Vec, tail: Vec) {

    /** `IntersectsWith`, with the exact sign tests of
        `RayIntersectsWithSegment`. */
    predicate IntersectsWith(pos: Vec, dir: Vec) {
      RayIntersectsWithSegment(head, tail, pos, dir)
    }

    /** `IntersectsWith` with the tolerant sign tests the source uses. */
    predicate IntersectsWithAsWritten(pos: Vec, dir: Vec) {
      RayIntersectsWithSegmentAsWritten(head, tail, pos, dir)
    }

    /** The distance of `Distance` once an intersection is known: a ray
        starting collinear with the wall is 0 away when it starts between
        the ends and otherwise as far as the nearer end; any other ray is
        measured to the wall's line. */
    function IntersectionDistance(pos: Vec, dir: Vec, sqrt: real -> real): Dist
      requires IsSquareRoot(sqrt) && dir != Zero
    {
      if Collinear(pos, head, tail) then
        if Dot(Sub(head, pos), Sub(tail, pos)) > 0.0 then
          Finite(Min(Length(Sub(head, pos), sqrt), Length(Sub(tail, pos), sqrt)))
        else Finite(0.0)
      else GetRayToLineDistance(head, tail, pos, dir, sqrt)
    }

    /** `Distance`: how far along the ray the wall is, `Missed` (-1) when the
        ray does not meet it. */
    function Distance(pos: Vec, dir: Vec, sqrt: real -> real): Dist
      requires IsSquareRoot(sqrt) && dir != Zero
    {
      if IntersectsWith(pos, dir) then IntersectionDistance(pos, dir, sqrt) else Missed
    }

    /** `Distance` with the tolerant intersection test of the source. */
    function DistanceAsWritten(pos: Vec, dir: Vec, sqrt: real -> real): Dist
      requires IsSquareRoot(sqrt) && dir != Zero
    {
      if IntersectsWithAsWritten(pos, dir) then IntersectionDistance(pos, dir, sqrt) else Missed
    }

    /** `TextureIndex`: where on the wall, measured from the head, the ray's
        line crosses it. */
    function TextureIndex(pos: Vec, dir: Vec, sqrt: real -> real): Dist
      requires IsSquareRoot(sqrt)
    {
      TextureIndexOnLineOfRay(head, tail, pos, dir, sqrt)
    }

    /** `GetWallHit`: the invalid hit when the ray misses, otherwise a
        Wall-kind hit at the wall's distance with its texture index. */
    function GetWallHit(pos: Vec, dir: Vec, sqrt: real -> real): Hit
      requires IsSquareRoot(sqrt) && dir != Zero
    {
      var distance := Distance(pos, dir, sqrt);
      if distance == Missed then NoHit()
      else
        match (distance, TextureIndex(pos, dir, sqrt))
        case (Finite(d), Finite(index)) => Hit(d, HitType.Wall, index)
        case _ => NoHit()
    }
  }

  /** A ray that meets the wall is never reported behind its start: the
      distance is infinite or non-negative, so it is `Missed` exactly when
      the ray does not intersect. */
  lemma {:induction false} DistanceNonNegative(w: Wall, pos: Vec, dir: Vec, sqrt: real -> real)
    requires IsSquareRoot(sqrt) && dir != Zero
    ensures w.IntersectsWith(pos, dir) ==>
              w.Distance(pos, dir, sqrt) == Infinity || w.Distance(pos, dir, sqrt).value >= 0.0
    ensures w.Distance(pos, dir, sqrt) == Missed <==> !w.IntersectsWith(pos, dir)
  {
    if w.IntersectsWith(pos, dir) {
      IntersectionNonNegative(w, pos, dir, sqrt);
    }
  }

  lemma IntersectionNonNegative(w: Wall, pos: Vec, dir: Vec, sqrt: real -> real)
    requires IsSquareRoot(sqrt) && dir != Zero
    requires w.IntersectsWith(pos, dir)
    ensures w.IntersectionDistance(pos, dir, sqrt) == Infinity
         || w.IntersectionDistance(pos, dir, sqrt).value >= 0.0
  {
    if !Collinear(pos, w.head, w.tail) {
      if !VecApproximation(w.head, pos, DefaultEpsilon) && !VecApproximation(w.tail, pos, DefaultEpsilon) {
        ExactTestSigns(w.head, w.tail, pos, dir);
      }
      RayToLineSigned(w.head, w.tail, pos, dir, sqrt);
    }
  }

  /** The source's tolerant test accepts a wall 8e-7 long lying 0.75 behind
      the ray start, and `Distance` then reports -0.75: a negative distance
      for a wall it declares intersected. The exact test rejects it. */
  lemma DistanceAsWrittenNegative(sqrt: real -> real)
    requires IsSquareRoot(sqrt)
    ensures var w := Wall.Wall(Vec(-0.75, 0.0000004), Vec(-0.75, -0.0000004));
            && w.IntersectsWithAsWritten(Zero, Vec(1.0, 0.0))
            && w.DistanceAsWritten(Zero, Vec(1.0, 0.0), sqrt) == Finite(-0.75)
            && !w.IntersectsWith(Zero, Vec(1.0, 0.0))
  {
    var head, tail, dir := Vec(-0.75, 0.0000004), Vec(-0.75, -0.0000004), Vec(1.0, 0.0);
    ShortWallTests(head, tail, dir);
    ShortWallDistance(head, tail, dir, sqrt);
  }

  lemma ShortWallTests(head: Vec, tail: Vec, dir: Vec)
    requires head == Vec(-0.75, 0.0000004) && tail == Vec(-0.75, -0.0000004) && dir == Vec(1.0, 0.0)
    ensures RayIntersectsWithSegmentAsWritten(head, tail, Zero, dir)
    ensures !RayIntersectsWithSegment(head, tail, Zero, dir)
    ensures !Collinear(Zero, head, tail)
  {
    assert !VecApproximation(head, Zero, DefaultEpsilon);
    assert !VecApproximation(tail, Zero, DefaultEpsilon);
    assert Dot(head, Vec(tail.y, -tail.x)) == 0.0000006;
    assert Dot(head, Vec(dir.y, -dir.x)) == -0.0000004;
    assert Dot(tail, Vec(dir.y, -dir.x)) == 0.0000004;
    SegmentAlgebra(head, tail, Zero, dir);
  }

  lemma ShortWallDistance(head: Vec, tail: Vec, dir: Vec, sqrt: real -> real)
    requires IsSquareRoot(sqrt)
    requires head == Vec(-0.75, 0.0000004) && tail == Vec(-0.75, -0.0000004) && dir == Vec(1.0, 0.0)
    ensures GetRayToLineDistance(head, tail, Zero, dir, sqrt) == Finite(-0.75)
  {
    ShortWallApart(head, tail);
    RayToLineCases(head, tail, Zero, dir, sqrt);
    ShortWallNormal(dir, sqrt);
    ShortWallRatio(Cross(Sub(head, tail), Sub(head, Zero)), Dot(Sub(head, tail), RayNormal(dir, sqrt)));
  }

  lemma ShortWallApart(head: Vec, tail: Vec)
    requires head == Vec(-0.75, 0.0000004) && tail == Vec(-0.75, -0.0000004)
    ensures !VecApproximation(head, tail, DefaultEpsilon)
    ensures !VecApproximation(head, Zero, DefaultEpsilon) && !VecApproximation(tail, Zero, DefaultEpsilon)
    ensures Cross(Sub(head, tail), Sub(head, Zero)) == 0.0000006
    ensures Dot(Sub(head, tail), Vec(0.0, -1.0)) == -0.0000008
  {
  }

  lemma ShortWallNormal(dir: Vec, sqrt: real -> real)
    requires IsSquareRoot(sqrt) && dir == Vec(1.0, 0.0)
    ensures RayNormal(dir, sqrt) == Vec(0.0, -1.0)
  {
    var n := Vec(0.0, -1.0);
    assert Perp(dir) == n;
    assert Dot(n, n) == 1.0;
    FloatApproximationReflexiveSymmetric(1.0, 1.0, DefaultEpsilon);
    assert IsUnitVector(n);
  }

  lemma ShortWallRatio(r: real, den: real)
    requires r == 0.0000006 && den == -0.0000008
    ensures RatioOrInfinity(r, den) == Finite(-0.75)
  {
  }

  /** A ray starting strictly between the ends of a wall is 0 away from it. */
  lemma DistanceFromInside(w: Wall, pos: Vec, dir: Vec, sqrt: real -> real, s: real)
    requires IsSquareRoot(sqrt) && dir != Zero
    requires 0.0 < s < 1.0 && pos == Add(w.head, Scale(s, Sub(w.tail, w.head)))
    ensures w.Distance(pos, dir, sqrt) == Finite(0.0)
  {
    IntersectsFromInside(w.head, w.tail, pos, dir, s, false);
    InsideIsCollinear(w, pos, s);
  }

  lemma InsideIsCollinear(w: Wall, pos: Vec, s: real)
    requires 0.0 < s < 1.0 && pos == Add(w.head, Scale(s, Sub(w.tail, w.head)))
    ensures Collinear(pos, w.head, w.tail)
    ensures Dot(Sub(w.head, pos), Sub(w.tail, pos)) <= 0.0
  {
    var d := Sub(w.tail, w.head);
    if d == Zero {
      assert pos == w.head;
      CollinearWhenPointsCoincide(pos, w.head, w.tail);
    } else {
      assert Sub(w.head, pos) == Scale(-s, d);
      assert Sub(w.tail, pos) == Scale(1.0 - s, d);
      BetweenSigns(d, s);
      SegmentAlgebra(w.head, w.tail, pos, Zero);
      CollinearIsAreaTest(pos, w.head, w.tail);
      CollinearMeasure(pos, w.head, w.tail);
      NearZero(0.0);
    }
  }

  /** A ray starting on the wall's line but outside the wall, that meets it,
      is as far away as the nearer end, and that distance is positive. */
  lemma DistanceFromOutside(w: Wall, pos: Vec, dir: Vec, sqrt: real -> real)
    requires IsSquareRoot(sqrt) && dir != Zero
    requires w.IntersectsWith(pos, dir) && Collinear(pos, w.head, w.tail)
    requires Dot(Sub(w.head, pos), Sub(w.tail, pos)) > 0.0
    ensures var nearer := Min(Length(Sub(w.head, pos), sqrt), Length(Sub(w.tail, pos), sqrt));
            w.Distance(pos, dir, sqrt) == Finite(nearer) && 0.0 < nearer
  {
    assert Sub(w.head, pos) != Zero && Sub(w.tail, pos) != Zero;
  }

  /** `GetWallHit` is invalid exactly when the ray misses (or a value is
      infinite); otherwise it is a Wall hit in front of the ray carrying the
      wall's distance and texture index. */
  lemma {:induction false} WallHitProperties(w: Wall, pos: Vec, dir: Vec, sqrt: real -> real)
    requires IsSquareRoot(sqrt) && dir != Zero
    ensures var h := w.GetWallHit(pos, dir, sqrt);
            var distance := w.Distance(pos, dir, sqrt);
            var index := w.TextureIndex(pos, dir, sqrt);
            && (h.IsNoHit() <==> distance == Missed || !distance.Finite? || !index.Finite?)
            && (!h.IsNoHit() ==> && h.kind == HitType.Wall
                                 && w.IntersectsWith(pos, dir)
                                 && h.distance == distance.value && h.distance >= 0.0
                                 && h.textureIndex == index.value)
  {
    DistanceNonNegative(w, pos, dir, sqrt);
  }
}
