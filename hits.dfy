/** A single ray/surface intersection record and its priority-ordered kind
    (src/core/hits.cc, include/core/hits.h). */
module Hits {
  import Geometry

  /** The surface kinds a ray can meet. The source gives each an integer
      priority; `Invalid` is the "no hit" value. */
  datatype HitType = RoomWall | Wall | Portal | Void | Invalid {

    /** The integer value of the enumerator, used as the priority. */
    function Priority(): (p: nat)
      ensures p <= 4
      ensures p == 0 <==> this == Invalid
    {
      match this
      case RoomWall => 4
      case Wall => 3
      case Portal => 2
      case Void => 1
      case Invalid => 0
    }

    /** `this` strictly outranks `other` (the enum comparison `>` of the source). */
    predicate Outranks(other: HitType) {
      Priority() > other.Priority()
    }
  }

  /** Priority is a strict total order: distinct kinds never tie, and the
      order is RoomWall > Wall > Portal > Void > Invalid. */
  lemma PriorityIsStrictTotalOrder(a: HitType, b: HitType, c: HitType)
    ensures a != b <==> (a.Outranks(b) || b.Outranks(a))
    ensures !(a.Outranks(b) && b.Outranks(a))
    ensures a.Outranks(b) && b.Outranks(c) ==> a.Outranks(c)
    ensures RoomWall.Outranks(Wall) && Wall.Outranks(Portal) && Portal.Outranks(Void) && Void.Outranks(Invalid)
  {
  }

  /** A hit: how far along the ray, what was hit, and where on its texture. */
  datatype Hit = Hit(distance: real, kind: HitType, textureIndex: real) {

    /** True for the "no hit" value. */
    predicate IsNoHit() {
      kind == Invalid
    }

    /** The hit moved `shift` further along the ray; kind and texture are kept. */
    function ShiftDistance(shift: real): (h: Hit)
      ensures h.distance - distance == shift
      ensures h.kind == kind && h.textureIndex == textureIndex
    {
      this.(distance := distance + shift)
    }

    /** The hit with its distance multiplied by `scale`; kind and texture are kept. */
    function ScaleDistance(scale: real): (h: Hit)
      ensures h.distance == distance * scale
      ensures h.kind == kind && h.textureIndex == textureIndex
    {
      this.(distance := distance * scale)
    }

    /** The hit lies on the ray no further than `maxDistance`. */
    predicate WithinDistance(maxDistance: real) {
      !(distance < 0.0 || distance > maxDistance)
    }

    /** `operator==`: same kind and approximately the same distance and texture. */
    predicate Approximates(other: Hit) {
      kind == other.kind
      && Geometry.FloatApproximation(distance, other.distance, Geometry.DefaultEpsilon)
      && Geometry.FloatApproximation(textureIndex, other.textureIndex, Geometry.DefaultEpsilon)
    }

    /** `operator!=`. */
    predicate Differs(other: Hit) {
      !Approximates(other)
    }
  }

  /** The default-constructed hit. */
  function NoHit(): (h: Hit)
    ensures h.IsNoHit() && h.distance == 0.0 && h.textureIndex == 0.0
  {
    Hit(0.0, Invalid, 0.0)
  }

  /** `WithinDistance(m)` holds exactly for distances in [0, m]. */
  lemma WithinDistanceIsInterval(h: Hit, m: real)
    ensures h.WithinDistance(m) <==> 0.0 <= h.distance <= m
  {
  }

  /** Shifting by s and back by -s restores the hit; scaling by 1 changes nothing. */
  lemma ShiftRoundTrip(h: Hit, s: real)
    ensures h.ShiftDistance(s).ShiftDistance(-s) == h
    ensures h.ScaleDistance(1.0) == h
  {
  }

  /** `operator==` is an equivalence-like relation on kinds: approximate hits
      have equal kinds, it is reflexive and symmetric, and `!=` is its negation. */
  lemma ApproximatesProperties(a: Hit, b: Hit)
    ensures a.Approximates(b) ==> a.kind == b.kind
    ensures a.Approximates(a)
    ensures a.Approximates(b) <==> b.Approximates(a)
    ensures a.Differs(b) <==> !a.Approximates(b)
  {
    Geometry.FloatApproximationReflexiveSymmetric(a.distance, b.distance, Geometry.DefaultEpsilon);
    Geometry.FloatApproximationReflexiveSymmetric(a.textureIndex, b.textureIndex, Geometry.DefaultEpsilon);
  }
}
