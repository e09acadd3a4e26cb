/** What the player sees and how a step moves them, shared by the game engine
    (src/core/game_engine.cc) and its earlier variant (src/core/current_room.cc).
    The room's ray cast, the side a path leaves through, the speed clamp and
    the rotation are not part of this model; they enter as the functions of
    a `Senses` value. */
module Perception {
  import opened Geometry
  import opened Hits
  import HitPackages
  import opened Rooms

  /** The side a path leaves the room through, or none of the four
      (`kUndefined`, which the `Direction` enum does not declare). */
  datatype Side = Toward(direction: Direction) | Undefined

  /** The collaborators whose bodies are not part of this model:
      `Room::GetVisible` (the hits along a ray up to a range),
      `Room::GetSideHit`, `AbsoluteClamp` and `FastRotation`. */
  datatype Senses = Senses(
    visible: (Room, Vec, Vec, real) -> map<real, Hit>,
    sideHit: (Room, Vec, Vec) -> Side,
    absoluteClamp: (real, real) -> real,
    rotate: (Vec, real, real) -> Vec)
  {
    /** A ray cast returns a hit package, so it satisfies the package invariant. */
    ghost predicate Valid() {
      forall room, pos, dir, range :: HitPackages.WellFormed(visible(room, pos, dir, range))
    }
  }

  // Vision =======================================================================

  /** `v` rotated `n` times by the rotation with the given cosine and sine. */
  function Rotated(rotate: (Vec, real, real) -> Vec, v: Vec, cos: real, sin: real, n: nat): Vec {
    if n == 0 then v else rotate(Rotated(rotate, v, cos, sin, n - 1), cos, sin)
  }

  /** The package seen along `dir`, its distances scaled by |view • dir| to
      undo the fish-eye effect. */
  ghost function SideView(s: Senses, room: Room, pos: Vec, view: Vec, dir: Vec, range: real): map<real, Hit> {
    HitPackages.Reinserted(s.visible(room, pos, dir, range), map[], HitPackages.Rescale.Scale(Abs(Dot(view, dir))))
  }

  /** The packages of `GetVision`, left-most first: the view direction in the
      middle, and for each i in 1..h the i-th counter-clockwise ray i places
      before it and the i-th clockwise ray i places after it. */
  ghost function Vision(s: Senses, room: Room, pos: Vec, view: Vec, cos: real, sin: real, h: nat, range: real)
    : (packages: seq<map<real, Hit>>)
    ensures |packages| == 2 * h + 1
  {
    if h == 0 then [s.visible(room, pos, view, range)]
    else
      [SideView(s, room, pos, view, Rotated(s.rotate, view, cos, -sin, h), range)]
      + Vision(s, room, pos, view, cos, sin, h - 1, range)
      + [SideView(s, room, pos, view, Rotated(s.rotate, view, cos, sin, h), range)]
  }

  /** Where each ray's package sits in the vision: the view's in the middle,
      the i-th counter-clockwise and clockwise ones i places either side. */
  lemma {:induction false} VisionLayout(s: Senses, room: Room, pos: Vec, view: Vec, cos: real, sin: real, h: nat, range: real, i: nat)
    requires i <= h
    ensures Vision(s, room, pos, view, cos, sin, h, range)[h] == s.visible(room, pos, view, range)
    ensures 1 <= i ==>
      && Vision(s, room, pos, view, cos, sin, h, range)[h - i]
           == SideView(s, room, pos, view, Rotated(s.rotate, view, cos, -sin, i), range)
      && Vision(s, room, pos, view, cos, sin, h, range)[h + i]
           == SideView(s, room, pos, view, Rotated(s.rotate, view, cos, sin, i), range)
  {
    if h > 0 {
      var inner := Vision(s, room, pos, view, cos, sin, h - 1, range);
      var left := SideView(s, room, pos, view, Rotated(s.rotate, view, cos, -sin, h), range);
      var right := SideView(s, room, pos, view, Rotated(s.rotate, view, cos, sin, h), range);
      assert Vision(s, room, pos, view, cos, sin, h, range) == [left] + inner + [right];
      if i < h {
        VisionLayout(s, room, pos, view, cos, sin, h - 1, range, i);
        FramedIndex(left, inner, right, h - 1);
        if 1 <= i {
          FramedIndex(left, inner, right, h - 1 - i);
          FramedIndex(left, inner, right, h - 1 + i);
        }
      } else {
        VisionLayout(s, room, pos, view, cos, sin, h - 1, range, 0);
        FramedIndex(left, inner, right, h - 1);
      }
    }
  }

  /** Indexing into a sequence with one element added at each end. */
  lemma FramedIndex<T>(left: T, inner: seq<T>, right: T, k: nat)
    requires k < |inner|
    ensures ([left] + inner + [right])[k + 1] == inner[k]
    ensures ([left] + inner + [right])[0] == left
    ensures ([left] + inner + [right])[|inner| + 1] == right
  {
  }

  /** Scaling by |view • dir| never turns a distance negative: a side view of
      hits in front of the player is still in front. */
  lemma SideViewInFront(s: Senses, room: Room, pos: Vec, view: Vec, dir: Vec, range: real)
    requires s.Valid()
    requires forall d | d in s.visible(room, pos, dir, range) :: d >= 0.0
    ensures forall y | y in SideView(s, room, pos, view, dir, range) :: y >= 0.0
  {
    HitPackages.ScaledInFront(s.visible(room, pos, dir, range), Abs(Dot(view, dir)));
  }

  /** One more round of the vision loop. */
  lemma VisionStep(s: Senses, room: Room, pos: Vec, view: Vec, cos: real, sin: real, i: nat, range: real,
                   counterClockwise: Vec, clockwise: Vec)
    requires counterClockwise == Rotated(s.rotate, view, cos, -sin, i)
    requires clockwise == Rotated(s.rotate, view, cos, sin, i)
    ensures Rotated(s.rotate, view, cos, -sin, i + 1) == s.rotate(counterClockwise, cos, -sin)
    ensures Rotated(s.rotate, view, cos, sin, i + 1) == s.rotate(clockwise, cos, sin)
    ensures Vision(s, room, pos, view, cos, sin, i + 1, range)
            == [SideView(s, room, pos, view, s.rotate(counterClockwise, cos, -sin), range)]
               + Vision(s, room, pos, view, cos, sin, i, range)
               + [SideView(s, room, pos, view, s.rotate(clockwise, cos, sin), range)]
  {
  }

  /** The vision loop: one ray along the view, then `h` rounds that each
      rotate both side rays one step further, scale their packages and put
      the counter-clockwise one in front and the clockwise one at the back. */
  method GetVision(s: Senses, room: Room, pos: Vec, view: Vec, cos: real, sin: real, h: nat, range: real)
    returns (packages: seq<map<real, Hit>>)
    requires s.Valid()
    ensures packages == Vision(s, room, pos, view, cos, sin, h, range)
  {
    packages := [s.visible(room, pos, view, range)];
    var counterClockwise, clockwise := view, view;
    var i := 0;
    while i < h
      invariant 0 <= i <= h
      invariant counterClockwise == Rotated(s.rotate, view, cos, -sin, i)
      invariant clockwise == Rotated(s.rotate, view, cos, sin, i)
      invariant packages == Vision(s, room, pos, view, cos, sin, i, range)
    {
      VisionStep(s, room, pos, view, cos, sin, i, range, counterClockwise, clockwise);
      counterClockwise := s.rotate(counterClockwise, cos, -sin);
      clockwise := s.rotate(clockwise, cos, sin);

      var left := new HitPackages.HitPackage.FromHits(s.visible(room, pos, counterClockwise, range));
      left.ScaleDistances(Abs(Dot(view, counterClockwise)));
      packages := [left.hits] + packages;

      var right := new HitPackages.HitPackage.FromHits(s.visible(room, pos, clockwise, range));
      right.ScaleDistances(Abs(Dot(view, clockwise)));
      packages := packages + [right.hits];

      i := i + 1;
    }
  }

  // Moving ======================================================================

  /** The hits on the path of a step of `speed` along `view`, up to |speed|. */
  function PathHits(s: Senses, room: Room, pos: Vec, view: Vec, speed: real): map<real, Hit> {
    s.visible(room, pos, Scale(speed, view), Abs(speed))
  }

  /** The nearest hit of a non-empty package: the first in distance order. */
  ghost function FirstHit(m: map<real, Hit>): Hit
    requires m != map[]
  {
    HitPackages.LeastExists(m.Keys);
    m[HitPackages.Least(m.Keys)]
  }

  /** Whether the first hit on a path is a portal. */
  ghost predicate EntersPortal(m: map<real, Hit>) {
    m != map[] && FirstHit(m).kind == Portal
  }

  /** A position carried through a portal on side `d` into a room of the
      given size: leaving north lands at the south of the next room, and so on. */
  function Rebased(p: Vec, d: Direction, width: real, height: real): Vec {
    match d
    case North => Vec(p.x, p.y - height)
    case South => Vec(p.x, p.y + height)
    case East => Vec(p.x - width, p.y)
    case West => Vec(p.x + width, p.y)
  }

  /** Going back through the opposite portal into a room of the same size
      undoes the re-basing. */
  lemma RebasedRoundTrip(p: Vec, d: Direction, width: real, height: real)
    ensures Rebased(Rebased(p, d, width, height), d.Opposite(), width, height) == p
  {
  }

  /** Re-basing moves the position by exactly one room size along one axis. */
  lemma RebasedShift(p: Vec, d: Direction, width: real, height: real)
    ensures var q := Rebased(p, d, width, height);
            (d == North || d == South) ==> q.x == p.x && Abs(q.y - p.y) == Abs(height)
    ensures var q := Rebased(p, d, width, height);
            (d == East || d == West) ==> q.y == p.y && Abs(q.x - p.x) == Abs(width)
  {
  }
}
