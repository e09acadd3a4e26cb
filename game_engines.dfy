/** The player in the room graph: current room, position and view direction,
    with vision, rotation and movement (src/core/game_engine.cc,
    include/core/game_engine.h). */
module GameEngines {
  import opened Wrappers
  import opened Geometry
  import opened Hits
  import HitPackages
  import opened Rooms
  import opened RoomFactories
  import opened RoomGraphs
  import opened Perception

  /** `WALL_MARGIN`: how far the player stays from a wall or a room edge. */
  const WallMargin: real := 0.01

  /** One coordinate after `ClampWithinRoom`: below 0 it moves to the margin,
      beyond the room's size to the margin inside it. */
  function ClampCoordinate(x: real, size: real): (r: real)
    ensures 0.0 <= x <= size ==> r == x
    ensures x < 0.0 ==> r == WallMargin
    ensures 0.0 <= x && x > size ==> r == size - WallMargin
    ensures WallMargin <= size ==> 0.0 <= r <= size
    ensures !(0.0 <= x <= size) && 2.0 * WallMargin <= size ==> WallMargin <= r <= size - WallMargin
  {
    if x < 0.0 then WallMargin
    else if x > size then size - WallMargin
    else x
  }

  /** A position clamped into a room. */
  function ClampedWithin(p: Vec, room: Room): Vec {
    Vec(ClampCoordinate(p.x, room.width), ClampCoordinate(p.y, room.height))
  }

  /** The distance actually moved by a step of `speed`, given the hits on its
      path: unchanged with no hit or a first hit that blocks nothing; clamped
      by `AbsoluteClamp` to the margin before a first hit on a wall; and past
      a portal, clamped to the margin before the hit after it, if any. */
  ghost function Stride(s: Senses, m: map<real, Hit>, speed: real): real {
    if m == map[] then speed
    else
      HitPackages.LeastExists(m.Keys);
      var first := HitPackages.Least(m.Keys);
      match m[first].kind
      case Portal =>
        var rest := m.Keys - {first};
        if rest == {} then speed
        else HitPackages.LeastExists(rest); s.absoluteClamp(speed, HitPackages.Least(rest) - WallMargin)
      case RoomWall => s.absoluteClamp(speed, first - WallMargin)
      case Wall => s.absoluteClamp(speed, first - WallMargin)
      case _ => speed
  }

  class GameEngine {
    const senses: Senses
    const graph: RoomGraph
    var current: nat
    var position: Vec
    var view: Vec

    ghost predicate Valid()
      reads this, graph
    {
      senses.Valid() && graph.Valid() && current < |graph.rooms|
    }

    /** The engine starts in a room generated from template "entry", at the
        factory's entry position, looking along (1, 0). */
    constructor (factory: RoomFactory, senses: Senses)
      requires senses.Valid() && factory.ContainsRoomId("entry")
      ensures Valid() && fresh(graph) && graph.factory == factory && this.senses == senses
      ensures graph.rooms == [factory.GenerateRoom("entry").value] && current == 0
      ensures position == factory.GetEntryPosition() && view == Vec(1.0, 0.0)
    {
      var g := new RoomGraph(factory);
      var entry := g.GenerateRoom("entry");
      this.senses := senses;
      graph := g;
      current := entry.value;
      position := factory.GetEntryPosition();
      view := Vec(1.0, 0.0);
    }

    /** The packages of all rays of the field of vision, left-most first. */
    method GetVision(cos: real, sin: real, halfResolution: nat, range: real) returns (packages: seq<map<real, Hit>>)
      requires Valid()
      ensures packages == Vision(senses, graph.rooms[current], position, view, cos, sin, halfResolution, range)
    {
      packages := Perception.GetVision(senses, graph.rooms[current], position, view, cos, sin, halfResolution, range);
    }

    /** Turns the view; nothing else changes. */
    method RotateDirection(cos: real, sin: real)
      requires Valid()
      modifies this
      ensures Valid()
      ensures view == senses.rotate(old(view), cos, sin)
      ensures position == old(position) && current == old(current)
    {
      view := senses.rotate(view, cos, sin);
    }

    /** Brings the position back into the current room, keeping the margin
        from an edge it had crossed. */
    method ClampWithinRoom()
      requires Valid()
      modifies this
      ensures Valid() && current == old(current) && view == old(view)
      ensures position == ClampedWithin(old(position), graph.rooms[current])
    {
      var room := graph.rooms[current];
      var x, y := position.x, position.y;
      if x < 0.0 {
        x := WallMargin;
      } else if x > room.width {
        x := room.width - WallMargin;
      }
      if y < 0.0 {
        y := WallMargin;
      } else if y > room.height {
        y := room.height - WallMargin;
      }
      position := Vec(x, y);
    }

    /** Moves into the room beyond the portal on `side`, generating it if
        needed, re-bases the position by that room's size and clamps it into
        it. A side that is none of the four is an error, and so is a
        generation from an empty catalog; both change nothing. */
    method TraverseRoom(side: Side) returns (error: Option<RoomError>)
      requires Valid()
      modifies this, graph
      ensures Valid() && view == old(view)
      ensures side.Undefined? ==> error == Some(InvalidDirection)
      ensures side.Toward? ==>
                (error.Some? <==> old(graph.rooms[current].links.Get(side.direction)).None?
                                  && graph.factory.RoomTemplateCount() == 0)
      ensures error.Some? ==> current == old(current) && position == old(position) && graph.rooms == old(graph.rooms)
      ensures error.None? ==> && side.Toward?
                              && Reached(graph.factory, old(graph.rooms), graph.rooms, old(current), side.direction, current)
                              && old(current) < |graph.rooms|
                              && graph.rooms[old(current)].ConnectedWith(current, side.direction)
                              && position == ClampedWithin(Rebased(old(position), side.direction,
                                                                   graph.rooms[current].width,
                                                                   graph.rooms[current].height),
                                                           graph.rooms[current])
    {
      if side.Undefined? {
        return Some(InvalidDirection);
      }
      var next := graph.GetConnectedRoom(current, side.direction);
      if next.Failure? {
        return Some(next.error);
      }
      current := next.value;
      position := Rebased(position, side.direction, graph.rooms[current].width, graph.rooms[current].height);
      ClampWithinRoom();
      return None;
    }

    /** A step of `speed` along the view. The hits on the path decide: none,
        or a first hit that blocks nothing, moves the full step; a first hit
        on a wall shortens the step to the margin before it; a first hit on a
        portal moves up to the margin before the next hit and then traverses.
        The view never changes. */
    method MoveForward(speed: real) returns (error: Option<RoomError>)
      requires Valid()
      modifies this, graph
      ensures Valid() && view == old(view)
      ensures var m := PathHits(senses, old(graph.rooms[current]), old(position), view, speed);
              !EntersPortal(m) ==>
                && error == None && current == old(current) && graph.rooms == old(graph.rooms)
                && position == Add(old(position), Scale(Stride(senses, m, speed), view))
      ensures var m := PathHits(senses, old(graph.rooms[current]), old(position), view, speed);
              var moved := Add(old(position), Scale(Stride(senses, m, speed), view));
              var side := senses.sideHit(old(graph.rooms[current]), old(position), Scale(speed, view));
              EntersPortal(m) ==>
                && (side.Undefined? ==> error == Some(InvalidDirection))
                && (side.Toward? ==>
                      (error.Some? <==> old(graph.rooms[current].links.Get(side.direction)).None?
                                        && graph.factory.RoomTemplateCount() == 0))
                && (error.Some? ==> current == old(current) && position == moved && graph.rooms == old(graph.rooms))
                && (error.None? ==> && side.Toward?
                                    && Reached(graph.factory, old(graph.rooms), graph.rooms, old(current),
                                               side.direction, current)
                                    && old(current) < |graph.rooms|
                                    && graph.rooms[old(current)].ConnectedWith(current, side.direction)
                                    && position == ClampedWithin(Rebased(moved, side.direction,
                                                                         graph.rooms[current].width,
                                                                         graph.rooms[current].height),
                                                                 graph.rooms[current]))
    {
      var room := graph.rooms[current];
      var path := Scale(speed, view);
      var package := senses.visible(room, position, path, Abs(speed));
      var step := speed;
      if package != map[] {
        HitPackages.LeastExists(package.Keys);
        var first :| HitPackages.IsLeast(first, package.Keys);
        HitPackages.LeastUnique(package.Keys, first);
        var kind := package[first].kind;
        if kind == Portal {
          var side := senses.sideHit(room, position, path);
          var rest := package.Keys - {first};
          if rest != {} {
            HitPackages.LeastExists(rest);
            var second :| HitPackages.IsLeast(second, rest);
            HitPackages.LeastUnique(rest, second);
            step := senses.absoluteClamp(speed, second - WallMargin);
          }
          position := Add(position, Scale(step, view));
          error := TraverseRoom(side);
          return;
        } else if kind == RoomWall || kind == Wall {
          step := senses.absoluteClamp(speed, first - WallMargin);
        }
      }
      position := Add(position, Scale(step, view));
      return None;
    }
  }

  /** A clamped position lies in the room whenever the room is wider and
      taller than the margin, and a position already inside stays put. */
  lemma ClampedWithinRoom(p: Vec, room: Room)
    requires WallMargin <= room.width && WallMargin <= room.height
    ensures var q := ClampedWithin(p, room);
            0.0 <= q.x <= room.width && 0.0 <= q.y <= room.height
    ensures 0.0 <= p.x <= room.width && 0.0 <= p.y <= room.height ==> ClampedWithin(p, room) == p
  {
  }
}
