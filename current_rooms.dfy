/** The earlier player model (src/core/current_room.cc,
    include/core/current_room.h): the same state as the game engine, a
    different wall policy and a portal move clamped without a margin. */
module CurrentRooms {
  import opened Wrappers
  import opened Geometry
  import opened Hits
  import HitPackages
  import opened Rooms
  import opened RoomFactories
  import opened RoomGraphs
  import opened Perception

  /** The step left after a first hit on a wall at `distance`: a step that
      would reach past the wall ends one unit short of it, so it keeps the
      step's direction when the wall is at least one unit away and reverses
      it when the wall is closer; a shorter step is kept. */
  function WallStep(speed: real, distance: real): (r: real)
    ensures Abs(speed) <= Abs(distance) ==> r == speed
    ensures Abs(speed) > Abs(distance) ==> (if speed > 0.0 then r else -r) == distance - 1.0
    ensures Abs(speed) > Abs(distance) && 0.0 <= distance < 1.0 ==> (speed > 0.0 ==> r < 0.0) && (speed < 0.0 ==> r > 0.0)
    ensures Abs(speed) > Abs(distance) && 1.0 <= distance ==>
              Abs(r) == distance - 1.0 && Abs(r) < Abs(speed) && (speed > 0.0 ==> r >= 0.0) && (speed < 0.0 ==> r <= 0.0)
  {
    if Abs(speed) > Abs(distance) then
      var abs := distance - 1.0;
      if speed > 0.0 then abs else -abs
    else speed
  }

  /** One coordinate after the portal move: pulled back onto the room's edge,
      with no margin. */
  function ClampToEdge(x: real, size: real): (r: real)
    ensures 0.0 <= x <= size ==> r == x
    ensures 0.0 <= size ==> 0.0 <= r <= size
    ensures 0.0 <= size && x < 0.0 ==> r == 0.0
    ensures 0.0 <= size && x > size ==> r == size
  {
    var low := if x < 0.0 then 0.0 else x;
    if low > size then size else low
  }

  /** A position pulled into a room. */
  function PulledInto(p: Vec, room: Room): Vec {
    Vec(ClampToEdge(p.x, room.width), ClampToEdge(p.y, room.height))
  }

  /** The step actually taken when the path holds no portal first. */
  ghost function Stride(m: map<real, Hit>, speed: real): real {
    if m == map[] then speed
    else
      HitPackages.LeastExists(m.Keys);
      var first := HitPackages.Least(m.Keys);
      if m[first].kind == RoomWall || m[first].kind == Wall then WallStep(speed, first) else speed
  }

  class CurrentRoom {
    const senses: Senses
    const graph: RoomGraph
    var current: nat
    var position: Vec
    var view: Vec

    ghost predicate Valid()
      reads this, graph
    {
      senses.Valid() && graph.Valid() && current < |graph.rooms|
    }

    /** Starts in a room generated from template "entry", at the centre of a
        room, looking along (1, 0). */
    constructor (factory: RoomFactory, senses: Senses)
      requires senses.Valid() && factory.ContainsRoomId("entry")
      ensures Valid() && fresh(graph) && graph.factory == factory && this.senses == senses
      ensures graph.rooms == [factory.GenerateRoom("entry").value] && current == 0
      ensures position == Vec(factory.RoomWidth() / 2.0, factory.RoomHeight() / 2.0) && view == Vec(1.0, 0.0)
    {
      var g := new RoomGraph(factory);
      var entry := g.GenerateRoom("entry");
      this.senses := senses;
      graph := g;
      current := entry.value;
      position := Vec(factory.RoomWidth() / 2.0, factory.RoomHeight() / 2.0);
      view := Vec(1.0, 0.0);
    }

    /** The packages of all rays of the field of vision, left-most first. */
    method GetVision(cos: real, sin: real, halfResolution: nat, range: real) returns (packages: seq<map<real, Hit>>)
      requires Valid()
      ensures packages == Vision(senses, graph.rooms[current], position, view, cos, sin, halfResolution, range)
    {
      packages := Perception.GetVision(senses, graph.rooms[current], position, view, cos, sin, halfResolution, range);
    }

    /** Turns the view; nothing else changes. */
    method RotateDirection(cos: real, sin: real)
      requires Valid()
      modifies this
      ensures Valid()
      ensures view == senses.rotate(old(view), cos, sin)
      ensures position == old(position) && current == old(current)
    {
      view := senses.rotate(view, cos, sin);
    }

    /** The portal branch of `MoveForward` once the side `d` is known: moves
        into the connected room (generating it if needed), takes the full
        step, re-bases the position by the new room's size and pulls it onto
        the room's edges. A generation from an empty catalog changes nothing. */
    method Enter(d: Direction, speed: real) returns (error: Option<RoomError>)
      requires Valid()
      modifies this, graph
      ensures Valid() && view == old(view)
      ensures error.Some? <==> old(graph.rooms[current].links.Get(d)).None? && graph.factory.RoomTemplateCount() == 0
      ensures error.Some? ==> current == old(current) && position == old(position) && graph.rooms == old(graph.rooms)
      ensures error.None? ==> && Reached(graph.factory, old(graph.rooms), graph.rooms, old(current), d, current)
                              && old(current) < |graph.rooms|
                              && graph.rooms[old(current)].ConnectedWith(current, d)
                              && position == PulledInto(Rebased(Add(old(position), Scale(speed, view)), d,
                                                                graph.rooms[current].width,
                                                                graph.rooms[current].height),
                                                        graph.rooms[current])
    {
      var next := graph.GetConnectedRoom(current, d);
      if next.Failure? {
        return Some(next.error);
      }
      current := next.value;
      var entered := graph.rooms[current];
      position := Add(position, Scale(speed, view));
      position := Rebased(position, d, entered.width, entered.height);
      PullIntoRoom();
      return None;
    }

    /** The clamp after a traversal: each coordinate is pulled back onto the
        current room's edge it crossed, with no margin. */
    method PullIntoRoom()
      requires Valid()
      modifies this
      ensures Valid() && current == old(current) && view == old(view)
      ensures position == PulledInto(old(position), graph.rooms[current])
    {
      var room := graph.rooms[current];
      var x, y := position.x, position.y;
      if x < 0.0 {
        x := 0.0;
      }
      if x > room.width {
        x := room.width;
      }
      if y < 0.0 {
        y := 0.0;
      }
      if y > room.height {
        y := room.height;
      }
      position := Vec(x, y);
    }

    /** A step of `speed` along the view. With no hit on the path, or a first
        hit that blocks nothing, the full step is taken; a wall first shortens
        it by `WallStep`; a portal first moves into the next room (generating
        it if needed), takes the full step, re-bases the position by the new
        room's size and pulls it onto the room's edges. A side that is none
        of the four is an error raised once the full step has been taken. */
    method MoveForward(speed: real) returns (error: Option<RoomError>)
      requires Valid()
      modifies this, graph
      ensures Valid() && view == old(view)
      ensures var m := PathHits(senses, old(graph.rooms[current]), old(position), view, speed);
              !EntersPortal(m) ==>
                && error == None && current == old(current) && graph.rooms == old(graph.rooms)
                && position == Add(old(position), Scale(Stride(m, speed), view))
      ensures var m := PathHits(senses, old(graph.rooms[current]), old(position), view, speed);
              var side := senses.sideHit(old(graph.rooms[current]), old(position), Scale(speed, view));
              EntersPortal(m) ==>
                && (side.Undefined? ==> error == Some(InvalidDirection)
                                        && position == Add(old(position), Scale(speed, view)))
                && (side.Toward? ==>
                      (error.Some? <==> old(graph.rooms[current].links.Get(side.direction)).None?
                                        && graph.factory.RoomTemplateCount() == 0))
                && (error.Some? ==> current == old(current) && graph.rooms == old(graph.rooms))
                && (error.Some? && side.Toward? ==> position == old(position))
                && (error.None? ==> && side.Toward?
                                    && Reached(graph.factory, old(graph.rooms), graph.rooms, old(current),
                                               side.direction, current)
                                    && old(current) < |graph.rooms|
                                    && graph.rooms[old(current)].ConnectedWith(current, side.direction)
                                    && position == PulledInto(Rebased(Add(old(position), Scale(speed, view)),
                                                                      side.direction,
                                                                      graph.rooms[current].width,
                                                                      graph.rooms[current].height),
                                                              graph.rooms[current]))
    {
      var room := graph.rooms[current];
      var path := Scale(speed, view);
      var package := senses.visible(room, position, path, Abs(speed));
      var step := speed;
      if package != map[] {
        HitPackages.LeastExists(package.Keys);
        var distance :| HitPackages.IsLeast(distance, package.Keys);
        HitPackages.LeastUnique(package.Keys, distance);
        var kind := package[distance].kind;
        if kind == RoomWall || kind == Wall {
          step := WallStep(speed, distance);
        } else if kind == Portal {
          var side := senses.sideHit(room, position, path);
          if side.Undefined? {
            position := Add(position, Scale(speed, view));
            return Some(InvalidDirection);
          }
          error := Enter(side.direction, speed);
          return;
        }
      }
      position := Add(position, Scale(step, view));
      return None;
    }
  }
}
