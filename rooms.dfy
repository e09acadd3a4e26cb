/** Rooms and the portal links between them (src/core/room.cc,
    include/core/room.h). Rooms live in an arena, a sequence indexed by
    natural numbers; a room's four neighbour pointers are indices into it. */
module Rooms {
  import opened Wrappers
  import opened Walls

  /** The four sides of a room, each holding one portal. */
  datatype Direction = North | South | East | West {

    /** The side of the neighbouring room that a portal on this side leads to. */
    function Opposite(): (d: Direction)
      ensures d != this
      ensures (this == North || this == South) <==> (d == North || d == South)
    {
      match this
      case North => South
      case South => North
      case East => West
      case West => East
    }
  }

  /** Each side pairs with exactly one other: `Opposite` is its own inverse. */
  lemma OppositeInvolution(d: Direction)
    ensures d.Opposite().Opposite() == d
  {
  }

  /** The four neighbour pointers; `None` is the null pointer. */
  datatype Links = Links(north: Option<nat>, south: Option<nat>, east: Option<nat>, west: Option<nat>) {

    /** `GetRoomPointer`: the neighbour stored for `d`. */
    function Get(d: Direction): Option<nat> {
      match d
      case North => north
      case South => south
      case East => east
      case West => west
    }

    /** The links with the pointer for `d` set to `room` and the other three kept. */
    function Set(d: Direction, room: nat): (r: Links)
      ensures r.Get(d) == Some(room)
      ensures forall e :: e != d ==> r.Get(e) == Get(e)
    {
      match d
      case North => this.(north := Some(room))
      case South => this.(south := Some(room))
      case East => this.(east := Some(room))
      case West => this.(west := Some(room))
    }
  }

  /** The exceptions of the room explorer: an empty template catalog
      (`NoRoomTemplateException`) and a side that is none of the four
      (`InvalidDirectionException`). */
  datatype RoomError = NoRoomTemplate | InvalidDirection

  /** A freshly generated room is linked nowhere. */
  const Unlinked: Links := Links(None, None, None, None)

  /** A room: its dimensions, the walls of its template and its neighbours. */
  datatype Room = Room(width: real, height: real, walls: seq<Wall>, links: Links) {

    /** The number of walls; walls from a template are distinct objects, so
        equal walls listed twice both count. */
    function GetWallCount(): nat {
      |walls|
    }

    /** `ConnectedWith(other, direction)`: the portal on side `d` leads to `other`. */
    predicate ConnectedWith(other: nat, d: Direction) {
      links.Get(d) == Some(other)
    }

    /** `ConnectedWith(other)`: some portal leads to `other`. */
    predicate ConnectedWithAny(other: nat) {
      ConnectedWith(other, North) || ConnectedWith(other, South)
      || ConnectedWith(other, East) || ConnectedWith(other, West)
    }
  }

  /** `ConnectedWith(other)` holds exactly when some side leads to `other`. */
  lemma ConnectedWithAnyIff(room: Room, other: nat)
    ensures room.ConnectedWithAny(other) <==> exists d: Direction :: room.ConnectedWith(other, d)
  {
    if room.ConnectedWithAny(other) {
      if room.ConnectedWith(other, North) {
        assert room.ConnectedWith(other, North);
      } else if room.ConnectedWith(other, South) {
        assert room.ConnectedWith(other, South);
      } else if room.ConnectedWith(other, East) {
        assert room.ConnectedWith(other, East);
      } else {
        assert room.ConnectedWith(other, West);
      }
    }
  }

  // The link graph ==============================================================

  /** Every pointer stays inside the arena, and links are reciprocal: room `a`
      leads to `b` through side `d` exactly when `b` leads back to `a`
      through the opposite side. */
  ghost predicate Reciprocal(rooms: seq<Room>) {
    forall a, d | 0 <= a < |rooms| && rooms[a].links.Get(d).Some? ::
      rooms[a].links.Get(d).value < |rooms|
      && rooms[rooms[a].links.Get(d).value].links.Get(d.Opposite()) == Some(a)
  }

  /** Reciprocity read in both directions. */
  lemma ReciprocalIff(rooms: seq<Room>, a: nat, b: nat, d: Direction)
    requires Reciprocal(rooms) && a < |rooms| && b < |rooms|
    ensures rooms[a].ConnectedWith(b, d) <==> rooms[b].ConnectedWith(a, d.Opposite())
  {
    if rooms[b].ConnectedWith(a, d.Opposite()) {
      assert rooms[b].links.Get(d.Opposite()).Some?;
      OppositeInvolution(d);
    }
  }

  /** `LinkRoom`'s guard: neither the side `d` of `a` nor the opposite side
      of `b` is linked yet. */
  predicate CanLink(rooms: seq<Room>, a: nat, d: Direction, b: nat)
    requires a < |rooms| && b < |rooms|
  {
    rooms[a].links.Get(d).None? && rooms[b].links.Get(d.Opposite()).None?
  }

  /** The arena after a successful `LinkRoom`: `a` leads to `b` through `d`,
      then `b` leads back to `a` through the opposite side. */
  function Linked(rooms: seq<Room>, a: nat, d: Direction, b: nat): (r: seq<Room>)
    requires a < |rooms| && b < |rooms|
    ensures |r| == |rooms|
    ensures r[a].ConnectedWith(b, d) && r[b].ConnectedWith(a, d.Opposite())
    ensures forall c, e | 0 <= c < |rooms| && !(c == a && e == d) && !(c == b && e == d.Opposite()) ::
      r[c].links.Get(e) == rooms[c].links.Get(e)
    ensures forall c | 0 <= c < |rooms| ::
      r[c].width == rooms[c].width && r[c].height == rooms[c].height && r[c].walls == rooms[c].walls
  {
    var forward := rooms[a := rooms[a].(links := rooms[a].links.Set(d, b))];
    forward[b := forward[b].(links := forward[b].links.Set(d.Opposite(), a))]
  }

  /** Linking two free sides keeps the graph reciprocal. */
  lemma {:induction false} LinkedReciprocal(rooms: seq<Room>, a: nat, d: Direction, b: nat)
    requires Reciprocal(rooms) && a < |rooms| && b < |rooms|
    requires CanLink(rooms, a, d, b)
    ensures Reciprocal(Linked(rooms, a, d, b))
  {
    var r := Linked(rooms, a, d, b);
    OppositeInvolution(d);
    forall c, e | 0 <= c < |r| && r[c].links.Get(e).Some?
      ensures r[c].links.Get(e).value < |r| && r[r[c].links.Get(e).value].links.Get(e.Opposite()) == Some(c)
    {
      if c == a && e == d {
      } else if c == b && e == d.Opposite() {
      } else {
        var t := rooms[c].links.Get(e).value;
        assert rooms[t].links.Get(e.Opposite()) == Some(c);
        OppositeInvolution(e);
      }
    }
  }

  /** A new, unlinked room can join a reciprocal graph. */
  lemma AppendUnlinkedReciprocal(rooms: seq<Room>, room: Room)
    requires Reciprocal(rooms) && room.links == Unlinked
    ensures Reciprocal(rooms + [room])
  {
    var r := rooms + [room];
    forall c, e | 0 <= c < |r| && r[c].links.Get(e).Some?
      ensures r[c].links.Get(e).value < |r| && r[r[c].links.Get(e).value].links.Get(e.Opposite()) == Some(c)
    {
      assert c < |rooms|;
      assert rooms[c].links.Get(e).Some?;
    }
  }
}
