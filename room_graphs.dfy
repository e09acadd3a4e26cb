/** The rooms generated so far and the portal links between them
    (src/core/room.cc, include/core/room.h, include/core/room_factory.h).
    A room pointer is an index into `rooms`; every generated room is
    appended, so two generations never yield the same room. */
module RoomGraphs {
  import opened Wrappers
  import opened Rooms
  import opened RoomFactories

  class RoomGraph {
    /** The factory every room generates its neighbours from. */
    const factory: RoomFactory
    var rooms: seq<Room>

    ghost predicate Valid()
      reads this
    {
      Reciprocal(rooms)
    }

    /** A graph with no rooms yet. */
    constructor (factory: RoomFactory)
      ensures Valid() && this.factory == factory && rooms == []
    {
      this.factory := factory;
      rooms := [];
    }

    /** `Room::LinkRoom` called on room `a`: refuses, changing nothing, when
        `a` is already linked through `d` or `b` through the opposite side;
        otherwise links both ways and reports success. */
    method LinkRoom(a: nat, d: Direction, b: nat) returns (linked: bool)
      requires Valid() && a < |rooms| && b < |rooms|
      modifies this
      ensures Valid()
      ensures linked <==> CanLink(old(rooms), a, d, b)
      ensures rooms == if linked then Linked(old(rooms), a, d, b) else old(rooms)
    {
      if rooms[a].links.Get(d).Some? {
        return false;
      }
      var opposite := d.Opposite();
      if rooms[b].links.Get(opposite).Some? {
        return false;
      }
      LinkedReciprocal(rooms, a, d, b);
      rooms := rooms[a := rooms[a].(links := rooms[a].links.Set(d, b))];
      rooms := rooms[b := rooms[b].(links := rooms[b].links.Set(opposite, a))];
      return true;
    }

    /** `RoomFactory::GenerateRoom`: a new room from template `id`, or
        nothing for an unknown id. */
    method GenerateRoom(id: string) returns (r: Option<nat>)
      requires Valid()
      modifies this
      ensures Valid()
      ensures r.None? <==> !factory.ContainsRoomId(id)
      ensures r.None? ==> rooms == old(rooms)
      ensures r.Some? ==> r.value == |old(rooms)| && rooms == old(rooms) + [factory.GenerateRoom(id).value]
    {
      var room := factory.GenerateRoom(id);
      if room.None? {
        return None;
      }
      AppendUnlinkedReciprocal(rooms, room.value);
      rooms := rooms + [room.value];
      return Some(|rooms| - 1);
    }

    /** `RoomFactory::GenerateRandomRoom`: a new room from some template; an
        empty catalog is an error. */
    method GenerateRandomRoom() returns (r: Result<nat, RoomError>)
      requires Valid()
      modifies this
      ensures Valid()
      ensures r.Failure? <==> factory.RoomTemplateCount() == 0
      ensures r.Failure? ==> rooms == old(rooms)
      ensures r.Success? ==> && r.value == |old(rooms)|
                             && exists id | id in factory.GetAvailableIds() ::
                                  rooms == old(rooms) + [factory.GenerateRoom(id).value]
    {
      var id := factory.RandomId();
      if id.Failure? {
        return Failure(id.error);
      }
      var room := GenerateRoom(id.value);
      return Success(room.value);
    }

    /** `Room::GetConnectedRoom` called on room `a`: the room linked through
        `d`, or else a newly generated room that is then linked through `d`.
        Asking again for the same side yields the same room. */
    method GetConnectedRoom(a: nat, d: Direction) returns (r: Result<nat, RoomError>)
      requires Valid() && a < |rooms|
      modifies this
      ensures Valid()
      ensures old(rooms[a].links.Get(d)).Some? ==> rooms == old(rooms) && r == Success(old(rooms[a].links.Get(d)).value)
      ensures old(rooms[a].links.Get(d)).None? ==> (r.Failure? <==> factory.RoomTemplateCount() == 0)
      ensures r.Failure? ==> rooms == old(rooms)
      ensures |old(rooms)| <= |rooms|
      ensures r.Success? ==> r.value < |rooms| && rooms[a].ConnectedWith(r.value, d)
                             && rooms[r.value].ConnectedWith(a, d.Opposite())
      ensures old(rooms[a].links.Get(d)).None? && r.Success? ==>
                && r.value == |old(rooms)| && |rooms| == |old(rooms)| + 1
                && (forall e :: rooms[a].ConnectedWith(r.value, e) <==> e == d)
      ensures r.Success? ==> Reached(factory, old(rooms), rooms, a, d, r.value)
    {
      var linked := rooms[a].links.Get(d);
      if linked.Some? {
        ReciprocalIff(rooms, a, linked.value, d);
        return Success(linked.value);
      }
      ghost var before := rooms;
      var generated := GenerateRandomRoom();
      if generated.Failure? {
        return generated;
      }
      var b := generated.value;
      ghost var id :| id in factory.GetAvailableIds() && rooms == before + [factory.GenerateRoom(id).value];
      assert rooms[a] == before[a] && rooms[b].links == Unlinked;
      var ok := LinkRoom(a, d, b);
      assert ok;
      assert rooms == Linked(before + [factory.GenerateRoom(id).value], a, d, |before|);
      NewLinkOnlyThroughSide(before, rooms, a, d, b);
      return Success(b);
    }
  }

  /** The arena `after` once room `a` of `before` has been connected through
      side `d` to room `b`: an existing link is followed and nothing changes;
      otherwise `b` is a room newly generated from some template, appended,
      and linked both ways with `a`, every other room and pointer as before. */
  ghost predicate Reached(factory: RoomFactory, before: seq<Room>, after: seq<Room>, a: nat, d: Direction, b: nat)
    requires a < |before|
  {
    match before[a].links.Get(d)
    case Some(linked) => after == before && b == linked
    case None =>
      && b == |before|
      && exists id | id in factory.GetAvailableIds() ::
           after == Linked(before + [factory.GenerateRoom(id).value], a, d, b)
  }

  /** Connecting never drops or redirects a link that already existed, so
      asking again for a side, after any other connections, yields the room
      first returned for it; and the old rooms keep their sizes and walls. */
  lemma ReachedKeepsLinks(factory: RoomFactory, before: seq<Room>, after: seq<Room>, a: nat, d: Direction, b: nat)
    requires a < |before| && Reached(factory, before, after, a, d, b)
    ensures |before| <= |after|
    ensures forall c, e | 0 <= c < |before| && before[c].links.Get(e).Some? ::
              after[c].links.Get(e) == before[c].links.Get(e)
    ensures forall c | 0 <= c < |before| ::
              after[c].width == before[c].width && after[c].height == before[c].height && after[c].walls == before[c].walls
  {
    if before[a].links.Get(d).None? {
      var id :| id in factory.GetAvailableIds() && after == Linked(before + [factory.GenerateRoom(id).value], a, d, b);
      var grown := before + [factory.GenerateRoom(id).value];
      forall c, e | 0 <= c < |before| && before[c].links.Get(e).Some?
        ensures after[c].links.Get(e) == before[c].links.Get(e)
      {
        assert grown[c] == before[c];
      }
      forall c | 0 <= c < |before|
        ensures after[c].width == before[c].width && after[c].height == before[c].height && after[c].walls == before[c].walls
      {
        assert grown[c] == before[c];
      }
    }
  }

  /** After linking `a` to the newly appended room `b`, `a` reaches `b`
      through side `d` only: `a`'s other pointers all predate `b`. */
  lemma NewLinkOnlyThroughSide(before: seq<Room>, after: seq<Room>, a: nat, d: Direction, b: nat)
    requires Reciprocal(before) && a < |before| && b == |before|
    requires |after| == b + 1
    requires after[a].links.Get(d) == Some(b)
    requires forall e | e != d :: after[a].links.Get(e) == before[a].links.Get(e)
    ensures forall e :: after[a].ConnectedWith(b, e) <==> e == d
  {
    forall e | e != d
      ensures !after[a].ConnectedWith(b, e)
    {
      if before[a].links.Get(e).Some? {
        assert before[a].links.Get(e).value < |before|;
      }
    }
  }
}
