/** The catalog of room templates and the rooms generated from it
    (include/core/room_factory.h, src/core/room_factory.cc). */
module RoomFactories {
  import opened Wrappers
  import opened Geometry
  import opened Walls
  import opened Rooms

  /** The walls that define one kind of room. Each wall read from a template
      is its own object, so the same wall listed twice is held twice. */
  datatype RoomTemplate = RoomTemplate(walls: seq<Wall>) {

    function GetWallCount(): nat {
      |walls|
    }
  }

  /** A wall listed again in a template still adds one to its wall count. */
  lemma WallCountCountsDuplicates(t: RoomTemplate, w: Wall)
    ensures RoomTemplate(t.walls + [w]).GetWallCount() == t.GetWallCount() + 1
    ensures w in t.walls ==> RoomTemplate(t.walls + [w]).GetWallCount() > |set v | v in t.walls + [w]|
  {
    if w in t.walls {
      DistinctAtMostLength(t.walls);
      assert (set v | v in t.walls + [w]) == (set v | v in t.walls);
    }
  }

  /** A sequence holds at most as many distinct walls as it has entries. */
  lemma {:induction false} DistinctAtMostLength(walls: seq<Wall>)
    ensures |set v | v in walls| <= |walls|
  {
    if walls != [] {
      DistinctAtMostLength(walls[1..]);
      assert (set v | v in walls) == (set v | v in walls[1..]) + {walls[0]};
    }
  }

  /** The dimensions every room shares, the templates by id, and the player's
      entry position. */
  datatype RoomFactory = RoomFactory(
    roomWidth: real,
    roomHeight: real,
    templates: map<string, RoomTemplate>,
    entryPosition: Vec)
  {
    function RoomWidth(): real { roomWidth }

    function RoomHeight(): real { roomHeight }

    function GetEntryPosition(): Vec { entryPosition }

    /** The ids of all templates. */
    function GetAvailableIds(): (ids: set<string>)
      ensures forall id :: id in ids <==> id in templates
    {
      templates.Keys
    }

    /** The number of templates, which is the number of available ids. */
    function RoomTemplateCount(): (n: nat)
      ensures n == |GetAvailableIds()|
      ensures n == 0 <==> templates == map[]
    {
      |templates|
    }

    function ContainsRoomId(id: string): (b: bool)
      ensures b <==> id in GetAvailableIds()
    {
      id in templates
    }

    /** `GenerateRoom`: an unlinked room with the shared dimensions and the
        template's walls, or nothing (the null pointer) for an unknown id. */
    function GenerateRoom(id: string): (r: Option<Room>)
      ensures r.None? <==> !ContainsRoomId(id)
      ensures r.Some? ==> && r.value.width == RoomWidth() && r.value.height == RoomHeight()
                          && r.value.GetWallCount() == templates[id].GetWallCount()
                          && r.value.links == Unlinked
    {
      if id in templates then Some(Room(roomWidth, roomHeight, templates[id].walls, Unlinked))
      else None
    }

    /** `RandomId`: some available id, chosen freely; an empty catalog is an
        error (`NoRoomTemplateException`). */
    method RandomId() returns (r: Result<string, RoomError>)
      ensures r.Failure? <==> RoomTemplateCount() == 0
      ensures r.Success? ==> r.value in GetAvailableIds()
      ensures RoomTemplateCount() == 1 && r.Success? ==> GetAvailableIds() == {r.value}
    {
      if templates == map[] {
        return Failure(NoRoomTemplate);
      }
      var id :| id in templates;
      if |templates| == 1 {
        OnlyId(templates.Keys, id);
      }
      return Success(id);
    }
  }

  /** A set of one element holds nothing but that element. */
  lemma OnlyId(ids: set<string>, id: string)
    requires |ids| == 1 && id in ids
    ensures ids == {id}
  {
    var rest := ids - {id};
    assert |rest| == 0;
  }
}
