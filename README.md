# Room explorer ray caster, modelled in Dafny

This project models the core of a non-Euclidean ray caster. The player walks
through rooms joined by portals. A room is generated from a template the first
time a portal is crossed. Each room has its own walls, and the picture is made
by casting one ray per screen column and collecting what each ray hits.

The model covers these parts:

- **Geometry** (`geometry.dfy`): float approximation, the collinearity and
  parallelism tests, the distance from a ray to a wall's line, the
  ray-segment intersection test, and the texture index along a wall.
  Floats are modelled as reals.
- **Hits** (`hits.dfy`): the five hit kinds and their priorities, plus the
  hit record with its shift, scale, range and approximate-equality
  operations.
- **Hit packages** (`hit_packages.dfy`): the distance-keyed map of hits held
  by one ray. It is a class whose methods update the map in place:
  `AddHit`, `Merge`, `ShiftHits` and `ScaleDistances`. Each method is proved
  against a specification function of the old map.
- **Walls** (`walls.dfy`): intersection, distance, texture index and the wall
  hit. It also holds the finding below.
- **Rooms, factory, graph** (`rooms.dfy`, `room_factories.dfy`,
  `room_graphs.dfy`):
  - A room pointer is an index into an arena of rooms. A missing link is
    `None`.
  - `LinkRoom`, `GetConnectedRoom` and the factory's generation methods
    update that arena.
  - The ghost invariant `Reciprocal` holds throughout: a link through
    side `d` is always matched by a link back through the opposite side.
- **Player** (`perception.dfy`, `game_engines.dfy`, `current_rooms.dfy`):
  vision as a sequence of packages, rotation, and forward movement. Moving
  forward may cross a portal, re-base the position into the next room and
  clamp it. The model has two classes: the game engine and its earlier
  variant, the current-room player.

Four collaborators have bodies that are not part of this model:

- the room's ray cast, `Room::GetVisible`;
- `Room::GetSideHit`;
- `AbsoluteClamp`;
- `FastRotation`.

They enter as the function values of a `Senses` parameter. The square root
behind `glm::length` and `glm::normalize` enters as a parameter `sqrt`, which
`IsSquareRoot` constrains to be the real square root.

## Model

| member | source | states |
|---|---|---|
| Hits.HitType.Priority | include/core/hits.h:26-32 | priorities lie in 0..4, and a priority is 0 exactly for the Invalid kind |
| Hits.PriorityIsStrictTotalOrder | include/core/hits.h:20-32 | outranking is irreflexive, asymmetric, transitive and total on distinct kinds, with RoomWall > Wall > Portal > Void > Invalid |
| Hits.NoHit | src/core/hits.cc:10-11 | the default hit is a "no hit" at distance 0 with texture index 0 |
| Hits.Hit.ShiftDistance | src/core/hits.cc:25-27 | the distance moves by exactly the shift; the kind and texture index are kept |
| Hits.Hit.ScaleDistance | src/core/hits.cc:29-31 | the distance is multiplied by the scale; the kind and texture index are kept |
| Hits.WithinDistanceIsInterval | src/core/hits.cc:33-39 | a hit is within a range exactly when 0 <= distance <= range |
| Hits.ShiftRoundTrip | src/core/hits.cc:25-31 | shifting by s and then by -s restores the hit; scaling by 1 changes nothing |
| Hits.ApproximatesProperties | src/core/hits.cc:44-54 | approximately equal hits have the same kind; the relation is reflexive and symmetric; `!=` is its negation |
| HitPackages.Inserted | src/core/hit_package.cc:21-43 | insertion keeps the package invariant, adds the hit's distance unless it is a "no hit", and leaves every other distance untouched |
| HitPackages.InsertedCases | src/core/hit_package.cc:21-43 | the outcomes: a no-hit is ignored; a new distance adds one hit; at an occupied distance only a strictly higher-priority kind replaces the stored hit, and the count does not change |
| HitPackages.InsertedChangesIff | src/core/hit_package.cc:21-43 | the package changes exactly when the hit is valid and either its distance is new or its kind outranks the stored one |
| HitPackages.InsertedIdempotent | src/core/hit_package.cc:21-43 | adding the same hit twice is the same as adding it once |
| HitPackages.MergeSpecProperties | include/core/hit_package.h:41-47 | a merge holds the distances of both packages and keeps the invariant; a distance held by one package keeps its hit; at a shared distance the incoming hit wins only if it strictly outranks |
| HitPackages.MergeKeepsHigherPriority | include/core/hit_package.h:41-47 | at a shared distance, neither original hit outranks the merged one; on equal kinds the receiver keeps its own hit |
| HitPackages.MergeIdentities | src/core/hit_package.cc:45-50 | merging a package with itself, or with an empty package, changes nothing |
| HitPackages.ReinsertedWellFormed | src/core/hit_package.cc:55-77 | re-inserting shifted or scaled hits keeps the package invariant |
| HitPackages.ReinsertedCountBound | src/core/hit_package.cc:55-77 | re-insertion never produces more hits than it was given |
| HitPackages.ShiftedPackage | src/core/hit_package.cc:55-65 | after shifting by s, a distance y holds a hit exactly when y - s held one before |
| HitPackages.ShiftedCount | src/core/hit_package.cc:55-65 | shifting keeps the number of hits |
| HitPackages.ShiftedHits | src/core/hit_package.cc:55-65 | the hit at y after shifting is the old hit at y - s, shifted |
| HitPackages.ScaledPackage | src/core/hit_package.cc:67-77 | for a non-zero scale k, the hit at y is the old hit at y / k, scaled, and the count is kept; for k = 0 a non-empty package collapses to one hit at 0 that no original kind outranks |
| HitPackages.ScaledInFront | src/core/hit_package.cc:67-77 | scaling by a non-negative factor keeps every distance non-negative |
| HitPackages.HitPackage.HitCount | src/core/hit_package.cc:10-12 | the count is 0 exactly when the package is empty |
| HitPackages.HitPackage.AddHit | src/core/hit_package.cc:21-43 | the new map is the insertion of the hit into the old one; the result is true exactly when the map changed |
| HitPackages.HitPackage.Merge | src/core/hit_package.cc:45-50 | the new map is the merge of the old map with the other package's hits |
| HitPackages.HitPackage.ShiftHits | src/core/hit_package.cc:55-65 | the new map re-inserts every old hit, shifted, in ascending order of distance, and the invariant is kept |
| HitPackages.HitPackage.ScaleDistances | src/core/hit_package.cc:67-77 | the new map re-inserts every old hit, scaled, in ascending order of distance, and the invariant is kept |
| Geometry.FloatApproximationRelative | src/core/util.cc:10-29 | for two non-zero values, the test is the relative-difference test the source computes |
| Geometry.FloatApproximationAtZero | src/core/util.cc:10-29 | when either value is 0, the test is an absolute-difference test |
| Geometry.FloatApproximationReflexiveSymmetric | src/core/util.cc:10-29 | the approximation is reflexive for a non-negative epsilon, and symmetric |
| Geometry.FloatApproximationExact | src/core/util.cc:10-29 | with epsilon 0 the approximation is exact equality |
| Geometry.NearZero | src/core/util.cc:10-29 | being near 0 means an absolute value within the default epsilon, and it does not depend on the sign |
| Geometry.VecApproximationReflexiveSymmetric | src/core/util.cc:31-35 | the component-wise approximation of vectors is reflexive and symmetric |
| Geometry.HeadingIsUnit | src/core/util.cc:42-44 | the normalized ray direction passes the unit-vector test |
| Geometry.CollinearIsAreaTest | src/core/util.cc:200-203 | three points are collinear exactly when twice their signed area is within epsilon; the test is invariant under swapping and rotating the points |
| Geometry.CollinearWhenPointsCoincide | include/core/util.h:40-48 | if two of the points are equal, the three are collinear |
| Geometry.ParallelIsCrossTest | src/core/util.cc:205-208 | two vectors are parallel exactly when their cross product is within epsilon; the test is symmetric |
| Geometry.ParallelDegenerate | include/core/util.h:50-59 | a zero vector is parallel to every vector, and so is any multiple of a vector |
| Geometry.RayToLineZero | src/core/util.cc:46-97 | a ray starting at either end of the line is at distance 0 |
| Geometry.PointSegmentDistance | src/core/util.cc:46-97 | for a line shrunk to a point away from the ray's start, the distance is the length to that point, and it is positive |
| Geometry.RayToLineParallel | src/core/util.cc:46-97 | a ray parallel to a proper line is at distance 0 exactly when it starts at an end or on the line, and infinitely far otherwise |
| Geometry.RayToLineOnLine | src/core/util.cc:46-97 | a ray starting at an end of a proper line, or on the line, is at distance 0 |
| Geometry.RayToLineNever | src/core/util.cc:46-97 | a ray starting off a proper line and parallel to it is infinitely far |
| Geometry.RayToLineMeets | src/core/util.cc:46-97 | a ray starting off a proper line and not parallel to it is at a finite distance t with t·cross(head - tail, heading) equal to the signed area of the start and the line's ends |
| Geometry.RatioOrInfinityMeaning | src/core/util.cc:86-96 | the quotient is 0 for a numerator near 0, infinite for a denominator near 0, and otherwise a real t with t·denominator equal to the numerator |
| Geometry.RayToLineReversed | src/core/util.cc:46-97 | reversing the ray's direction negates a finite distance and keeps an infinite one |
| Geometry.RayToLineReaches | src/core/util.cc:46-97 | a finite non-zero distance t places pos + t·heading on the line |
| Geometry.RayToLineSigned | src/core/util.cc:46-97 | when the cross terms agree in sign, the distance is infinite or non-negative |
| Geometry.IntersectsFromInside | src/core/util.cc:100-189 | a ray starting strictly inside the segment, or at either end, intersects it under both versions of the test |
| Geometry.ExactTestSigns | src/core/util.cc:150-187 | when the exact test passes away from the ends and off the line, the two cross terms of the distance agree in sign |
| Geometry.TextureIndexPointWall | src/core/util.cc:212-247 | for a wall shrunk to a point, the texture index is 0 when the ray points toward the point, and otherwise the distance from the ray's start to the point |
| Geometry.TextureIndexLocatesCrossing | src/core/util.cc:212-247 | a finite non-zero index t places head + t·(wall direction) on the ray's line |
| Walls.DistanceNonNegative | src/core/wall.cc:63-89 | `Distance` returns the miss value -1 exactly when the ray does not intersect; otherwise the distance is infinite or >= 0 |
| Walls.IntersectionNonNegative | src/core/wall.cc:63-89 | a ray that intersects the wall is at an infinite or non-negative distance from its line |
| Walls.DistanceFromInside | src/core/wall.cc:63-89 | a ray starting strictly inside the wall is at distance 0 |
| Walls.DistanceFromOutside | src/core/wall.cc:63-89 | a ray that starts on the wall's line outside the wall and intersects it is at the positive distance of the nearer end |
| Walls.WallHitProperties | src/core/wall.cc:99-108 | the hit is invalid exactly when the ray misses (or a value is infinite); otherwise it is a Wall hit in front of the ray with the wall's distance and texture index |
| Walls.DistanceAsWrittenNegative | src/core/util.cc:150-187 | the tolerant test accepts a short wall behind the ray, whose distance is then -0.75, while the exact test rejects it |
| Rooms.Direction.Opposite | include/core/room.h:20-27 | the opposite of a side is a different side on the same axis |
| Rooms.OppositeInvolution | include/core/room.h:27 | the opposite of the opposite is the side itself |
| Rooms.Links.Set | src/core/room.cc:35-63 | setting a side's pointer makes it point to the room and leaves the other three pointers alone |
| Rooms.ConnectedWithAnyIff | include/core/room.h:86-88 | a room is connected with another exactly when some side links to it |
| Rooms.ReciprocalIff | include/core/room.h:57-65 | in a reciprocal graph, a links to b through d exactly when b links to a through the opposite side |
| Rooms.Linked | src/core/room.cc:35-63 | linking sets a's pointer on side d and b's pointer on the opposite side; every other pointer, every size and every wall set is unchanged |
| Rooms.LinkedReciprocal | src/core/room.cc:23-65 | linking two free sides keeps the graph reciprocal |
| Rooms.AppendUnlinkedReciprocal | include/core/room_factory.h:107-114 | appending a newly generated, unlinked room keeps the graph reciprocal |
| RoomFactories.WallCountCountsDuplicates | src/core/room_factory.cc:26-28 | each wall read adds one to the count, so a repeated wall makes the count exceed the number of distinct walls |
| RoomFactories.RoomFactory.GetAvailableIds | include/core/room_factory.h:97 | the available ids are exactly the catalog's template ids |
| RoomFactories.RoomFactory.RoomTemplateCount | include/core/room_factory.h:96-97 | the count is the number of available ids, and it is 0 exactly for an empty catalog |
| RoomFactories.RoomFactory.ContainsRoomId | include/core/room_factory.h:105 | an id is contained exactly when it is available |
| RoomFactories.RoomFactory.GenerateRoom | include/core/room_factory.h:107-114 | an unknown id yields nothing; a known id yields an unlinked room with the shared size and the template's wall count |
| RoomFactories.RoomFactory.RandomId | include/core/room_factory.h:98 | an empty catalog is an error; otherwise the id is available, and with a single template it is that template's id |
| RoomGraphs.RoomGraph.LinkRoom | src/core/room.cc:23-65 | fails, changing nothing, when either side is already linked; otherwise links both ways; the graph stays reciprocal |
| RoomGraphs.RoomGraph.GenerateRoom | include/core/room_factory.h:107-114 | an unknown id changes nothing; a known id appends the generated room and returns its index |
| RoomGraphs.RoomGraph.GenerateRandomRoom | include/core/room_factory.h:116-120 | an empty catalog is an error that changes nothing; otherwise one room from some available template is appended |
| RoomGraphs.ReachedKeepsLinks | include/core/room.h:69-74 | connecting keeps every room already in the arena: its size, walls and existing links |
| RoomGraphs.RoomGraph.GetConnectedRoom | include/core/room.h:69-74 | an existing link is returned and nothing changes; otherwise the new arena is the old one plus one room generated from an available template, linked reciprocally to the start through d and nothing else; an empty catalog is the only failure, and it changes nothing |
| RoomGraphs.NewLinkOnlyThroughSide | tests/room_test.cc:133-179 | a newly generated neighbour is connected through side d and no other |
| Perception.Vision | src/core/game_engine.cc:26-54 | the vision holds 2h + 1 packages |
| Perception.VisionLayout | src/core/game_engine.cc:26-54 | the middle package is the view ray's; the i-th counter-clockwise and i-th clockwise rays' packages, de-fished, sit i places either side |
| Perception.GetVision | src/core/game_engine.cc:26-54 | the loop builds exactly the vision sequence |
| Perception.SideViewInFront | src/core/game_engine.cc:41-49 | de-fishing keeps every hit in front of the player |
| Perception.RebasedRoundTrip | src/core/game_engine.cc:112-137 | re-basing through a side and back through the opposite side of a room of the same size restores the position |
| Perception.RebasedShift | src/core/game_engine.cc:112-137 | re-basing moves the position by one room size along one axis only |
| GameEngines.ClampCoordinate | src/core/game_engine.cc:139-152 | an in-room coordinate is kept; below 0 it becomes exactly the margin, beyond the size exactly the size minus the margin |
| GameEngines.ClampedWithinRoom | src/core/game_engine.cc:139-152 | a clamped position lies within a room larger than the margin, and a position already inside is kept |
| GameEngines.GameEngine.constructor | src/core/game_engine.cc:11-24 | starts in the room generated from "entry", at the entry position, looking along (1, 0) |
| GameEngines.GameEngine.GetVision | src/core/game_engine.cc:26-54 | returns the vision of the current room from the current position and view |
| GameEngines.GameEngine.RotateDirection | src/core/game_engine.cc:57-59 | only the view changes, and it changes by the rotation |
| GameEngines.GameEngine.ClampWithinRoom | src/core/game_engine.cc:139-152 | the position becomes the clamped position; the room and the view are kept |
| GameEngines.GameEngine.TraverseRoom | src/core/game_engine.cc:112-137 | an undefined side is an error; otherwise the player moves to the connected room, the arena grows exactly as the connection step says, and the position is re-based and clamped; failure changes neither the room nor the arena |
| GameEngines.GameEngine.MoveForward | src/core/game_engine.cc:61-109 | without a portal first, the player moves by the stride in the same room: full, or clamped to the margin before a wall; through a portal, the player moves to the margin before the next hit and then traverses, with the arena grown exactly as the connection step says; for a defined side the traversal fails exactly when that side is unlinked and the catalog is empty |
| CurrentRooms.WallStep | src/core/current_room.cc:64-75 | a step that fits before the wall is kept; a longer one ends one unit short of the wall: in the same direction and strictly shorter when the wall is at least one unit away, reversed when the wall is closer than one unit |
| CurrentRooms.ClampToEdge | src/core/current_room.cc:112-123 | an in-room coordinate is kept; below 0 it becomes 0, beyond the size it becomes the size |
| CurrentRooms.CurrentRoom.constructor | src/core/current_room.cc:11-22 | starts in the room generated from "entry", at the room's centre, looking along (1, 0) |
| CurrentRooms.CurrentRoom.GetVision | src/core/current_room.cc:24-48 | returns the vision of the current room from the current position and view |
| CurrentRooms.CurrentRoom.RotateDirection | src/core/current_room.cc:50-52 | only the view changes, and it changes by the rotation |
| CurrentRooms.CurrentRoom.MoveForward | src/core/current_room.cc:54-138 | without a portal first, the full step is taken, or a wall shortens it; through a portal, an undefined side is an error raised after the full step is taken, with the room and the arena kept; for a defined side the move fails exactly when that side is unlinked and the catalog is empty, changing nothing; otherwise the player enters the connected room, the arena grows exactly as the connection step says, and the full step is re-based and pulled onto the room's edges |
| CurrentRooms.CurrentRoom.Enter | src/core/current_room.cc:86-123 | fails exactly when the side has no link and the catalog is empty, changing nothing; otherwise enters the connected room, grows the arena as the connection step says, and re-bases and pulls the full step into the new room |
| CurrentRooms.CurrentRoom.PullIntoRoom | src/core/current_room.cc:112-123 | each coordinate of the position is pulled onto the current room's edge it crossed; the room and view are kept |

## Left out

- `GetTheta` (`atan2`) and the angle-based overloads of `Wall::IntersectsWith` and `Wall::Distance` are not modelled, because they depend on trigonometry.
- The JSON loaders (`from_json`) are not modelled: they do file and JSON I/O. A factory is given directly as its catalog of templates.
- The visualizer and the application entry point are not modelled. They only draw and handle input.
- Floats are modelled as reals, so single-precision rounding is not captured.
- `glm::length` and `glm::normalize` use a square-root parameter, because there is no real square root to call.
- `Room::GetVisible`, `Room::GetSideHit`, `AbsoluteClamp` and `FastRotation` enter as parameters because their bodies are not part of this model. The only assumption about them is that a ray cast returns a well-formed package.
- `GameEngines.GameEngine.GetVision`, `CurrentRooms.CurrentRoom.GetVision`, `GameEngines.GameEngine.MoveForward`, `CurrentRooms.CurrentRoom.MoveForward`: ray casts are modelled as pure functions, so a ray cast never generates or links a room. In the program, `Room::GetVisible` obtains or generates the neighbour behind a portal. Lazy room generation during vision, and during the movement probe (even behind a nearer wall), is therefore not captured. The set of rooms is unchanged by vision and by a move with no portal first hit.
- `Geometry.TextureIndexOnLineOfRay`: a ray that passes the non-parallel test can still get an infinite index, because the quotient's normalized denominator may be within epsilon of 0. An example is a ray from (0, 0) along (1, 4e-7) against the wall (-500, 3)–(500, 3). Finiteness of the index is therefore not promised.
- `Rooms.Direction.Opposite`: only the declaration of `OppositeDirection` is available. The model uses the natural pairing, north with south and east with west.
- Walls are held in a sequence, not a `std::set`, because `Wall::operator<` compares addresses. Two walls read separately are therefore always distinct, so duplicates are counted. Wall equality (`Wall::operator==`) is the datatype's equality on both ends.
- Door widths, the portal begin and end getters, and the plain size getters are not modelled, because nothing in the modelled core uses them.
- `RandomId` is a free choice among the available ids, because randomness is not modelled.
- Room pointers are indices into an arena of rooms, and `nullptr` is `None`. Rooms are never freed, so ownership is not modelled.
- `Walls.Wall.GetWallHit`: an infinite distance or texture index yields the invalid hit, because the source's float infinity has no real counterpart. This includes a finite distance with an infinite texture index: for a direction (1e-8, 0) against the wall (5, -10)–(5, 10) the source returns a Wall hit at 5 with an infinite index, the model the invalid hit.
- `Walls.Wall.IntersectsWith`, `Walls.Wall.Distance`, `Walls.Wall.GetWallHit`, `Walls.DistanceNonNegative`, `Walls.IntersectionNonNegative`, `Walls.WallHitProperties` and `Geometry.ExactTestSigns` describe the corrected, exact sign test of the finding below, not the tolerant test of src/core/util.cc:150-187 as written. The as-written test is `Walls.Wall.IntersectsWithAsWritten` with `Walls.Wall.DistanceAsWritten`.
- `Rooms.Links.Get` has no contract row. It is the four-way switch of `Room::GetRoomPointer` (src/core/room.cc:10-21).
- `kUndefined`: a side hit that is none of the four directions becomes an `InvalidDirection` error. In `GameEngines.GameEngine.MoveForward` and `CurrentRooms.CurrentRoom.MoveForward` the step has already been taken at that point, so the position keeps it.
- `GameEngines.GameEngine.TraverseRoom`, `CurrentRooms.CurrentRoom.MoveForward`: before throwing on `kUndefined`, the source first calls `GetConnectedRoom` with that side (src/core/game_engine.cc:113, src/core/current_room.cc:88). `Room::GetRoomPointer` (src/core/room.cc:10-21) has no case for it, so that call's effect is undefined. The model keeps the current room and the arena unchanged on this error.
- The engine constructors require the catalog to contain the template "entry". The source dereferences the generated room without a check.
- `Geometry.RayToLineZero`: the header documents 0 for a line shrunk to a point. The code returns the distance to that point instead, and the model follows the code (`Geometry.PointSegmentDistance`).
- `Wall::Distance` calls `AreCollinear`, which is declared in include/core/util.h:48. It is modelled by the `Collinear` of src/core/util.cc:200-203.
- The `parallel_hit_valid` flag is not modelled, because it appears only in the header.

## Findings

| source | as written | input that shows it | evidently intended | confidence | as-written member | corrected member |
|---|---|---|---|---|---|---|
| src/core/util.cc:150-187 | the sign tests that decide whether a ray meets a segment accept values up to epsilon on the wrong side | ray at (0, 0) along (1, 0); wall from (-0.75, 4e-7) to (-0.75, -4e-7): the test reports an intersection and `Wall::Distance` returns -0.75, a wall behind the ray | a wall behind the ray is not intersected, and a reported distance is never negative (src/core/wall.cc:83, include/core/util.h:92) | not executed | Walls.DistanceAsWrittenNegative | Walls.DistanceNonNegative |
