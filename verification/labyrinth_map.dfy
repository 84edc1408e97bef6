/** A map of a Labyrinth: a grid in which Borders interleave with Rooms, kept
    in step with the Labyrinth it observes and never writing to it.

    Three layout facts are not part of the class declaration and are fixed
    here as model assumptions: a Labyrinth of `n` Rooms along an axis has a
    map `2n+1` cells wide along it (`MapExtent`); the Rooms sit where both map
    coordinates are odd (`IsRoomPosition`), every other cell is a Border; and
    Labyrinth Room `(x, y)` is map cell `(2x+1, 2y+1)` (`RoomToMap`). */
module LabyrinthMaps {
  import opened Errors
  import opened Geometry
  import opened RoomProperties
  import opened Cells
  import opened Labyrinths
  import Grid
  import Legend

  /** The observed Labyrinth, its size in Rooms, and the grid, indexed first
      by `y` and then by `x`. */
  datatype LabyrinthMap = LabyrinthMap(lab: Labyrinth, xSize: nat, ySize: nat, grid: seq<seq<Cell>>)

  // Model assumptions on the layout

  function MapExtent(size: nat): nat {
    2 * size + 1
  }

  predicate IsRoomPosition(x: int, y: int) {
    x % 2 == 1 && y % 2 == 1
  }

  function RoomToMap(c: Coordinate): Coordinate {
    Coordinate(2 * c.x + 1, 2 * c.y + 1)
  }

  function MapToRoom(c: Coordinate): Coordinate {
    Coordinate((c.x - 1) / 2, (c.y - 1) / 2)
  }

  function MapXSize(m: LabyrinthMap): nat {
    MapExtent(m.xSize)
  }

  function MapYSize(m: LabyrinthMap): nat {
    MapExtent(m.ySize)
  }

  /** What the constructor establishes and every operation keeps: both sizes
      positive, the grid `MapXSize` by `MapYSize`, Rooms exactly at Room
      positions. */
  predicate Valid(m: LabyrinthMap) {
    && m.xSize > 0
    && m.ySize > 0
    && |m.grid| == MapYSize(m)
    && (forall y :: 0 <= y < |m.grid| ==> |m.grid[y]| == MapXSize(m))
    && (forall y, x :: 0 <= y < |m.grid| && 0 <= x < |m.grid[y]| ==>
          (m.grid[y][x].Room? <==> IsRoomPosition(x, y)))
  }

  // Construction

  /** Builds the map of `l` (absent when it is null), `xSize` by
      `ySize` Rooms, every Border and Room freshly made. */
  function Create(l: Option<Labyrinth>, xSize: nat, ySize: nat): (r: Result<LabyrinthMap>)
    ensures l.None? ==> r.Failure? && r.error == InvalidArgument
    ensures l.Some? && (xSize == 0 || ySize == 0) ==> r.Failure? && r.error == DomainError
    ensures r.Success? <==> l.Some? && xSize > 0 && ySize > 0
    ensures r.Success? ==>
      && Valid(r.value)
      && r.value.lab == l.value
      && r.value.xSize == xSize
      && r.value.ySize == ySize
    ensures r.Success? ==> forall y, x :: 0 <= y < |r.value.grid| && 0 <= x < |r.value.grid[y]| ==>
      r.value.grid[y][x] == (if r.value.grid[y][x].Room? then NewRoom() else NewBorder())
  {
    if l.None? then Failure(InvalidArgument)
    else if xSize == 0 || ySize == 0 then Failure(DomainError)
    else
      var grid := seq(MapExtent(ySize), y =>
        seq(MapExtent(xSize), x => if IsRoomPosition(x, y) then NewRoom() else NewBorder()));
      Success(LabyrinthMap(l.value, xSize, ySize, grid))
  }

  // Addressing cells

  predicate WithinBoundsOfMap(m: LabyrinthMap, c: Coordinate)
    ensures Valid(m) ==>
      (WithinBoundsOfMap(m, c) <==> 0 <= c.y < |m.grid| && 0 <= c.x < |m.grid[c.y]|)
  {
    0 <= c.x < MapXSize(m) && 0 <= c.y < MapYSize(m)
  }

  /** The cell at an in-bounds coordinate. */
  function At(m: LabyrinthMap, c: Coordinate): Cell
    requires Valid(m) && WithinBoundsOfMap(m, c)
  {
    m.grid[c.y][c.x]
  }

  function IsRoom(m: LabyrinthMap, c: Coordinate): (r: Result<bool>)
    requires Valid(m)
    ensures r.Failure? <==> !WithinBoundsOfMap(m, c)
    ensures r.Failure? ==> r.error == DomainError
    ensures r.Success? ==> (r.value <==> At(m, c).Room?)
  {
    if !WithinBoundsOfMap(m, c) then Failure(DomainError)
    else Success(IsRoomPosition(c.x, c.y))
  }

  function MapCoordinateAt(m: LabyrinthMap, c: Coordinate): (r: Result<Cell>)
    requires Valid(m)
    ensures r.Failure? <==> !WithinBoundsOfMap(m, c)
    ensures r.Failure? ==> r.error == DomainError
    ensures r.Success? ==> r.value == m.grid[c.y][c.x]
    ensures r.Success? ==> (r.value.Room? <==> IsRoom(m, c) == Success(true))
  {
    if !WithinBoundsOfMap(m, c) then Failure(DomainError)
    else Success(At(m, c))
  }

  // Converting between Labyrinth space and map space

  predicate WithinLabyrinth(m: LabyrinthMap, c: Coordinate) {
    0 <= c.x < m.xSize && 0 <= c.y < m.ySize
  }

  function LabyrinthToMap(m: LabyrinthMap, c: Coordinate): (r: Result<Coordinate>)
    requires Valid(m)
    ensures r.Failure? <==> !WithinLabyrinth(m, c)
    ensures r.Failure? ==> r.error == InvalidArgument
    ensures r.Success? ==> WithinBoundsOfMap(m, r.value) && At(m, r.value).Room?
  {
    if !WithinLabyrinth(m, c) then Failure(InvalidArgument)
    else Success(RoomToMap(c))
  }

  function MapToLabyrinth(m: LabyrinthMap, c: Coordinate): (r: Result<Coordinate>)
    requires Valid(m)
    ensures !WithinBoundsOfMap(m, c) ==> r == Failure(DomainError)
    ensures WithinBoundsOfMap(m, c) && At(m, c).Border? ==> r == Failure(LogicError)
    ensures r.Success? <==> WithinBoundsOfMap(m, c) && At(m, c).Room?
    ensures r.Success? ==> WithinLabyrinth(m, r.value)
  {
    if !WithinBoundsOfMap(m, c) then Failure(DomainError)
    else if !IsRoomPosition(c.x, c.y) then Failure(LogicError)
    else Success(MapToRoom(c))
  }

  /** Converting a Labyrinth Room to the map and back gives the same Room. */
  lemma LabyrinthToMapToLabyrinth(m: LabyrinthMap, c: Coordinate)
    requires Valid(m) && WithinLabyrinth(m, c)
    ensures MapToLabyrinth(m, LabyrinthToMap(m, c).value) == Success(c)
  {
  }

  /** Converting a map Room to the Labyrinth and back gives the same cell. */
  lemma MapToLabyrinthToMap(m: LabyrinthMap, c: Coordinate)
    requires Valid(m) && WithinBoundsOfMap(m, c) && At(m, c).Room?
    ensures LabyrinthToMap(m, MapToLabyrinth(m, c).value) == Success(c)
  {
  }

  /** A Labyrinth Room's map cell is framed by the Borders that draw its own
      walls: the Border one step from it on side `d` draws either the Room's
      wall on that side or the same wall seen from the neighbouring Room. So
      the map coordinate of a Room is "the same location", the one whose
      walls the Room's walls are. */
  lemma RoomWallsSurroundRoom(m: LabyrinthMap, c: Coordinate, d: Direction)
    requires Valid(m) && WithinLabyrinth(m, c) && d != NoDirection
    ensures LabyrinthToMap(m, c).Success?
    ensures
      var b := Step(LabyrinthToMap(m, c).value, d);
      && WithinBoundsOfMap(m, b)
      && At(m, b).Border?
      && (WallDrawnBy(m, b) == Some((c, d)) || WallDrawnBy(m, b) == Some((Step(c, d), Opposite(d))))
  {
  }

  // Relating a map before and after an update

  predicate SameShape(before: LabyrinthMap, after: LabyrinthMap) {
    && |after.grid| == |before.grid|
    && forall y :: 0 <= y < |before.grid| ==> |after.grid[y]| == |before.grid[y]|
  }

  /** Every cell of `after` is its counterpart in `before` with zero or more
      walls removed; in particular no wall was added. */
  predicate WallsOnlyRemoved(before: LabyrinthMap, after: LabyrinthMap) {
    && SameShape(before, after)
    && forall y, x :: 0 <= y < |before.grid| && 0 <= x < |before.grid[y]| ==>
         OnlyLosesWalls(before.grid[y][x], after.grid[y][x])
  }

  predicate RoomsUnchanged(before: LabyrinthMap, after: LabyrinthMap) {
    && SameShape(before, after)
    && forall y, x :: 0 <= y < |before.grid| && 0 <= x < |before.grid[y]| && before.grid[y][x].Room? ==>
         after.grid[y][x] == before.grid[y][x]
  }

  predicate BordersUnchanged(before: LabyrinthMap, after: LabyrinthMap) {
    && SameShape(before, after)
    && forall y, x :: 0 <= y < |before.grid| && 0 <= x < |before.grid[y]| && before.grid[y][x].Border? ==>
         after.grid[y][x] == before.grid[y][x]
  }

  /** `cell` with only the wall segments `keep` allows left standing. */
  function KeepWalls(cell: Cell, keep: Direction -> bool): (r: Cell)
    ensures OnlyLosesWalls(cell, r)
    ensures cell.Room? ==> r == cell
    ensures cell.Border? ==> forall d :: d != NoDirection ==> (Wall(r, d) <==> Wall(cell, d) && keep(d))
    ensures cell.Border? ==> IsExit(r) == IsExit(cell)
  {
    if cell.Room? then cell
    else cell.(north := cell.north && keep(North),
               east := cell.east && keep(East),
               south := cell.south && keep(South),
               west := cell.west && keep(West))
  }

  // Cleaning Borders

  /** Removes the wall segments that are structurally excess, whichever
      `excess` designates (the exterior faces of the outer wall and the
      segments pointing into a Room); touches nothing else. */
  function CleanBorders(m: LabyrinthMap, excess: (Coordinate, Direction) -> bool): (r: LabyrinthMap)
    requires Valid(m)
    ensures Valid(r) && r.lab == m.lab && r.xSize == m.xSize && r.ySize == m.ySize
    ensures WallsOnlyRemoved(m, r) && RoomsUnchanged(m, r)
    ensures forall y, x, d :: 0 <= y < |m.grid| && 0 <= x < |m.grid[y]| && m.grid[y][x].Border? && d != NoDirection ==>
      (Wall(r.grid[y][x], d) <==> Wall(m.grid[y][x], d) && !excess(Coordinate(x, y), d))
    ensures forall y, x :: 0 <= y < |m.grid| && 0 <= x < |m.grid[y]| && m.grid[y][x].Border? ==>
      IsExit(r.grid[y][x]) == IsExit(m.grid[y][x])
  {
    m.(grid := Grid.MapGrid(m.grid, (c, cell) => KeepWalls(cell, d => !excess(c, d))))
  }

  // Synchronising Borders with the Labyrinth

  /** Model assumption: the Labyrinth wall that a wall-segment Border draws.
      A Border between two Rooms of a row is the West wall of the Room to its
      East (the East wall of the last Room on the outer wall); a Border between
      two Rooms of a column is the North wall of the Room below it (the South
      wall of the last Room on the outer wall). Corners draw no wall of their
      own. */
  function WallDrawnBy(m: LabyrinthMap, c: Coordinate): (r: Option<(Coordinate, Direction)>)
    requires Valid(m)
    ensures r.Some? && WithinBoundsOfMap(m, c) ==> WithinLabyrinth(m, r.value.0)
    ensures r.Some? && WithinBoundsOfMap(m, c) ==> Step(RoomToMap(r.value.0), r.value.1) == c
    ensures WithinBoundsOfMap(m, c) ==> (r.Some? <==> At(m, c).Border? && (c.x % 2 == 1 || c.y % 2 == 1))
  {
    if c.x % 2 == 0 && c.y % 2 == 1 then
      var room := Coordinate(c.x / 2, (c.y - 1) / 2);
      if room.x < m.xSize then Some((room, West)) else Some((Coordinate(room.x - 1, room.y), East))
    else if c.x % 2 == 1 && c.y % 2 == 0 then
      var room := Coordinate((c.x - 1) / 2, c.y / 2);
      if room.y < m.ySize then Some((room, North)) else Some((Coordinate(room.x, room.y - 1), South))
    else None
  }

  /** Whether the Labyrinth has the wall that segment `d` of Border `c`
      draws. A corner's segment continues the wall-segment Border it points
      at; a segment pointing off the map draws nothing. */
  predicate SegmentInLabyrinth(m: LabyrinthMap, c: Coordinate, d: Direction)
    requires Valid(m)
  {
    match WallDrawnBy(m, c)
    case Some((room, side)) => m.lab.hasWall(room, side)
    case None =>
      var n := Step(c, d);
      && WithinBoundsOfMap(m, n)
      && match WallDrawnBy(m, n)
         case Some((room, side)) => m.lab.hasWall(room, side)
         case None => false
  }

  /** Whether Border `c` draws the wall of the Labyrinth that is its exit.
      Corners draw no wall, so they are never the exit. */
  predicate ExitInLabyrinth(m: LabyrinthMap, c: Coordinate)
    requires Valid(m)
  {
    match WallDrawnBy(m, c)
    case Some((room, side)) => m.lab.isExit(room, side)
    case None => false
  }

  /** Removes every Border wall segment the Labyrinth does not have; never
      adds one the Labyrinth has and the map lacks; marks as the exit exactly
      the Border that draws the Labyrinth's exit; leaves Rooms alone. */
  function UpdateBorders(m: LabyrinthMap): (r: LabyrinthMap)
    requires Valid(m)
    ensures Valid(r) && r.lab == m.lab && r.xSize == m.xSize && r.ySize == m.ySize
    ensures WallsOnlyRemoved(m, r) && RoomsUnchanged(m, r)
    ensures forall y, x, d :: 0 <= y < |m.grid| && 0 <= x < |m.grid[y]| && m.grid[y][x].Border? && d != NoDirection ==>
      (Wall(r.grid[y][x], d) <==> Wall(m.grid[y][x], d) && SegmentInLabyrinth(m, Coordinate(x, y), d))
    ensures forall y, x :: 0 <= y < |m.grid| && 0 <= x < |m.grid[y]| && m.grid[y][x].Border? ==>
      IsExit(r.grid[y][x]) == Success(ExitInLabyrinth(m, Coordinate(x, y)))
  {
    m.(grid := Grid.MapGrid(m.grid, (c: Coordinate, cell: Cell) =>
      if cell.Room? then cell
      else SetExit(KeepWalls(cell, d => SegmentInLabyrinth(m, c, d)), ExitInLabyrinth(m, c)).value))
  }

  // Synchronising Rooms with the Labyrinth

  /** Copies the inhabitant and item of every Room from the Labyrinth; leaves
      Borders alone. */
  function UpdateRooms(m: LabyrinthMap): (r: LabyrinthMap)
    requires Valid(m)
    ensures Valid(r) && r.lab == m.lab && r.xSize == m.xSize && r.ySize == m.ySize
    ensures BordersUnchanged(m, r)
    ensures forall y, x :: 0 <= y < |m.grid| && 0 <= x < |m.grid[y]| && m.grid[y][x].Room? ==>
      && MapToLabyrinth(m, Coordinate(x, y)).Success?
      && GetInhabitant(r.grid[y][x]) == Success(m.lab.inhabitantAt(MapToLabyrinth(m, Coordinate(x, y)).value))
      && ItemAt(r.grid[y][x]) == Success(m.lab.itemAt(MapToLabyrinth(m, Coordinate(x, y)).value))
  {
    m.(grid := Grid.MapGrid(m.grid, (c: Coordinate, cell: Cell) =>
      if cell.Border? then cell
      else Room(m.lab.inhabitantAt(MapToRoom(c)), m.lab.itemAt(MapToRoom(c)))))
  }

  // Drawing a Room

  function DisplayRoom(m: LabyrinthMap, c: Coordinate): (r: Result<string>)
    requires Valid(m)
    ensures !WithinBoundsOfMap(m, c) ==> r == Failure(DomainError)
    ensures WithinBoundsOfMap(m, c) && At(m, c).Border? ==> r == Failure(LogicError)
    ensures r.Success? <==> WithinBoundsOfMap(m, c) && At(m, c).Room?
    ensures r.Success? ==>
      Legend.ParseRoomGlyphs(r.value) == Some((GetInhabitant(At(m, c)).value, ItemAt(At(m, c)).value))
  {
    if !WithinBoundsOfMap(m, c) then Failure(DomainError)
    else if !IsRoomPosition(c.x, c.y) then Failure(LogicError)
    else
      var cell := At(m, c);
      Legend.LegendRoundTrip(cell.inhabitant, cell.item);
      Success(Legend.RoomGlyphs(cell.inhabitant, cell.item))
  }

  // Properties of the synchronisation passes

  /** Cleaning twice removes nothing more than cleaning once. */
  lemma CleanBordersIdempotent(m: LabyrinthMap, excess: (Coordinate, Direction) -> bool)
    requires Valid(m)
    ensures CleanBorders(CleanBorders(m, excess), excess) == CleanBorders(m, excess)
  {
    var once := CleanBorders(m, excess);
    var twice := CleanBorders(once, excess);
    forall y, x | 0 <= y < |once.grid| && 0 <= x < |once.grid[y]|
      ensures twice.grid[y][x] == once.grid[y][x]
    {
      var a, b := once.grid[y][x], twice.grid[y][x];
      if a.Border? {
        ObservationallyEqual(a, b);
      }
    }
    Grid.GridExtensionality(twice.grid, once.grid);
  }

  /** Whether a segment is in the Labyrinth, and whether a Border is the
      exit, depend only on the Labyrinth and the size of the map, not on the
      map's current walls. */
  lemma SyncIgnoresWalls(m1: LabyrinthMap, m2: LabyrinthMap, c: Coordinate, d: Direction)
    requires Valid(m1) && Valid(m2)
    requires m1.lab == m2.lab && m1.xSize == m2.xSize && m1.ySize == m2.ySize
    ensures SegmentInLabyrinth(m1, c, d) == SegmentInLabyrinth(m2, c, d)
    ensures ExitInLabyrinth(m1, c) == ExitInLabyrinth(m2, c)
  {
    assert WallDrawnBy(m1, c) == WallDrawnBy(m2, c);
    assert WallDrawnBy(m1, Step(c, d)) == WallDrawnBy(m2, Step(c, d));
  }

  /** A second synchronisation against the same Labyrinth changes nothing. */
  lemma UpdateBordersIdempotent(m: LabyrinthMap)
    requires Valid(m)
    ensures UpdateBorders(UpdateBorders(m)) == UpdateBorders(m)
  {
    var once := UpdateBorders(m);
    var twice := UpdateBorders(once);
    forall y, x | 0 <= y < |once.grid| && 0 <= x < |once.grid[y]|
      ensures twice.grid[y][x] == once.grid[y][x]
    {
      UpdateBordersCellStable(m, x, y);
    }
    Grid.GridExtensionality(twice.grid, once.grid);
  }

  /** One cell of `UpdateBordersIdempotent`: a synchronised cell is left as
      it is by a second synchronisation. */
  lemma UpdateBordersCellStable(m: LabyrinthMap, x: int, y: int)
    requires Valid(m)
    requires 0 <= y < |m.grid| && 0 <= x < |m.grid[y]|
    ensures UpdateBorders(UpdateBorders(m)).grid[y][x] == UpdateBorders(m).grid[y][x]
  {
    var once := UpdateBorders(m);
    var twice := UpdateBorders(once);
    var a, b := once.grid[y][x], twice.grid[y][x];
    if a.Border? {
      var c := Coordinate(x, y);
      SyncIgnoresWalls(m, once, c, North);
      SyncIgnoresWalls(m, once, c, East);
      SyncIgnoresWalls(m, once, c, South);
      SyncIgnoresWalls(m, once, c, West);
      SyncIgnoresWalls(m, once, c, NoDirection);
      assert Wall(b, North) == Wall(a, North);
      assert Wall(b, East) == Wall(a, East);
      assert Wall(b, South) == Wall(a, South);
      assert Wall(b, West) == Wall(a, West);
      ObservationallyEqual(a, b);
    }
  }

  /** Copying the Rooms again changes nothing. */
  lemma UpdateRoomsIdempotent(m: LabyrinthMap)
    requires Valid(m)
    ensures UpdateRooms(UpdateRooms(m)) == UpdateRooms(m)
  {
    var once := UpdateRooms(m);
    var twice := UpdateRooms(once);
    forall y, x | 0 <= y < |once.grid| && 0 <= x < |once.grid[y]|
      ensures twice.grid[y][x] == once.grid[y][x]
    {
    }
    Grid.GridExtensionality(twice.grid, once.grid);
  }

  /** What a display does to the map before drawing it: clean the Borders,
      then synchronise the Borders, then the Rooms. Afterwards every wall
      segment still standing stood before, is not excess and is drawn by a
      wall the Labyrinth has; a Border is marked as the exit exactly when it
      draws the Labyrinth's exit; and every Room shows the Labyrinth's Room. */
  function Refresh(m: LabyrinthMap, excess: (Coordinate, Direction) -> bool): (r: LabyrinthMap)
    requires Valid(m)
    ensures Valid(r) && r.lab == m.lab && r.xSize == m.xSize && r.ySize == m.ySize
    ensures WallsOnlyRemoved(m, r)
    ensures forall y, x, d :: 0 <= y < |m.grid| && 0 <= x < |m.grid[y]| && m.grid[y][x].Border? && d != NoDirection ==>
      (Wall(r.grid[y][x], d) <==>
        Wall(m.grid[y][x], d) && !excess(Coordinate(x, y), d) && SegmentInLabyrinth(m, Coordinate(x, y), d))
    ensures forall y, x :: 0 <= y < |m.grid| && 0 <= x < |m.grid[y]| && m.grid[y][x].Border? ==>
      IsExit(r.grid[y][x]) == Success(ExitInLabyrinth(m, Coordinate(x, y)))
    ensures forall y, x :: 0 <= y < |m.grid| && 0 <= x < |m.grid[y]| && m.grid[y][x].Room? ==>
      && MapToLabyrinth(m, Coordinate(x, y)).Success?
      && GetInhabitant(r.grid[y][x]) == Success(m.lab.inhabitantAt(MapToLabyrinth(m, Coordinate(x, y)).value))
      && ItemAt(r.grid[y][x]) == Success(m.lab.itemAt(MapToLabyrinth(m, Coordinate(x, y)).value))
  {
    var cleaned := CleanBorders(m, excess);
    var synced := UpdateBorders(cleaned);
    var r := UpdateRooms(synced);
    RefreshOnlyRemovesWalls(m, cleaned, synced, r);
    RefreshKeepsExactly(m, excess, cleaned, synced, r);
    RefreshMarksExit(m, excess, cleaned, synced, r);
    r
  }

  /** The walls left by `Refresh` are a subset of the walls before it. */
  lemma RefreshOnlyRemovesWalls(m: LabyrinthMap, cleaned: LabyrinthMap, synced: LabyrinthMap, r: LabyrinthMap)
    requires WallsOnlyRemoved(m, cleaned)
    requires WallsOnlyRemoved(cleaned, synced)
    requires BordersUnchanged(synced, r)
    requires forall y, x :: 0 <= y < |synced.grid| && 0 <= x < |synced.grid[y]| ==>
      (r.grid[y][x].Room? <==> synced.grid[y][x].Room?)
    ensures WallsOnlyRemoved(m, r)
  {
    forall y, x | 0 <= y < |m.grid| && 0 <= x < |m.grid[y]|
      ensures OnlyLosesWalls(m.grid[y][x], r.grid[y][x])
    {
      OnlyLosesWallsTransitive(m.grid[y][x], cleaned.grid[y][x], synced.grid[y][x]);
    }
  }

  /** A wall survives `Refresh` exactly when it stood before, is not excess,
      and the Labyrinth has it. */
  lemma RefreshKeepsExactly(m: LabyrinthMap, excess: (Coordinate, Direction) -> bool,
                            cleaned: LabyrinthMap, synced: LabyrinthMap, r: LabyrinthMap)
    requires Valid(m)
    requires cleaned == CleanBorders(m, excess)
    requires synced == UpdateBorders(cleaned)
    requires BordersUnchanged(synced, r)
    ensures forall y, x, d :: 0 <= y < |m.grid| && 0 <= x < |m.grid[y]| && m.grid[y][x].Border? && d != NoDirection ==>
      (Wall(r.grid[y][x], d) <==>
        Wall(m.grid[y][x], d) && !excess(Coordinate(x, y), d) && SegmentInLabyrinth(m, Coordinate(x, y), d))
  {
    forall y, x, d | 0 <= y < |m.grid| && 0 <= x < |m.grid[y]| && m.grid[y][x].Border? && d != NoDirection
      ensures Wall(r.grid[y][x], d) <==>
        Wall(m.grid[y][x], d) && !excess(Coordinate(x, y), d) && SegmentInLabyrinth(m, Coordinate(x, y), d)
    {
      assert cleaned.grid[y][x].Border?;
      assert synced.grid[y][x].Border?;
      assert r.grid[y][x] == synced.grid[y][x];
      SyncIgnoresWalls(m, cleaned, Coordinate(x, y), d);
    }
  }

  /** After `Refresh` a Border is the exit exactly when it draws the
      Labyrinth's exit. */
  lemma RefreshMarksExit(m: LabyrinthMap, excess: (Coordinate, Direction) -> bool,
                         cleaned: LabyrinthMap, synced: LabyrinthMap, r: LabyrinthMap)
    requires Valid(m)
    requires cleaned == CleanBorders(m, excess)
    requires synced == UpdateBorders(cleaned)
    requires BordersUnchanged(synced, r)
    ensures forall y, x :: 0 <= y < |m.grid| && 0 <= x < |m.grid[y]| && m.grid[y][x].Border? ==>
      IsExit(r.grid[y][x]) == Success(ExitInLabyrinth(m, Coordinate(x, y)))
  {
    forall y, x | 0 <= y < |m.grid| && 0 <= x < |m.grid[y]| && m.grid[y][x].Border?
      ensures IsExit(r.grid[y][x]) == Success(ExitInLabyrinth(m, Coordinate(x, y)))
    {
      assert cleaned.grid[y][x].Border?;
      assert r.grid[y][x] == synced.grid[y][x];
      SyncIgnoresWalls(m, cleaned, Coordinate(x, y), NoDirection);
    }
  }
}
