# Labyrinth map

A Dafny model of the map of a Labyrinth (`include/labyrinth_map.hpp`). The map
is a grid of cells. Each cell is either a **Border** or a **Room**:

- a Border is a wall segment, a corner or part of the outer wall, with four
  wall flags and an exit flag;
- a Room has an inhabitant and an item.

The map observes a Labyrinth, and only ever reads it. This model reads a
display as: clean the Borders, then synchronise the Borders and the Rooms
with the Labyrinth, then draw. The header implies only that cleaning comes
before Border synchronisation (lines 268-269).

The C++ class hierarchy becomes one Dafny datatype, `Cells.Cell = Border(..) | Room(..)`.
A base-class method that throws becomes a function that returns
`Errors.Result`. The three exception types are the three `Errors.Error` values:

- `std::invalid_argument` is `InvalidArgument`;
- `std::domain_error` is `DomainError`;
- `std::logic_error` is `LogicError`.

The map is the value `LabyrinthMaps.LabyrinthMap`. Each private method is a
pure function from one map value to the next. The Labyrinth collaborator is
the value `Labyrinths.Labyrinth`, made of four total read-only queries:
wall presence per Room and side, whether a Room's side is the exit,
inhabitant per Room, and item per Room.
A null `Labyrinth*` is `Option.None`.

Files:

- `errors.dfy`: the error kinds, `Result` and `Option`;
- `geometry.dfy`: directions (with `NoDirection` for `kNone`) and coordinates;
- `room_properties.dfy`: the inhabitant and item enumerations;
- `labyrinth.dfy`: the Labyrinth collaborator;
- `cells.dfy`: the two cell variants and their operations;
- `grid.dfy`: the row-by-row walk over the grid that every pass performs;
- `labyrinth_map.dfy`: construction, addressing, coordinate conversion, the
  three synchronisation passes and drawing a Room;
- `legend.dfy`: the legend characters.

## Model assumptions

The class declaration does not fix the grid layout. This model fixes it in
`LabyrinthMaps`:

- `MapExtent`: a Labyrinth with `n` Rooms along an axis has a map `2n+1`
  cells wide along that axis.
- `IsRoomPosition`: Rooms sit where both map coordinates are odd. Every other
  cell is a Border. Given `MapExtent`, this follows from header lines
  131-132 and 259-267. Lines 131-132 say a
  Border is the boundary between two Rooms, the corner between four Rooms,
  or a coordinate of the outermost wall. Lines 259-267 picture Borders on
  the exterior of the Labyrinth. On a `2n+1` grid whose outer ring is
  Borders, that leaves Rooms at the odd/odd positions only.
- `RoomToMap` / `MapToRoom`: Labyrinth Room `(x, y)` is map cell
  `(2x+1, 2y+1)`.
- `y` grows southwards, so rows are drawn top to bottom.
- `WallDrawnBy`: this fixes which Labyrinth wall a Border draws.
  - A Border between two Rooms of a row draws the West wall of the Room to
    its East. On the outer wall it draws the East wall of the last Room.
  - A Border between two Rooms of a column draws the North wall of the Room
    below it. On the outer wall it draws the South wall of the last Room.
  - A corner's segment continues the wall-segment Border it points at.

  The proved properties of `UpdateBorders` hold whatever this correspondence
  is; only its concrete wall choices depend on it.
- `ExitInLabyrinth`: the header does not say which pass sets a Border's
  exit flag. `UpdateBorders`, which updates the Borders "by checking the
  contents of the Labyrinth" (lines 272-273), is the only pass that
  plausibly does. This model has `UpdateBorders` mark as the exit exactly
  the Border that `WallDrawnBy` assigns to the Labyrinth's exit wall, and
  clear the flag on every other Border. Corners are never the exit.
- The constructor checks for a null Labyrinth before the sizes, in the order the
  header lists its exceptions.
- `DisplayRoom` returns two Unicode characters: the inhabitant's, then the
  item's. An empty slot is a space.

## Model

| member | source | states |
|---|---|---|
| Cells.NewBorder | include/labyrinth_map.hpp:161-167 | a new Border reports a wall on each of the four sides and no exit |
| Cells.NewRoom | include/labyrinth_map.hpp:191-193 | a new Room reports no inhabitant and no item |
| Cells.IsWall | include/labyrinth_map.hpp:139-143 | on a Border it reports the wall on the given side; `kNone` is an invalid argument; on a Room it is a logic error |
| Cells.SetWall | include/labyrinth_map.hpp:145-151 | afterwards `IsWall` on that side reports the value set, while the other sides and the exit flag read as before; `kNone` is an invalid argument and a Room gives a logic error, both with no new cell |
| Cells.IsExit | include/labyrinth_map.hpp:153-154 | reports the exit flag of a Border; logic error on a Room |
| Cells.SetExit | include/labyrinth_map.hpp:156-159 | afterwards `IsExit` reports the value set and every wall reads as before; logic error on a Room |
| Cells.GetInhabitant | include/labyrinth_map.hpp:176-177 | reports a Room's inhabitant; logic error on a Border |
| Cells.SetInhabitant | include/labyrinth_map.hpp:179-182 | afterwards `GetInhabitant` reports the value set and the item is unchanged; logic error on a Border |
| Cells.ItemAt | include/labyrinth_map.hpp:184-185 | reports a Room's item; logic error on a Border |
| Cells.SetItem | include/labyrinth_map.hpp:187-189 | afterwards `ItemAt` reports the value set and the inhabitant is unchanged; logic error on a Border |
| Cells.BorderOnlyOnRoom | include/labyrinth_map.hpp:42-84 | each of IsWall, SetWall, IsExit and SetExit fails with a logic error on a Room |
| Cells.RoomOnlyOnBorder | include/labyrinth_map.hpp:86-124 | each of GetInhabitant, SetInhabitant, ItemAt and SetItem fails with a logic error on a Border |
| Cells.ObservationallyEqual | include/labyrinth_map.hpp:161-167 | a cell is fully determined by what its getters report |
| Cells.SetWallIdempotent | include/labyrinth_map.hpp:145-151 | setting a present wall, or removing an absent one, leaves the Border identical; setting twice equals setting once |
| Cells.SetExitIdempotent | include/labyrinth_map.hpp:156-159 | setting the exit flag to its current value changes nothing; setting twice equals setting once |
| Cells.SetInhabitantIdempotent | include/labyrinth_map.hpp:179-182 | re-setting the same inhabitant, or clearing an empty Room, changes nothing; setting twice equals setting once |
| Cells.SetItemIdempotent | include/labyrinth_map.hpp:187-189 | re-setting the same item, or removing an absent one, changes nothing; setting twice equals setting once |
| LabyrinthMaps.Create | include/labyrinth_map.hpp:204-210 | a null Labyrinth is an invalid argument; otherwise a zero size is a domain error; otherwise the map is valid (interleaved grid, Rooms at Room positions), observes that Labyrinth, and every cell is a fresh Border or Room |
| LabyrinthMaps.WithinBoundsOfMap | include/labyrinth_map.hpp:230-232 | true exactly when the coordinate indexes an existing cell of the grid |
| LabyrinthMaps.IsRoom | include/labyrinth_map.hpp:234-238 | domain error outside the map; otherwise true exactly when the cell there is a Room |
| LabyrinthMaps.MapCoordinateAt | include/labyrinth_map.hpp:240-244 | domain error outside the map; otherwise the cell stored there, which is a Room exactly when `IsRoom` says so |
| LabyrinthMaps.LabyrinthToMap | include/labyrinth_map.hpp:246-250 | invalid argument outside the Labyrinth; otherwise an in-bounds map coordinate holding a Room |
| LabyrinthMaps.MapToLabyrinth | include/labyrinth_map.hpp:252-257 | domain error outside the map, logic error on a Border; succeeds exactly on Room cells, with a coordinate inside the Labyrinth |
| LabyrinthMaps.RoomWallsSurroundRoom | include/labyrinth_map.hpp:246-257 | a Labyrinth Room's map cell is framed by the Borders that draw that Room's own walls: the Border one step away on side `d` is in bounds and draws either the Room's `d` wall or the same wall seen from the neighbour, so the conversion lands on the same location |
| LabyrinthMaps.LabyrinthToMapToLabyrinth | include/labyrinth_map.hpp:246-257 | converting a Labyrinth Room to the map and back returns the same Room |
| LabyrinthMaps.MapToLabyrinthToMap | include/labyrinth_map.hpp:246-257 | converting a map Room to the Labyrinth and back returns the same cell |
| LabyrinthMaps.CleanBorders | include/labyrinth_map.hpp:259-270 | only removes wall segments: exactly those the excess rule designates; Rooms, exit flags and the Labyrinth are untouched and the map stays valid |
| LabyrinthMaps.CleanBordersIdempotent | include/labyrinth_map.hpp:259-270 | cleaning a cleaned map changes nothing |
| LabyrinthMaps.UpdateBorders | include/labyrinth_map.hpp:272-277 | never adds a wall; Rooms untouched; a wall segment stays exactly when it stood before and the Labyrinth has the wall it draws; a Border is marked as the exit exactly when it draws the Labyrinth's exit |
| LabyrinthMaps.UpdateBordersIdempotent | include/labyrinth_map.hpp:272-277 | a second synchronisation against the same Labyrinth changes nothing |
| LabyrinthMaps.UpdateRooms | include/labyrinth_map.hpp:279-281 | every Room then reports the inhabitant and item of its Labyrinth Room, found by `MapToLabyrinth`; Borders untouched |
| LabyrinthMaps.UpdateRoomsIdempotent | include/labyrinth_map.hpp:279-281 | copying the Rooms again changes nothing |
| LabyrinthMaps.Refresh | include/labyrinth_map.hpp:259-281 | cleaning, then syncing Borders, then Rooms: only walls are removed, a wall survives exactly when it stood, is not excess and is in the Labyrinth, a Border is the exit exactly when it draws the Labyrinth's exit, and Rooms show the Labyrinth's contents |
| LabyrinthMaps.DisplayRoom | include/labyrinth_map.hpp:295-311 | domain error outside the map, logic error on a Border; succeeds exactly on a Room, and its characters read back, through the legend, as exactly that Room's inhabitant and item |
| Legend.RoomGlyphs | include/labyrinth_map.hpp:297-307 | a blank inhabitant slot exactly when there is no inhabitant, and a blank item slot exactly when there is no item |
| Legend.LegendRoundTrip | include/labyrinth_map.hpp:297-307 | reading the legend back from a Room's characters gives the inhabitant and item they were drawn from |
| Legend.RoomGlyphsInjective | include/labyrinth_map.hpp:297-307 | Rooms with different contents are drawn with different characters |

## Left out

- `Display`, `LabelXAxis`, `LabelYAxis` and `DisplayLegend` write to standard output, so they are left out. `LabyrinthMaps.Refresh` models only the synchronisation a display performs before it draws.
- `DisplayBorder` is left out: the box-drawing glyph table and its choice rule are not part of this model.
- LabyrinthMaps.CleanBorders: its exact pruning pattern is not part of this model. The structurally excess segments are a parameter, so the contract states "removes exactly what the rule designates and nothing else" for every rule, not one fixed pattern.
- LabyrinthMaps.UpdateBorders: the link between a Border segment and a Labyrinth wall is the model assumption `WallDrawnBy`; its remove-only and "stays only if the Labyrinth has it" properties hold for any link.
- LabyrinthMaps.UpdateBorders: the header does not state which pass sets a Border's exit flag; this model assumes `UpdateBorders` does it (see `ExitInLabyrinth` above), so the exit part of its contract rests on that assumption.
- Legend.RoomGlyphs: byte encoding is left out. Strings here are sequences of Unicode characters, while the source's `std::string` holds UTF-8 bytes. So lengths differ for the Bullet glyph "•", which is one character here and three bytes in the source; the contract promises two characters, not two bytes.
- `coordinate.hpp`, `room_properties.hpp` and `labyrinth.hpp` are not part of this model. Coordinates are pairs of unbounded integers. The enumerations and the Labyrinth are reduced to what the map uses.
- `size_t` arithmetic is left out: sizes are unbounded naturals, so `2n+1` cannot wrap around.
- Ownership is left out: the nested `unique_ptr` arrays, the virtual destructor and virtual dispatch become an immutable `seq<seq<Cell>>` of a sum type.
- `LabyrinthToMap` and `MapToLabyrinth` convert a `Coordinate&` in place; here they return the converted coordinate.
