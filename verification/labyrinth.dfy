/** The Labyrinth the map observes. The map only ever reads it, so it is a
    value made of four total queries over Labyrinth-space Room coordinates. */
module Labyrinths {
  import opened Geometry
  import opened RoomProperties

  datatype Labyrinth = Labyrinth(
    /** Whether the Room at the coordinate has a wall on the given side. */
    hasWall: (Coordinate, Direction) -> bool,
    /** Whether the given side of the Room at the coordinate is the exit. */
    isExit: (Coordinate, Direction) -> bool,
    /** Who is in the Room at the coordinate. */
    inhabitantAt: Coordinate -> Inhabitant,
    /** What lies in the Room at the coordinate. */
    itemAt: Coordinate -> Item)
}
