/** Positions and compass directions, shared by Labyrinth space (one unit per
    Room) and Map space (Rooms interleaved with Borders). */
module Geometry {

  /** The four compass directions plus `NoDirection`, the `kNone` value that
      wall operations reject. */
  datatype Direction = North | East | South | West | NoDirection

  /** A position; `x` grows to the East and `y` grows to the South (rows are
      laid out top to bottom). */
  datatype Coordinate = Coordinate(x: int, y: int)

  /** The direction pointing back the way `d` points. */
  function Opposite(d: Direction): Direction {
    match d
    case North => South
    case East => West
    case South => North
    case West => East
    case NoDirection => NoDirection
  }

  /** The neighbouring position one step in direction `d`. */
  function Step(c: Coordinate, d: Direction): (n: Coordinate)
    ensures d == NoDirection <==> n == c
  {
    match d
    case North => Coordinate(c.x, c.y - 1)
    case East => Coordinate(c.x + 1, c.y)
    case South => Coordinate(c.x, c.y + 1)
    case West => Coordinate(c.x - 1, c.y)
    case NoDirection => c
  }
}
