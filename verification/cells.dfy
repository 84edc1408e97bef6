/** One cell of the map: either a Border (a wall segment, a corner or part of
    the outer wall) or a Room. Each operation belongs to one of the two
    variants; called on the other variant it fails with a logic error. */
module Cells {
  import opened Errors
  import opened Geometry
  import opened RoomProperties

  datatype Cell =
    | Border(north: bool, east: bool, south: bool, west: bool, exit: bool)
    | Room(inhabitant: Inhabitant, item: Item)

  /** The wall segment of a Border on side `d`. */
  function Wall(c: Cell, d: Direction): bool
    requires c.Border? && d != NoDirection
  {
    match d
    case North => c.north
    case East => c.east
    case South => c.south
    case West => c.west
  }

  // Construction

  /** A new Border: every wall present, no exit. */
  function NewBorder(): (c: Cell)
    ensures forall d :: d != NoDirection ==> IsWall(c, d) == Success(true)
    ensures IsExit(c) == Success(false)
  {
    Border(true, true, true, true, false)
  }

  /** A new Room: nobody in it and nothing in it. */
  function NewRoom(): (c: Cell)
    ensures GetInhabitant(c) == Success(Nobody)
    ensures ItemAt(c) == Success(NoItem)
  {
    Room(Nobody, NoItem)
  }

  // Border-only operations

  function IsWall(c: Cell, d: Direction): (r: Result<bool>)
    ensures c.Room? ==> r == Failure(LogicError)
    ensures c.Border? && d == NoDirection ==> r == Failure(InvalidArgument)
    ensures c.Border? && d != NoDirection ==> r == Success(Wall(c, d))
  {
    if c.Room? then Failure(LogicError)
    else if d == NoDirection then Failure(InvalidArgument)
    else Success(Wall(c, d))
  }

  function SetWall(c: Cell, d: Direction, present: bool): (r: Result<Cell>)
    ensures c.Room? ==> r == Failure(LogicError)
    ensures c.Border? && d == NoDirection ==> r == Failure(InvalidArgument)
    ensures r.Success? <==> c.Border? && d != NoDirection
    ensures r.Success? ==> IsWall(r.value, d) == Success(present)
    ensures r.Success? ==> forall e :: e != d ==> IsWall(r.value, e) == IsWall(c, e)
    ensures r.Success? ==> IsExit(r.value) == IsExit(c)
  {
    if c.Room? then Failure(LogicError)
    else if d == NoDirection then Failure(InvalidArgument)
    else
      match d
      case North => Success(c.(north := present))
      case East => Success(c.(east := present))
      case South => Success(c.(south := present))
      case West => Success(c.(west := present))
  }

  function IsExit(c: Cell): (r: Result<bool>)
    ensures r.Failure? <==> c.Room?
    ensures c.Room? ==> r.error == LogicError
    ensures c.Border? ==> r.value == c.exit
  {
    if c.Room? then Failure(LogicError) else Success(c.exit)
  }

  function SetExit(c: Cell, b: bool): (r: Result<Cell>)
    ensures c.Room? ==> r == Failure(LogicError)
    ensures r.Success? <==> c.Border?
    ensures r.Success? ==> IsExit(r.value) == Success(b)
    ensures r.Success? ==> forall d :: IsWall(r.value, d) == IsWall(c, d)
  {
    if c.Room? then Failure(LogicError) else Success(c.(exit := b))
  }

  // Room-only operations

  function GetInhabitant(c: Cell): (r: Result<Inhabitant>)
    ensures r.Failure? <==> c.Border?
    ensures c.Border? ==> r.error == LogicError
    ensures c.Room? ==> r.value == c.inhabitant
  {
    if c.Border? then Failure(LogicError) else Success(c.inhabitant)
  }

  function SetInhabitant(c: Cell, inh: Inhabitant): (r: Result<Cell>)
    ensures c.Border? ==> r == Failure(LogicError)
    ensures r.Success? <==> c.Room?
    ensures r.Success? ==> GetInhabitant(r.value) == Success(inh)
    ensures r.Success? ==> ItemAt(r.value) == ItemAt(c)
  {
    if c.Border? then Failure(LogicError) else Success(c.(inhabitant := inh))
  }

  function ItemAt(c: Cell): (r: Result<Item>)
    ensures r.Failure? <==> c.Border?
    ensures c.Border? ==> r.error == LogicError
    ensures c.Room? ==> r.value == c.item
  {
    if c.Border? then Failure(LogicError) else Success(c.item)
  }

  function SetItem(c: Cell, i: Item): (r: Result<Cell>)
    ensures c.Border? ==> r == Failure(LogicError)
    ensures r.Success? <==> c.Room?
    ensures r.Success? ==> ItemAt(r.value) == Success(i)
    ensures r.Success? ==> GetInhabitant(r.value) == GetInhabitant(c)
  {
    if c.Border? then Failure(LogicError) else Success(c.(item := i))
  }

  // Properties relating several operations

  /** A cell is fully determined by what its getters report: two cells of the
      same variant that answer every query alike are the same cell. */
  lemma ObservationallyEqual(a: Cell, b: Cell)
    requires a.Border? == b.Border?
    requires forall d :: IsWall(a, d) == IsWall(b, d)
    requires IsExit(a) == IsExit(b)
    requires GetInhabitant(a) == GetInhabitant(b)
    requires ItemAt(a) == ItemAt(b)
    ensures a == b
  {
    if a.Border? {
      assert IsWall(a, North) == IsWall(b, North);
      assert IsWall(a, East) == IsWall(b, East);
      assert IsWall(a, South) == IsWall(b, South);
      assert IsWall(a, West) == IsWall(b, West);
    }
  }

  /** Every Border-only operation fails with a logic error on a Room. */
  lemma BorderOnlyOnRoom(c: Cell, d: Direction, present: bool, b: bool)
    requires c.Room?
    ensures IsWall(c, d) == Failure(LogicError)
    ensures SetWall(c, d, present) == Failure(LogicError)
    ensures IsExit(c) == Failure(LogicError)
    ensures SetExit(c, b) == Failure(LogicError)
  {
  }

  /** Every Room-only operation fails with a logic error on a Border. */
  lemma RoomOnlyOnBorder(c: Cell, inh: Inhabitant, i: Item)
    requires c.Border?
    ensures GetInhabitant(c) == Failure(LogicError)
    ensures SetInhabitant(c, inh) == Failure(LogicError)
    ensures ItemAt(c) == Failure(LogicError)
    ensures SetItem(c, i) == Failure(LogicError)
  {
  }

  /** Setting a wall to the value it already has leaves the Border as it
      was; setting it twice is the same as setting it once. */
  lemma SetWallIdempotent(c: Cell, d: Direction, present: bool)
    requires c.Border? && d != NoDirection
    ensures IsWall(c, d) == Success(present) ==> SetWall(c, d, present) == Success(c)
    ensures SetWall(SetWall(c, d, present).value, d, present) == SetWall(c, d, present)
  {
  }

  /** Re-setting the exit flag to its current value changes nothing. */
  lemma SetExitIdempotent(c: Cell, b: bool)
    requires c.Border?
    ensures IsExit(c) == Success(b) ==> SetExit(c, b) == Success(c)
    ensures SetExit(SetExit(c, b).value, b) == SetExit(c, b)
  {
  }

  /** Re-setting the inhabitant, including clearing an empty Room, changes
      nothing. */
  lemma SetInhabitantIdempotent(c: Cell, inh: Inhabitant)
    requires c.Room?
    ensures GetInhabitant(c) == Success(inh) ==> SetInhabitant(c, inh) == Success(c)
    ensures SetInhabitant(SetInhabitant(c, inh).value, inh) == SetInhabitant(c, inh)
  {
  }

  /** Re-setting the item, including removing an absent one, changes nothing. */
  lemma SetItemIdempotent(c: Cell, i: Item)
    requires c.Room?
    ensures ItemAt(c) == Success(i) ==> SetItem(c, i) == Success(c)
    ensures SetItem(SetItem(c, i).value, i) == SetItem(c, i)
  {
  }

  /** `after` is `before` with zero or more wall segments taken away: a Room
      stays a Room, a Border gains no wall. The exit flag is not a wall and
      is not constrained here. */
  predicate OnlyLosesWalls(before: Cell, after: Cell) {
    if before.Room? then after.Room?
    else
      && after.Border?
      && (after.north ==> before.north)
      && (after.east ==> before.east)
      && (after.south ==> before.south)
      && (after.west ==> before.west)
  }

  /** Removing walls in two steps removes walls. */
  lemma OnlyLosesWallsTransitive(a: Cell, b: Cell, c: Cell)
    requires OnlyLosesWalls(a, b) && OnlyLosesWalls(b, c)
    ensures OnlyLosesWalls(a, c)
  {
  }
}
