/** Vehicles of the sliding-block puzzle and the geometry of their footprints. */
module Vehicles {

  /** One rectilinear vehicle. (row, col) is its head cell; its footprint runs
      `length` cells down from the head when it is vertical, right when it is not. */
  datatype Vehicle = Vehicle(id: int, isVertical: bool, length: int, row: int, col: int)

  datatype Option<T> = None | Some(value: T)

  /** The four directions of the slide-distance queries. */
  datatype Direction = Up | Down | Left | Right

  /** Up and Down move along the vertical axis, Left and Right along the horizontal one. */
  predicate IsVerticalAxis(d: Direction) {
    d.Up? || d.Down?
  }

  /** The id given to every candidate filler vehicle: the Java literal 0xDEADBEEF,
      which as a 32-bit int wraps around to a negative value. */
  const PlaceholderId: int := 0xDEADBEEF - 0x1_0000_0000

  /** The lengths a filler vehicle may have, in the order the scan tries them. */
  const VehicleSizes: seq<int> := [2, 3]

  /** Whether (r, c) lies on the footprint of a placement with this orientation,
      length and head cell (the cells CanAddVehicle and FillVehicleSpace visit). */
  predicate OnFootprint(isVertical: bool, length: int, row: int, col: int, r: int, c: int) {
    if isVertical then c == col && row <= r < row + length
    else r == row && col <= c < col + length
  }

  predicate Covers(v: Vehicle, r: int, c: int) {
    OnFootprint(v.isVertical, v.length, v.row, v.col, r, c)
  }

  /** The row reached from `row` after n steps in direction d. */
  function ShiftRow(row: int, d: Direction, n: int): int {
    match d
    case Up => row - n
    case Down => row + n
    case _ => row
  }

  /** The column reached from `col` after n steps in direction d. */
  function ShiftCol(col: int, d: Direction, n: int): int {
    match d
    case Left => col - n
    case Right => col + n
    case _ => col
  }

  /** The row of the first cell beyond the vehicle's leading edge in direction d. */
  function LeadRow(v: Vehicle, d: Direction): int {
    match d
    case Up => v.row - 1
    case Down => v.row + v.length
    case _ => v.row
  }

  /** The column of the first cell beyond the vehicle's leading edge in direction d. */
  function LeadCol(v: Vehicle, d: Direction): int {
    match d
    case Left => v.col - 1
    case Right => v.col + v.length
    case _ => v.col
  }

  /** The vehicle after sliding `dist` cells in direction d: the new head a caller
      of moveVehicle passes after bounding the distance by the slide query. */
  function Slide(v: Vehicle, d: Direction, dist: int): Vehicle {
    v.(row := ShiftRow(v.row, d, dist), col := ShiftCol(v.col, d, dist))
  }
}
