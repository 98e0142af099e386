# Rush Hour board model

A Dafny model of the board state of a sliding-block ("Rush Hour") puzzle, `PuzzleGame.java`.
The board is an occupancy grid: each cell holds -1 when it is empty, or the id of the vehicle on it.
A map goes from id to vehicle, and id 0 is the main car. The board also has a size and an exit cell.

- `Vehicles.dfy` (module `Vehicles`) covers the vehicle record and footprint geometry.
  - A vehicle has an id, an orientation, a length and a head cell.
  - The footprint runs down from the head for a vertical vehicle and right for a horizontal one.
- `PuzzleGame.dfy` (module `Game`) holds the class `PuzzleGame`.
  - The grid is an `array2<int>`. Its cells are updated in place, as the source's `int[][]` is.
  - The vehicle map is a `map<int, Vehicle>` field, which the mutating methods reassign.
  - The size and the exit are never reassigned after construction, so they are `const`.

The central invariant is `Consistent()`: the grid and the map agree on who sits where.
- Every non-empty cell holds the id of a vehicle that fills it.
- Every cell a vehicle fills holds its id.

"Fills" is exactly what `fillVehicleSpace` writes: the footprint cells up to the first one that lies off the board.
`KeysDense()` says the ids in use are exactly 0 .. n-1, which is how `addVehicle` numbers vehicles.

Each slide query (`canMoveUp` and the others) is proved equal to the specification function `LegalSlide`.
- It is 0 when the vehicle's orientation is not the direction's axis.
- Otherwise it is `FreeRun`, the number of empty on-board cells beyond the leading edge.
- The exit bonus adds one, as the source does.

`FreeRunCells` proves what that count means. `SlideStaysFree` proves that a move of at most that distance enters only free cells, so `MoveVehicle` keeps `Consistent()`. This holds when the vehicle's head is not above or left of the board; the exception is described next.

The exit bonus and the truncated marking combine in an asymmetric way that the model keeps as written.
- After the bonus move Up or Left, the head is at row or column -1. `fillVehicleSpace` then stops at once, so the main car has no cell on the grid and `IsSolved` is false although the car still covers the exit cell (`ExitUpUnsolved`; `ExitDownSolved` shows the Down case).
- After the bonus move Down or Right, the cells still on the board stay marked.
- After the bonus move Up or Left, another car may slide into the cells the main car left, since they are unmarked. The main car's Down (or Right) query starts beyond its tail and does not look at those cells. A move back within that query's answer then overwrites the other car, and the board is no longer consistent. `ExitThenOverwrite` gives such a sequence of moves, each within its query's answer.

## Model

| member | source | states |
|---|---|---|
| Game.PuzzleGame.constructor | PuzzleGame.java:32-39 | the board has the given size and exit, no vehicles, and every cell empty; it is consistent with dense ids |
| Game.PuzzleGame.InitBoard | PuzzleGame.java:75-82 | a fresh grid of the board's size in which every cell holds -1 |
| Game.PuzzleGame.WithVehicles | PuzzleGame.java:47-57 | the map is the given one; a cell no vehicle fills stays -1; a non-empty cell holds the id of a vehicle that fills it; if no two vehicles write the same cell, every cell a vehicle writes holds its id, and with ids matching keys the board is consistent |
| Game.PuzzleGame.Copy | PuzzleGame.java:63-73 | same size, exit, vehicles and cells, in a fresh grid; the copy `Equals` the original; dense ids and consistency carry over |
| Game.PuzzleGame.CloneBoard | PuzzleGame.java:304-312 | a fresh rows-by-cols grid agreeing with the source grid on every cell |
| Game.PuzzleGame.CellsAgree | PuzzleGame.java:435 | two grids of the same size have equal contents exactly when they agree cell by cell, and equal contents imply the same row count |
| Game.PuzzleGame.SameStateConsistent | PuzzleGame.java:63-73 | consistency depends only on the vehicles and the cell values, so a copy of a consistent board is consistent |
| Game.PuzzleGame.CanAddVehicle | PuzzleGame.java:91-106 | true exactly when every footprint cell of the placement is empty |
| Game.PuzzleGame.IsOccupied | PuzzleGame.java:141-147 | true exactly when the cell is not -1; on a consistent board, exactly when some vehicle fills it |
| Game.PuzzleGame.IsOutOfBounds | PuzzleGame.java:149-154 | false exactly for the cells that index the grid |
| Game.PuzzleGame.FillVehicleSpace | PuzzleGame.java:269-283 | the cells the vehicle fills now hold the given id; every other cell is unchanged, including footprint cells beyond the first off-board one |
| Game.PuzzleGame.AddVehicle | PuzzleGame.java:116-121 | the new vehicle gets id = old map size; the map gains it and nothing else changes; its filled cells hold that id and all other cells are unchanged; dense ids are kept; placing on empty cells keeps consistency |
| Game.PuzzleGame.AddExistingVehicle | PuzzleGame.java:128-133 | the same as `AddVehicle`, for a given vehicle renumbered to the next id |
| Game.PuzzleGame.CanMoveUp | PuzzleGame.java:163-178 | returns `LegalSlide(id, Up)`: 0 for a horizontal vehicle, else the empty run above the vehicle, plus one for the main car when the exit is on the top row and the run reaches row -1 |
| Game.PuzzleGame.CanMoveDown | PuzzleGame.java:187-204 | returns `LegalSlide(id, Down)`: 0 for a horizontal vehicle, else the empty run below the tail, plus one for the main car when the exit is on the bottom row and the run reaches row sizeRow |
| Game.PuzzleGame.CanMoveLeft | PuzzleGame.java:213-228 | returns `LegalSlide(id, Left)`: 0 for a vertical vehicle, else the empty run left of the head, plus one for the main car when the exit is in column 0 and the run reaches column -1 |
| Game.PuzzleGame.CanMoveRight | PuzzleGame.java:237-252 | returns `LegalSlide(id, Right)`: 0 for a vertical vehicle, else the empty run right of the tail, plus one for the main car when the exit is in the last column and the run reaches column sizeCol |
| Game.PuzzleGame.FreeRunCells | PuzzleGame.java:169-173 | the counted cells are on the board and empty, and the cell just after them is off the board or occupied |
| Game.PuzzleGame.MoveVehicle | PuzzleGame.java:262-267 | the vehicle's head becomes the new cell and no other vehicle changes; cells it fills at the new place hold its id; cells it filled before and no longer fills become -1; all other cells are unchanged; a move into free cells keeps consistency |
| Game.PuzzleGame.SlideStaysFree | PuzzleGame.java:163-178 | sliding a vehicle whose head is not above or left of the board by at most the slide query's answer enters only empty cells or its own, which is the condition under which `MoveVehicle` keeps consistency |
| Game.PuzzleGame.IsSolved | PuzzleGame.java:289-294 | true exactly when the exit cell holds 0; on a consistent board, exactly when the main car fills the exit |
| Game.PuzzleGame.GetRandomVehicle | PuzzleGame.java:321-324 | any vehicle returned is one of the map's vehicles; with dense ids, the vehicle keyed by the index is always returned |
| Game.PuzzleGame.GetVehicleIdAtLocation | PuzzleGame.java:342-347 | -1 off the board; on a consistent board, either -1 or the id of the vehicle filling the cell, and that vehicle whenever one fills it |
| Game.PuzzleGame.Equals | PuzzleGame.java:426-446 | true exactly when the other board exists and has equal cell contents, exit and size; the vehicle map is ignored |
| Game.CopyThenMove | PuzzleGame.java:63-73 | after copying a board and then moving a vehicle on the original, the copy still has the original's earlier cells and vehicles |
| Game.ExitThenOverwrite | PuzzleGame.java:163-267 | after the main car's exit move Up, a slide of another car into its old cells and a slide of the main car back down, each within its query's answer, the other car's cell holds 0 and the board is inconsistent |
| Game.ExitUpUnsolved | PuzzleGame.java:163-178 | after the main car's exit move Up, it still covers the exit cell, yet the board is not solved |
| Game.ExitDownSolved | PuzzleGame.java:187-204 | after the main car's exit move Down, it covers the exit cell and the board is solved |
| Game.PuzzleGame.FootprintFreeRun | PuzzleGame.java:496-500 | a placement with its head on the board lies wholly on empty board cells exactly when the downward or rightward empty run from its head is at least its length |
| Game.PuzzleGame.GetPossibleVehicle | PuzzleGame.java:478-532 | a placement is returned exactly when it has the placeholder id and length 2 or 3, lies wholly on the board on empty cells, and does not share the main car's axis and line (column or row) |

## Left out

- `showBoard` prints to the console. It is not modelled.
- `hashCode` depends on 32-bit overflow and `Arrays.deepHashCode`. Only `equals` is modelled.
- The `java.awt.Color` arguments and fields are dropped.
- Getters that return internal references are not modelled: `getVehicle`, `getVehicleAtLocation`, `getBoard`, `getVehicles` and the plain field getters. Vehicles are values here, so a caller cannot change a vehicle behind the board's back.
- The map-taking constructor aliases the caller's map. Here it takes the map by value.
- Java `int` overflow is not modelled. Coordinates, lengths and ids are unbounded integers, and negative board sizes are excluded by `nat`.
- The puzzle solver and generator, the file-system persistence, the menu UI and the move-state holder are not part of this model.
- CanAddVehicle: requires the whole footprint to lie on the board. The source does no bounds check there and throws once its scan reaches an off-board cell before an occupied one.
- IsOccupied: requires an on-board cell. The source's array access throws otherwise.
- IsSolved: requires the exit to lie on the board. The source's array access throws otherwise.
- Copy: requires every vehicle to be stored under its own id. The source re-keys vehicles by id, so with clashing ids the result would depend on hash-map iteration order.
- GetRandomVehicle: the random index is a parameter, in the range `java.util.Random.nextInt` draws from.
- WithVehicles: vehicles are marked in an unspecified order. When two vehicles write the same cell, which id wins depends on hash-map iteration order, so the cell contents are stated exactly only when no cell is written twice.
- GetPossibleVehicle: states which placements are returned, not the order or multiplicity of the list. The scan visits each head cell and length at most once.
- GetPossibleVehicle: requires the main car (id 0) to be in the map. The source dereferences it without a check and throws otherwise.
- SlideStaysFree: requires the vehicle's head not to lie above or left of the board. After the main car's exit move Up or Left, a slide within the query's answer can overwrite another car (see `ExitThenOverwrite`), so consistency after any sequence of bounded moves is not promised.
