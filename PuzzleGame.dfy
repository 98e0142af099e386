/** The board state of the sliding-block puzzle: an occupancy grid in which
    each cell holds -1 (empty) or the id of the vehicle on it, the map from
    id to vehicle (id 0 is the main car), the board size and the exit cell. */
module Game {
  import opened Vehicles

  /** The mark of an empty cell. */
  const Empty: int := -1

  /** Every vehicle of m is stored under its own id. */
  ghost predicate KeyedById(m: map<int, Vehicle>) {
    forall k :: k in m ==> m[k].id == k
  }

  class PuzzleGame {
    const sizeRow: nat
    const sizeCol: nat
    const exitRow: int
    const exitCol: int
    var vehicleMap: map<int, Vehicle>
    const board: array2<int>

    /** The grid has the board's dimensions. */
    ghost predicate Valid() {
      board.Length0 == sizeRow && board.Length1 == sizeCol
    }

    predicate InBounds(r: int, c: int) {
      0 <= r < sizeRow && 0 <= c < sizeCol
    }

    /** The cells fillVehicleSpace writes for v: the footprint cells on the board,
        up to the first one off the board (so none when the head lies above or
        left of the board). */
    predicate Fills(v: Vehicle, r: int, c: int) {
      && InBounds(r, c)
      && Covers(v, r, c)
      && (if v.isVertical then 0 <= v.row else 0 <= v.col)
    }

    /** No cell is written by two different vehicles of the set. */
    ghost predicate NoOverlap(vs: set<Vehicle>) {
      forall v, w, r, c :: v in vs && w in vs && Fills(v, r, c) && Fills(w, r, c) ==> v == w
    }

    /** The central invariant: grid and vehicle map agree on who sits where. */
    ghost predicate Consistent()
      requires Valid()
      reads this, board
    {
      && (forall id :: id in vehicleMap ==> 0 <= id && vehicleMap[id].id == id)
      && (forall r, c :: InBounds(r, c) && board[r, c] != Empty ==>
            board[r, c] in vehicleMap && Fills(vehicleMap[board[r, c]], r, c))
      && (forall id, r, c :: id in vehicleMap && Fills(vehicleMap[id], r, c) ==> board[r, c] == id)
    }

    /** The ids in use are exactly 0 .. n-1, as addVehicle hands them out. */
    ghost predicate KeysDense()
      reads this
    {
      forall i :: i in vehicleMap <==> 0 <= i < |vehicleMap|
    }

    /** The grid as a value, row by row. */
    ghost function Cells(): (g: seq<seq<int>>)
      requires Valid()
      reads board
      ensures |g| == sizeRow
      ensures forall r :: 0 <= r < sizeRow ==> |g[r]| == sizeCol
      ensures forall r, c :: 0 <= r < sizeRow && 0 <= c < sizeCol ==> g[r][c] == board[r, c]
    {
      seq(board.Length0, r requires 0 <= r < board.Length0 reads board =>
        seq(board.Length1, c requires 0 <= c < board.Length1 reads board => board[r, c]))
    }

    /** The board of the given size with every cell empty and no vehicles. */
    constructor (sizeRow: nat, sizeCol: nat, exitRow: int, exitCol: int)
      ensures Valid() && fresh(board)
      ensures this.sizeRow == sizeRow && this.sizeCol == sizeCol
      ensures this.exitRow == exitRow && this.exitCol == exitCol
      ensures vehicleMap == map[]
      ensures forall r, c :: InBounds(r, c) ==> board[r, c] == Empty
      ensures Consistent() && KeysDense()
    {
      this.sizeRow := sizeRow;
      this.sizeCol := sizeCol;
      this.exitRow := exitRow;
      this.exitCol := exitCol;
      vehicleMap := map[];
      var grid := InitBoard(sizeRow, sizeCol);
      board := grid;
    }

    /** The board of the given size holding the given vehicles, each marked
        on the grid with its own id. */
    constructor WithVehicles(sizeRow: nat, sizeCol: nat, exitRow: int, exitCol: int, vehicles: map<int, Vehicle>)
      ensures Valid() && fresh(board)
      ensures this.sizeRow == sizeRow && this.sizeCol == sizeCol
      ensures this.exitRow == exitRow && this.exitCol == exitCol
      ensures vehicleMap == vehicles
      ensures forall r, c :: InBounds(r, c) && (forall v :: v in vehicles.Values ==> !Fills(v, r, c)) ==>
                board[r, c] == Empty
      ensures forall r, c :: InBounds(r, c) && board[r, c] != Empty ==>
                exists v :: v in vehicles.Values && Fills(v, r, c) && board[r, c] == v.id
      ensures NoOverlap(vehicles.Values) ==>
                forall v, r, c :: v in vehicles.Values && Fills(v, r, c) ==> board[r, c] == v.id
      ensures NoOverlap(vehicles.Values) && (forall id :: id in vehicles ==> 0 <= id && vehicles[id].id == id) ==>
                Consistent()
    {
      this.sizeRow := sizeRow;
      this.sizeCol := sizeCol;
      this.exitRow := exitRow;
      this.exitCol := exitCol;
      vehicleMap := vehicles;
      var grid := InitBoard(sizeRow, sizeCol);
      board := grid;
      new;
      var todo := vehicles.Values;
      ghost var done: set<Vehicle> := {};
      while todo != {}
        invariant todo + done == vehicles.Values && todo !! done
        invariant vehicleMap == vehicles
        invariant forall r, c :: InBounds(r, c) && (forall v :: v in done ==> !Fills(v, r, c)) ==>
                    board[r, c] == Empty
        invariant forall r, c :: InBounds(r, c) && board[r, c] != Empty ==>
                    exists v :: v in done && Fills(v, r, c) && board[r, c] == v.id
        invariant NoOverlap(vehicles.Values) ==>
                    forall v, r, c :: v in done && Fills(v, r, c) ==> board[r, c] == v.id
        decreases todo
      {
        var v :| v in todo;
        FillVehicleSpace(v, v.id);
        todo := todo - {v};
        done := done + {v};
      }
      if NoOverlap(vehicles.Values) && (forall id :: id in vehicles ==> 0 <= id && vehicles[id].id == id) {
        forall id, r, c | id in vehicleMap && Fills(vehicleMap[id], r, c)
          ensures board[r, c] == id
        {
          assert vehicleMap[id] in vehicles.Values;
        }
        forall r, c | InBounds(r, c) && board[r, c] != Empty
          ensures board[r, c] in vehicleMap && Fills(vehicleMap[board[r, c]], r, c)
        {
          var v :| v in vehicles.Values && Fills(v, r, c) && board[r, c] == v.id;
          var k :| k in vehicles && vehicles[k] == v;
        }
      }
    }

    /** Copy constructor: same size, exit, vehicles and grid contents, in a grid of its own. */
    constructor Copy(g: PuzzleGame)
      requires g.Valid() && KeyedById(g.vehicleMap)
      ensures Valid() && fresh(board)
      ensures sizeRow == g.sizeRow && sizeCol == g.sizeCol && exitRow == g.exitRow && exitCol == g.exitCol
      ensures vehicleMap == g.vehicleMap
      ensures Cells() == g.Cells()
      ensures Equals(g)
      ensures g.KeysDense() ==> KeysDense()
      ensures g.Consistent() ==> Consistent()
    {
      sizeRow := g.sizeRow;
      sizeCol := g.sizeCol;
      exitRow := g.exitRow;
      exitCol := g.exitCol;
      // each vehicle is re-keyed by its own id, which is its key already
      vehicleMap := map k | k in g.vehicleMap :: g.vehicleMap[k].id := g.vehicleMap[k];
      var grid := CloneBoard(g.board, g.sizeRow, g.sizeCol);
      board := grid;
      new;
      assert vehicleMap == g.vehicleMap;
      CellsAgree(g);
      if g.Consistent() {
        SameStateConsistent(g);
      }
    }

    /** Consistency depends only on the vehicles and the cell values. */
    lemma SameStateConsistent(g: PuzzleGame)
      requires Valid() && g.Valid() && g.Consistent()
      requires sizeRow == g.sizeRow && sizeCol == g.sizeCol && vehicleMap == g.vehicleMap
      requires forall r, c :: 0 <= r < sizeRow && 0 <= c < sizeCol ==> board[r, c] == g.board[r, c]
      ensures Consistent()
    {
    }

    /** Two grids of the same size have equal cell values exactly when they agree cell by cell. */
    lemma CellsAgree(other: PuzzleGame)
      requires Valid() && other.Valid()
      ensures Cells() == other.Cells() ==> sizeRow == other.sizeRow
      ensures sizeRow == other.sizeRow && sizeCol == other.sizeCol ==>
                (Cells() == other.Cells() <==>
                 forall r, c :: 0 <= r < sizeRow && 0 <= c < sizeCol ==> board[r, c] == other.board[r, c])
    {
      if sizeRow == other.sizeRow && sizeCol == other.sizeCol &&
         forall r, c :: 0 <= r < sizeRow && 0 <= c < sizeCol ==> board[r, c] == other.board[r, c]
      {
        forall r | 0 <= r < sizeRow
          ensures Cells()[r] == other.Cells()[r]
        {
        }
      }
    }

    /** A fresh grid of the given size with every cell empty. */
    static method InitBoard(rows: nat, cols: nat) returns (grid: array2<int>)
      ensures fresh(grid) && grid.Length0 == rows && grid.Length1 == cols
      ensures forall r, c :: 0 <= r < rows && 0 <= c < cols ==> grid[r, c] == Empty
    {
      grid := new int[rows, cols];
      var y := 0;
      while y < rows
        invariant 0 <= y <= rows
        invariant forall r, c :: 0 <= r < y && 0 <= c < cols ==> grid[r, c] == Empty
      {
        var x := 0;
        while x < cols
          invariant 0 <= x <= cols
          invariant forall r, c :: 0 <= r < y && 0 <= c < cols ==> grid[r, c] == Empty
          invariant forall c :: 0 <= c < x ==> grid[y, c] == Empty
        {
          grid[y, x] := Empty;
          x := x + 1;
        }
        y := y + 1;
      }
    }

    /** A fresh rows-by-cols grid holding the same cells as src. */
    static method CloneBoard(src: array2<int>, rows: nat, cols: nat) returns (clone: array2<int>)
      requires rows <= src.Length0 && cols <= src.Length1
      ensures fresh(clone) && clone.Length0 == rows && clone.Length1 == cols
      ensures forall r, c :: 0 <= r < rows && 0 <= c < cols ==> clone[r, c] == src[r, c]
    {
      clone := new int[rows, cols];
      var i := 0;
      while i < rows
        invariant 0 <= i <= rows
        invariant forall r, c :: 0 <= r < i && 0 <= c < cols ==> clone[r, c] == src[r, c]
      {
        var k := 0;
        while k < cols
          invariant 0 <= k <= cols
          invariant forall r, c :: 0 <= r < i && 0 <= c < cols ==> clone[r, c] == src[r, c]
          invariant forall c :: 0 <= c < k ==> clone[i, c] == src[i, c]
        {
          clone[i, k] := src[i, k];
          k := k + 1;
        }
        i := i + 1;
      }
    }

    /** False exactly for the cells that index the grid. */
    function IsOutOfBounds(row: int, col: int): (b: bool)
      requires Valid()
      ensures !b <==> 0 <= row < board.Length0 && 0 <= col < board.Length1
    {
      !InBounds(row, col)
    }

    /** Whether a vehicle sits on an on-board cell. */
    function IsOccupied(row: int, col: int): (b: bool)
      requires Valid() && InBounds(row, col)
      reads this, board
      ensures b <==> board[row, col] != Empty
      ensures Consistent() ==> (b <==> exists id :: id in vehicleMap && Fills(vehicleMap[id], row, col))
    {
      board[row, col] != Empty
    }

    /** The placement lies on the board from head to tail. */
    predicate FootprintOnBoard(isVertical: bool, length: int, row: int, col: int) {
      length <= 0 ||
      (InBounds(row, col) &&
       if isVertical then InBounds(row + length - 1, col) else InBounds(row, col + length - 1))
    }

    /** Every on-board cell of the placement is empty. */
    ghost predicate FootprintEmpty(isVertical: bool, length: int, row: int, col: int)
      requires Valid()
      reads board
    {
      forall r, c :: InBounds(r, c) && OnFootprint(isVertical, length, row, col, r, c) ==> board[r, c] == Empty
    }

    /** Whether a vehicle of this orientation and length fits at (row, col). */
    method CanAddVehicle(isVertical: bool, length: int, row: int, col: int) returns (ok: bool)
      requires Valid()
      requires FootprintOnBoard(isVertical, length, row, col)
      ensures ok <==> FootprintEmpty(isVertical, length, row, col)
    {
      if isVertical {
        var i := 0;
        while i < length
          invariant 0 <= i && (i <= length || i == 0)
          invariant forall r, c :: InBounds(r, c) && OnFootprint(isVertical, i, row, col, r, c) ==> board[r, c] == Empty
        {
          if IsOccupied(row + i, col) {
            assert OnFootprint(isVertical, length, row, col, row + i, col);
            return false;
          }
          i := i + 1;
        }
      } else {
        var i := 0;
        while i < length
          invariant 0 <= i && (i <= length || i == 0)
          invariant forall r, c :: InBounds(r, c) && OnFootprint(isVertical, i, row, col, r, c) ==> board[r, c] == Empty
        {
          if IsOccupied(row, col + i) {
            assert OnFootprint(isVertical, length, row, col, row, col + i);
            return false;
          }
          i := i + 1;
        }
      }
      return true;
    }

    /** Marks the cells v fills with `id`, stopping at the first cell off the board. */
    method FillVehicleSpace(v: Vehicle, id: int)
      requires Valid()
      modifies board
      ensures forall r, c :: InBounds(r, c) ==> board[r, c] == if Fills(v, r, c) then id else old(board[r, c])
    {
      var row := v.row;
      var col := v.col;
      if v.isVertical {
        var i := 0;
        while i < v.length
          invariant 0 <= i && (i <= v.length || i == 0)
          invariant i > 0 ==> 0 <= row && row + i <= sizeRow && 0 <= col < sizeCol
          invariant forall r, c :: InBounds(r, c) ==>
                      board[r, c] == if c == col && row <= r < row + i then id else old(board[r, c])
        {
          if IsOutOfBounds(row + i, col) {
            return;
          }
          board[row + i, col] := id;
          i := i + 1;
        }
      } else {
        var i := 0;
        while i < v.length
          invariant 0 <= i && (i <= v.length || i == 0)
          invariant i > 0 ==> 0 <= col && col + i <= sizeCol && 0 <= row < sizeRow
          invariant forall r, c :: InBounds(r, c) ==>
                      board[r, c] == if r == row && col <= c < col + i then id else old(board[r, c])
        {
          if IsOutOfBounds(row, col + i) {
            return;
          }
          board[row, col + i] := id;
          i := i + 1;
        }
      }
    }

    /** Adds a vehicle under the next id (the map's size) and marks its cells. */
    method AddVehicle(isVertical: bool, length: int, row: int, col: int)
      requires Valid()
      modifies this, board
      ensures var n := |old(vehicleMap)|;
        && vehicleMap == old(vehicleMap)[n := Vehicle(n, isVertical, length, row, col)]
        && forall r, c :: InBounds(r, c) ==>
             board[r, c] == if Fills(vehicleMap[n], r, c) then n else old(board[r, c])
      ensures old(KeysDense()) ==> KeysDense() && |vehicleMap| == |old(vehicleMap)| + 1
      ensures old(Consistent() && KeysDense() && FootprintEmpty(isVertical, length, row, col)) ==> Consistent()
    {
      AddExistingVehicle(Vehicle(|vehicleMap|, isVertical, length, row, col));
    }

    /** Adds the given vehicle, renumbered to the next id, and marks its cells. */
    method AddExistingVehicle(vehicle: Vehicle)
      requires Valid()
      modifies this, board
      ensures var n := |old(vehicleMap)|;
        && vehicleMap == old(vehicleMap)[n := vehicle.(id := n)]
        && forall r, c :: InBounds(r, c) ==>
             board[r, c] == if Fills(vehicle, r, c) then n else old(board[r, c])
      ensures old(KeysDense()) ==> KeysDense() && |vehicleMap| == |old(vehicleMap)| + 1
      ensures old(Consistent() && KeysDense() && FootprintEmpty(vehicle.isVertical, vehicle.length, vehicle.row, vehicle.col)) ==>
                Consistent()
    {
      var id := |vehicleMap|;
      var v := vehicle.(id := id);
      ghost var keep := Consistent() && KeysDense() && FootprintEmpty(v.isVertical, v.length, v.row, v.col);
      if keep {
        // the cells the new vehicle fills are empty, so no vehicle already placed fills them
        forall j, r, c | j in vehicleMap && Fills(vehicleMap[j], r, c)
          ensures !Fills(v, r, c)
        {
          assert board[r, c] == j;
        }
      }
      vehicleMap := vehicleMap[id := v];
      FillVehicleSpace(v, id);
      if keep {
        forall j, r, c | j in vehicleMap && Fills(vehicleMap[j], r, c)
          ensures board[r, c] == j
        {
          if j != id {
            assert j in old(vehicleMap) && Fills(old(vehicleMap)[j], r, c);
          }
        }
      }
    }

    /** Moves vehicle `id` so that its head is (newRow, newCol): clears the cells
        it filled, then fills the cells of its new position. */
    method MoveVehicle(id: int, newRow: int, newCol: int)
      requires Valid() && id in vehicleMap
      modifies this, board
      ensures var ov := old(vehicleMap[id]);
        var nv := ov.(row := newRow, col := newCol);
        && vehicleMap == old(vehicleMap)[id := nv]
        && forall r, c :: InBounds(r, c) ==>
             board[r, c] == if Fills(nv, r, c) then id else if Fills(ov, r, c) then Empty else old(board[r, c])
      ensures old(Consistent() && DestinationFree(id, vehicleMap[id].(row := newRow, col := newCol))) ==> Consistent()
    {
      var v := vehicleMap[id];
      FillVehicleSpace(v, Empty);
      var nv := v.(row := newRow, col := newCol);
      vehicleMap := vehicleMap[id := nv];
      FillVehicleSpace(nv, id);
    }

    /** Every cell w would fill is empty or already holds `id`. */
    ghost predicate DestinationFree(id: int, w: Vehicle)
      requires Valid()
      reads board
    {
      forall r, c :: Fills(w, r, c) ==> board[r, c] == Empty || board[r, c] == id
    }

    /** Whether the main car is on the exit cell. */
    function IsSolved(): (b: bool)
      requires Valid() && InBounds(exitRow, exitCol)
      reads this, board
      ensures b <==> board[exitRow, exitCol] == 0
      ensures Consistent() ==> (b <==> 0 in vehicleMap && Fills(vehicleMap[0], exitRow, exitCol))
    {
      board[exitRow, exitCol] == 0
    }

    /** The id on a cell, or -1 for an empty or off-board cell. */
    function GetVehicleIdAtLocation(row: int, col: int): (id: int)
      requires Valid()
      reads this, board
      ensures !InBounds(row, col) ==> id == Empty
      ensures Consistent() ==> id == Empty || (id in vehicleMap && Fills(vehicleMap[id], row, col))
      ensures Consistent() ==> forall j :: j in vehicleMap && Fills(vehicleMap[j], row, col) ==> id == j
    {
      if !IsOutOfBounds(row, col) then board[row, col] else Empty
    }

    /** The vehicle with id `pick`, a random index below the map's size. */
    function GetRandomVehicle(pick: int): (v: Option<Vehicle>)
      requires 0 <= pick < |vehicleMap|
      reads this
      ensures v.Some? ==> v.value in vehicleMap.Values
      ensures KeysDense() ==> v == Some(vehicleMap[pick])
    {
      if pick in vehicleMap then Some(vehicleMap[pick]) else None
    }

    /** Structural equality: grid contents, exit and size; the vehicle map is ignored. */
    function Equals(other: PuzzleGame?): (b: bool)
      requires Valid() && (other != null ==> other.Valid())
      reads board, if other == null then {} else {other.board}
      ensures b <==> other != null && Cells() == other.Cells() && exitCol == other.exitCol &&
                     exitRow == other.exitRow && sizeCol == other.sizeCol && sizeRow == other.sizeRow
    {
      if this == other then true
      else if other == null then false
      else
        CellsAgree(other);
        && board.Length0 == other.board.Length0 && board.Length1 == other.board.Length1
        && (forall r, c :: 0 <= r < board.Length0 && 0 <= c < board.Length1 ==> board[r, c] == other.board[r, c])
        && exitCol == other.exitCol
        && exitRow == other.exitRow
        && sizeCol == other.sizeCol
        && sizeRow == other.sizeRow
    }

    // ---------------------------------------------------------------- sliding

    /** Distance from (r, c) to the border in direction d, counting (r, c); 0 off the board. */
    function Reach(r: int, c: int, d: Direction): nat {
      if !InBounds(r, c) then 0
      else match d
        case Up => r + 1
        case Down => sizeRow - r
        case Left => c + 1
        case Right => sizeCol - c
    }

    /** The number of consecutive empty on-board cells from (r, c) on in direction d. */
    ghost function FreeRun(r: int, c: int, d: Direction): nat
      requires Valid()
      reads board
      decreases Reach(r, c, d)
    {
      if !InBounds(r, c) || board[r, c] != Empty then 0
      else 1 + FreeRun(ShiftRow(r, d, 1), ShiftCol(c, d, 1), d)
    }

    /** The exit bonus: the main car may leave through an exit on the border it
        faces once the scan has run to that border unobstructed (n empty cells). */
    predicate ExitBonus(id: int, v: Vehicle, d: Direction, n: int) {
      && id == 0
      && match d
        case Up => exitRow == 0 && LeadRow(v, d) - n == -1
        case Down => exitRow == sizeRow - 1 && LeadRow(v, d) + n == sizeRow
        case Left => exitCol == 0 && LeadCol(v, d) - n == -1
        case Right => exitCol == sizeCol - 1 && LeadCol(v, d) + n == sizeCol
    }

    /** What the slide query answers for vehicle id in direction d. */
    ghost function LegalSlide(id: int, d: Direction): nat
      requires Valid() && id in vehicleMap
      reads this, board
    {
      var v := vehicleMap[id];
      if v.isVertical != IsVerticalAxis(d) then 0
      else
        var n := FreeRun(LeadRow(v, d), LeadCol(v, d), d);
        if ExitBonus(id, v, d, n) then n + 1 else n
    }

    /** The cells a free run counts are on the board and empty; the cell after them is not both. */
    lemma {:induction false} FreeRunCells(r: int, c: int, d: Direction)
      requires Valid()
      ensures forall t :: 0 <= t < FreeRun(r, c, d) ==>
                InBounds(ShiftRow(r, d, t), ShiftCol(c, d, t)) && board[ShiftRow(r, d, t), ShiftCol(c, d, t)] == Empty
      ensures var n := FreeRun(r, c, d);
                !InBounds(ShiftRow(r, d, n), ShiftCol(c, d, n)) || board[ShiftRow(r, d, n), ShiftCol(c, d, n)] != Empty
      decreases Reach(r, c, d)
    {
      if InBounds(r, c) && board[r, c] == Empty {
        var r', c' := ShiftRow(r, d, 1), ShiftCol(c, d, 1);
        FreeRunCells(r', c', d);
        forall t | 0 < t <= FreeRun(r, c, d)
          ensures ShiftRow(r, d, t) == ShiftRow(r', d, t - 1) && ShiftCol(c, d, t) == ShiftCol(c', d, t - 1)
        {
        }
      }
    }

    /** The number of cells vehicle id can slide up. */
    method CanMoveUp(id: int) returns (k: int)
      requires Valid() && id in vehicleMap
      ensures k == LegalSlide(id, Up)
    {
      var v := vehicleMap[id];
      if !v.isVertical {
        return 0;
      }
      var row := v.row - 1;
      var col := v.col;
      var numLegal := 0;
      while !IsOutOfBounds(row, col)
        invariant row == v.row - 1 - numLegal && 0 <= numLegal
        invariant FreeRun(v.row - 1, col, Up) == numLegal + FreeRun(row, col, Up)
        decreases row + 1
      {
        if IsOccupied(row, col) {
          break;
        }
        row := row - 1;
        numLegal := numLegal + 1;
      }
      if exitRow == 0 && id == 0 && row == -1 {
        return numLegal + 1;
      }
      return numLegal;
    }

    /** The number of cells vehicle id can slide down. */
    method CanMoveDown(id: int) returns (k: int)
      requires Valid() && id in vehicleMap
      ensures k == LegalSlide(id, Down)
    {
      var v := vehicleMap[id];
      if !v.isVertical {
        return 0;
      }
      var row := v.row + v.length;
      var col := v.col;
      var numLegal := 0;
      while !IsOutOfBounds(row, col)
        invariant row == v.row + v.length + numLegal && 0 <= numLegal
        invariant FreeRun(v.row + v.length, col, Down) == numLegal + FreeRun(row, col, Down)
        decreases sizeRow - row
      {
        if IsOccupied(row, col) {
          break;
        }
        row := row + 1;
        numLegal := numLegal + 1;
      }
      if exitRow == sizeRow - 1 && id == 0 && row == sizeRow {
        return numLegal + 1;
      }
      return numLegal;
    }

    /** The number of cells vehicle id can slide left. */
    method CanMoveLeft(id: int) returns (k: int)
      requires Valid() && id in vehicleMap
      ensures k == LegalSlide(id, Left)
    {
      var v := vehicleMap[id];
      if v.isVertical {
        return 0;
      }
      var row := v.row;
      var col := v.col - 1;
      var numLegal := 0;
      while !IsOutOfBounds(row, col)
        invariant col == v.col - 1 - numLegal && 0 <= numLegal
        invariant FreeRun(row, v.col - 1, Left) == numLegal + FreeRun(row, col, Left)
        decreases col + 1
      {
        if IsOccupied(row, col) {
          break;
        }
        col := col - 1;
        numLegal := numLegal + 1;
      }
      if exitCol == 0 && id == 0 && col == -1 {
        return numLegal + 1;
      }
      return numLegal;
    }

    /** The number of cells vehicle id can slide right. */
    method CanMoveRight(id: int) returns (k: int)
      requires Valid() && id in vehicleMap
      ensures k == LegalSlide(id, Right)
    {
      var v := vehicleMap[id];
      if v.isVertical {
        return 0;
      }
      var row := v.row;
      var col := v.col + v.length;
      var numLegal := 0;
      while !IsOutOfBounds(row, col)
        invariant col == v.col + v.length + numLegal && 0 <= numLegal
        invariant FreeRun(row, v.col + v.length, Right) == numLegal + FreeRun(row, col, Right)
        decreases sizeCol - col
      {
        if IsOccupied(row, col) {
          break;
        }
        col := col + 1;
        numLegal := numLegal + 1;
      }
      if exitCol == sizeCol - 1 && id == 0 && col == sizeCol {
        return numLegal + 1;
      }
      return numLegal;
    }

    /** A slide bounded by the slide query only enters empty cells or the vehicle's
        own, so MoveVehicle then keeps the board consistent, provided the vehicle's
        head is not above or left of the board (when it is, its cells are unmarked
        and the query does not look at them: see ExitThenOverwrite). */
    lemma SlideStaysFree(id: int, d: Direction, dist: int)
      requires Valid() && Consistent() && id in vehicleMap
      requires if vehicleMap[id].isVertical then 0 <= vehicleMap[id].row else 0 <= vehicleMap[id].col
      requires 0 <= dist <= LegalSlide(id, d)
      ensures DestinationFree(id, Slide(vehicleMap[id], d, dist))
    {
      var v := vehicleMap[id];
      var w := Slide(v, d, dist);
      if v.isVertical == IsVerticalAxis(d) {
        var lr, lc := LeadRow(v, d), LeadCol(v, d);
        FreeRunCells(lr, lc, d);
        var n := FreeRun(lr, lc, d);
        forall r, c | Fills(w, r, c)
          ensures board[r, c] == Empty || board[r, c] == id
        {
          if !Fills(v, r, c) {
            var t := match d
              case Up => lr - r
              case Down => r - lr
              case Left => lc - c
              case Right => c - lc;
            assert r == ShiftRow(lr, d, t) && c == ShiftCol(lc, d, t);
          }
        }
      } else {
        assert w == v;
      }
    }

    // ---------------------------------------------------------------- filler candidates

    /** A filler placement the generator may use: length 2 or 3, wholly on the
        board on empty cells, and not on the main car's own line of travel. */
    ghost predicate IsCandidate(v: Vehicle)
      requires Valid() && 0 in vehicleMap
      reads this, board
    {
      var main := vehicleMap[0];
      && v.id == PlaceholderId
      && (v.length == 2 || v.length == 3)
      && FootprintOnBoard(v.isVertical, v.length, v.row, v.col)
      && FootprintEmpty(v.isVertical, v.length, v.row, v.col)
      && !(main.isVertical && v.isVertical && v.col == main.col)
      && !(!main.isVertical && !v.isVertical && v.row == main.row)
    }

    /** A placement with its head on the board fits on empty cells exactly when
        the free run from its head along its axis is at least its length. */
    lemma FootprintFreeRun(isVertical: bool, length: int, row: int, col: int)
      requires Valid() && InBounds(row, col) && 1 <= length
      ensures FootprintOnBoard(isVertical, length, row, col) && FootprintEmpty(isVertical, length, row, col)
              <==> FreeRun(row, col, if isVertical then Down else Right) >= length
    {
      var d := if isVertical then Down else Right;
      FreeRunCells(row, col, d);
      var n := FreeRun(row, col, d);
      if n >= length {
        assert InBounds(ShiftRow(row, d, length - 1), ShiftCol(col, d, length - 1));
        forall r, c | InBounds(r, c) && OnFootprint(isVertical, length, row, col, r, c)
          ensures board[r, c] == Empty
        {
          var t := if isVertical then r - row else c - col;
          assert r == ShiftRow(row, d, t) && c == ShiftCol(col, d, t);
        }
      } else if FootprintOnBoard(isVertical, length, row, col) {
        var r, c := ShiftRow(row, d, n), ShiftCol(col, d, n);
        assert InBounds(r, c) && OnFootprint(isVertical, length, row, col, r, c);
      }
    }

    /** All filler placements of length 2 or 3 on empty cells, from scanning every
        column and then every row for runs of empty cells. */
    method GetPossibleVehicle() returns (candidates: seq<Vehicle>)
      requires Valid() && 0 in vehicleMap
      ensures forall v :: v in candidates <==> IsCandidate(v)
    {
      var emptySpace := 0;
      candidates := [];
      var main := vehicleMap[0];
      var mainIsVertical, mainRow, mainCol := main.isVertical, main.row, main.col;

      // columns, right to left, each bottom to top
      var i := sizeCol - 1;
      while i >= 0
        invariant -1 <= i < sizeCol && emptySpace == 0
        invariant forall v :: v in candidates <==> IsCandidate(v) && v.isVertical && v.col > i
      {
        var j := sizeRow - 1;
        while j >= 0
          invariant -1 <= j < sizeRow
          invariant emptySpace == if mainIsVertical && mainCol == i then 0 else FreeRun(j + 1, i, Down)
          invariant forall v :: v in candidates <==>
                      IsCandidate(v) && v.isVertical && (v.col > i || (v.col == i && v.row > j))
        {
          if mainIsVertical && mainCol == i {
            j := j - 1;
            continue;
          }
          if !IsOccupied(j, i) {
            emptySpace := emptySpace + 1;
            forall v: Vehicle | v.isVertical == true && v.row == j && v.col == i
              ensures IsCandidate(v) <==> v.id == PlaceholderId && v.length in VehicleSizes && emptySpace >= v.length
            {
              if v.length in VehicleSizes {
                FootprintFreeRun(true, v.length, j, i);
              }
            }
            var k := 0;
            while k < |VehicleSizes|
              invariant 0 <= k <= |VehicleSizes|
              invariant forall v :: v in candidates <==>
                          IsCandidate(v) && v.isVertical &&
                          (v.col > i || (v.col == i && v.row > j) || (v.col == i && v.row == j && v.length in VehicleSizes[..k]))
            {
              assert VehicleSizes[..k + 1] == VehicleSizes[..k] + [VehicleSizes[k]];
              if emptySpace >= VehicleSizes[k] {
                candidates := candidates + [Vehicle(PlaceholderId, true, VehicleSizes[k], j, i)];
              }
              k := k + 1;
            }
          } else {
            emptySpace := 0;
            forall v | IsCandidate(v) && v.isVertical && v.col == i && v.row == j
              ensures false
            {
              assert OnFootprint(true, v.length, j, i, j, i);
            }
          }
          j := j - 1;
        }
        emptySpace := 0;
        i := i - 1;
      }

      // rows, bottom to top, each right to left
      emptySpace := 0;
      var j := sizeRow - 1;
      while j >= 0
        invariant -1 <= j < sizeRow && emptySpace == 0
        invariant forall v :: v in candidates <==> IsCandidate(v) && (v.isVertical || v.row > j)
      {
        var i := sizeCol - 1;
        while i >= 0
          invariant -1 <= i < sizeCol
          invariant emptySpace == if !mainIsVertical && mainRow == j then 0 else FreeRun(j, i + 1, Right)
          invariant forall v :: v in candidates <==>
                      IsCandidate(v) && (v.isVertical || v.row > j || (v.row == j && v.col > i))
        {
          if !mainIsVertical && mainRow == j {
            i := i - 1;
            continue;
          }
          if !IsOccupied(j, i) {
            emptySpace := emptySpace + 1;
            forall v: Vehicle | v.isVertical == false && v.row == j && v.col == i
              ensures IsCandidate(v) <==> v.id == PlaceholderId && v.length in VehicleSizes && emptySpace >= v.length
            {
              if v.length in VehicleSizes {
                FootprintFreeRun(false, v.length, j, i);
              }
            }
            var k := 0;
            while k < |VehicleSizes|
              invariant 0 <= k <= |VehicleSizes|
              invariant forall v :: v in candidates <==>
                          IsCandidate(v) &&
                          (v.isVertical || v.row > j || (v.row == j && v.col > i) ||
                           (v.row == j && v.col == i && v.length in VehicleSizes[..k]))
            {
              assert VehicleSizes[..k + 1] == VehicleSizes[..k] + [VehicleSizes[k]];
              if emptySpace >= VehicleSizes[k] {
                candidates := candidates + [Vehicle(PlaceholderId, false, VehicleSizes[k], j, i)];
              }
              k := k + 1;
            }
          } else {
            emptySpace := 0;
            forall v | IsCandidate(v) && !v.isVertical && v.row == j && v.col == i
              ensures false
            {
              assert OnFootprint(false, v.length, j, i, j, i);
            }
          }
          i := i - 1;
        }
        emptySpace := 0;
        j := j - 1;
      }
    }
  }

  /** A copy taken before the original moves a vehicle keeps the original's
      earlier grid and vehicles: the two share no state. */
  method CopyThenMove(g: PuzzleGame, id: int, newRow: int, newCol: int) returns (h: PuzzleGame)
    requires g.Valid() && KeyedById(g.vehicleMap) && id in g.vehicleMap
    modifies g, g.board
    ensures fresh(h) && h.Valid()
    ensures h.Cells() == old(g.Cells()) && h.vehicleMap == old(g.vehicleMap)
    ensures id in g.vehicleMap && g.vehicleMap[id].row == newRow && g.vehicleMap[id].col == newCol
  {
    h := new PuzzleGame.Copy(g);
    g.MoveVehicle(id, newRow, newCol);
  }

  /** After the exit move Up, the main car's head is at row -1, so none of its
      cells is marked and another car may slide into them; the main car's
      downward query starts below its tail and does not see that car, so a slide
      within that query's answer overwrites it. On a 3 x 4 board with the exit at
      (0, 1), every move below stays within the query's answer, and the board
      ends inconsistent. */
  method ExitThenOverwrite() returns (g: PuzzleGame)
    ensures g.Valid() && 0 in g.vehicleMap && 1 in g.vehicleMap
    ensures g.Fills(g.vehicleMap[1], 0, 1) && g.board[0, 1] == 0
    ensures !g.Consistent()
  {
    g := new PuzzleGame(3, 4, 0, 1);
    g.AddVehicle(true, 2, 0, 1);
    g.AddVehicle(false, 2, 0, 2);
    assert g.vehicleMap == map[0 := Vehicle(0, true, 2, 0, 1), 1 := Vehicle(1, false, 2, 0, 2)];
    // the main car leaves through the exit
    assert g.FreeRun(-1, 1, Up) == 0;
    var up := g.CanMoveUp(0);
    assert up == 1;
    g.MoveVehicle(0, 0 - up, 1);
    // car 1 slides left into the cells the main car left
    assert g.board[0, 1] == Empty && g.board[0, 0] == Empty;
    assert g.FreeRun(0, -1, Left) == 0;
    assert g.FreeRun(0, 0, Left) == 1;
    var left := g.CanMoveLeft(1);
    assert left == 2;
    g.MoveVehicle(1, 0, 1);
    // the main car comes back down one cell, within its query's answer
    assert g.board[1, 1] == Empty && g.board[2, 1] == Empty;
    assert g.FreeRun(3, 1, Down) == 0;
    assert g.FreeRun(2, 1, Down) == 1;
    var down := g.CanMoveDown(0);
    assert down == 2;
    g.MoveVehicle(0, -1 + 1, 1);
  }

  /** The exit move Up leaves the main car with its head at row -1 and none of
      its cells marked, so the board is not solved although the car still covers
      the exit cell. */
  method ExitUpUnsolved() returns (g: PuzzleGame)
    ensures g.Valid() && g.InBounds(g.exitRow, g.exitCol) && 0 in g.vehicleMap
    ensures Covers(g.vehicleMap[0], g.exitRow, g.exitCol)
    ensures !g.IsSolved()
  {
    g := new PuzzleGame(3, 4, 0, 1);
    g.AddVehicle(true, 2, 0, 1);
    assert g.FreeRun(-1, 1, Up) == 0;
    var up := g.CanMoveUp(0);
    assert up == 1;
    g.MoveVehicle(0, 0 - up, 1);
  }

  /** The mirror image at the bottom border: after the exit move Down the cell
      still on the board stays marked, so the board is solved. */
  method ExitDownSolved() returns (g: PuzzleGame)
    ensures g.Valid() && g.InBounds(g.exitRow, g.exitCol) && 0 in g.vehicleMap
    ensures Covers(g.vehicleMap[0], g.exitRow, g.exitCol)
    ensures g.IsSolved()
  {
    g := new PuzzleGame(3, 4, 2, 1);
    g.AddVehicle(true, 2, 1, 1);
    assert g.FreeRun(3, 1, Down) == 0;
    var down := g.CanMoveDown(0);
    assert down == 1;
    g.MoveVehicle(0, 1 + down, 1);
  }
}
