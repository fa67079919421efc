/** The field engine (MineField.h): an N×N grid of cells, the pool of bomb-free cells bombs are drawn
    from, the cached list of bomb positions, and the recursive reveal. */
module MineFields {
  import opened MineCells
  import opened Grids
  import opened Uncover
  import opened FieldRules


  class MineField {
    /** The pool of cells a bomb may still be placed on. */
    var flatMap: seq<Coord>
    /** The cached bomb positions, filled in by `GetAllBombs`. */
    var bombs: seq<Coord>
    var size: int
    var unrevealedCellsCount: int
    var bombsCount: int
    /** Set once the player has clicked a bomb (and had it moved). */
    var firstTime: bool
    /** The cells, row by row (the source's `map`). */
    var grid: Grid

    /** The shape of the field and what its caches hold. */
    ghost predicate Valid()
      reads this
    {
      WellFormed(size, grid, bombsCount, flatMap, bombs, firstTime)
    }

    /** The counter agrees with the grid. */
    ghost predicate Consistent()
      reads this
    {
      IsGrid(grid) && unrevealedCellsCount == UnrevealedTotal(grid)
    }

    /** Builds a FieldSize × FieldSize field. `draws` are the random indices the bomb placement uses. */
    constructor (FieldSize: int, BombsCount: int, draws: seq<nat>)
      requires FieldSize >= 0
      requires |draws| == NonNeg(ClampedBombs(FieldSize, BombsCount))
      requires DrawsFit(FieldSize * FieldSize, draws)
      ensures size == FieldSize && bombsCount == ClampedBombs(FieldSize, BombsCount)
      ensures Valid() && Consistent()
      ensures !firstTime && bombs == []
      ensures forall i, j | 0 <= i < size && 0 <= j < size ::
                !grid[i][j].revealed && grid[i][j].neighborBombsCount == 0
      ensures unrevealedCellsCount == |AllCells(grid)| == size * size
      ensures flatMap == Remaining(AllCells(grid), draws)
      ensures forall c | InGrid(grid, c) :: grid[c.0][c.1].hasBomb <==> c in Picked(AllCells(grid), draws)
    {
      size := FieldSize;
      bombsCount := ClampedBombs(FieldSize, BombsCount);
      flatMap, grid := [], [];
      unrevealedCellsCount, firstTime := 0, false;
      new;
      CreateEmptyMap(size);
      FlattenMap();
      ghost var all := flatMap;
      EmptyPlacement(grid, draws);
      PlaceBombs(draws, all);
      bombs := [];
      InitMap();
      FreshField(size, grid, bombsCount, flatMap, bombs, firstTime, all, draws);
    }

    /** The constructor's placement loop: one bomb per draw, each on the drawn pool entry. */
    method PlaceBombs(draws: seq<nat>, ghost all: seq<Coord>)
      requires |draws| == NonNeg(bombsCount) && Placement(grid, all, flatMap, draws, 0)
      modifies this`grid, this`flatMap
      ensures |grid| == old(|grid|) && Placement(grid, all, flatMap, draws, |draws|)
    {
      var i := 0;
      while i < bombsCount
        invariant 0 <= i <= |draws| && |grid| == old(|grid|) && Placement(grid, all, flatMap, draws, i)
      {
        PlacementStep(grid, all, flatMap, draws, i);
        var _ := AssignRandomBomb(draws[i]);
        i := i + 1;
      }
    }

    /** Starts the game: no bomb clicked yet, every cell hidden. */
    method InitMap()
      modifies this`firstTime, this`unrevealedCellsCount
      ensures !firstTime && unrevealedCellsCount == size * size
    {
      firstTime := false;
      unrevealedCellsCount := size * size;
    }

    /** `index` clamped into [0, size - 1]. */
    function SafeIndex(index: int): (r: int)
      reads this`size
      ensures size >= 1 ==> 0 <= r < size
      ensures 0 <= index < size ==> r == index
      ensures index < 0 ==> r == if size >= 1 then 0 else size - 1
      ensures index >= size ==> r == size - 1
    {
      Min(Max(index, 0), size - 1)
    }

    /** (x, y) is on the field and still hidden. */
    ghost predicate Covered(x: int, y: int)
      reads this
    {
      IsGrid(grid) && |grid| == size && 0 <= x < size && 0 <= y < size && !grid[x][y].revealed
    }

    /** A reveal of (x, y) uncovers it: it is covered, and it is not a bomb met by a passive call. */
    ghost predicate Opens(x: int, y: int, passive: bool)
      reads this
    {
      Covered(x, y) && !(grid[x][y].hasBomb && passive)
    }

    /** A reveal of (x, y) reports a bomb: a passive call met one, or a click met one after the
        first bomb click. */
    ghost predicate Hits(x: int, y: int, passive: bool)
      reads this
    {
      Covered(x, y) && grid[x][y].hasBomb && (passive || firstTime)
    }

    /** A reveal of (x, y) is the first bomb click: the bomb is moved away before the cell opens. */
    ghost predicate Relocates(x: int, y: int, passive: bool)
      reads this
    {
      Covered(x, y) && grid[x][y].hasBomb && !passive && !firstTime
    }

    /** Reveals (x, y); `passive` marks the calls the flood fill makes. Reports whether a bomb was met.
        `draw` is the random pool index used if this is the first bomb click. */
    method Reveal(x: int, y: int, passive: bool, draw: nat) returns (isBomb: bool)
      requires Valid()
      requires flatMap != [] ==> draw < |flatMap|
      modifies this`grid, this`flatMap, this`bombs, this`firstTime, this`unrevealedCellsCount
      decreases UnrevealedTotal(grid), 2, 0
      ensures Valid()
      ensures isBomb == old(Hits(x, y, passive))
      ensures !old(Opens(x, y, passive)) ==> unchanged(this)
      ensures old(Opens(x, y, passive)) ==> grid[x][y].revealed
      ensures unrevealedCellsCount - old(unrevealedCellsCount) == UnrevealedTotal(grid) - old(UnrevealedTotal(grid))
      ensures UnrevealedTotal(grid) <= old(UnrevealedTotal(grid))
      ensures old(Hits(x, y, passive)) && !passive ==>
                grid == Put(old(grid), (x, y), old(grid)[x][y].(revealed := true))
      ensures !old(Relocates(x, y, passive)) ==>
                Expands(old(grid), grid) && ClosedOver(old(grid), grid) && WithinFlood(old(grid), grid, x, y) &&
                flatMap == old(flatMap) && firstTime == old(firstTime)
      ensures old(Relocates(x, y, passive)) ==> old(flatMap) != [] && InGrid(old(grid), old(flatMap)[draw])
      ensures old(Relocates(x, y, passive)) ==>
                firstTime && flatMap == old(flatMap[..draw] + flatMap[draw + 1..]) &&
                Expands(Relocated(old(grid), (x, y), old(flatMap)[draw]), grid) &&
                ClosedOver(Relocated(old(grid), (x, y), old(flatMap)[draw]), grid) &&
                WithinFlood(Relocated(old(grid), (x, y), old(flatMap)[draw]), grid, x, y)
      ensures old(!firstTime && Opens(x, y, passive)) ==> bombs == BombCells(grid)
      ensures old(firstTime) ==> bombs == old(bombs)
      ensures old(bombs == BombCells(grid)) && !old(Relocates(x, y, passive)) ==>
                bombs == old(bombs) && bombs == BombCells(grid)
    {
      if x < 0 || x >= size || y < 0 || y >= size {
        return false;
      }
      if grid[x][y].revealed {
        return false;
      }
      if grid[x][y].hasBomb && passive {
        return true;
      }
      if grid[x][y].hasBomb && !firstTime {
        isBomb := RevealFirstBomb(x, y, draw);
      } else {
        isBomb := RevealCovered(x, y, passive);
      }
    }

    /** The part of `Reveal` past its guards on the first bomb click: the bomb is moved to the drawn
        pool entry, the bomb cache is filled, and the cell is opened as a bomb-free one. */
    method RevealFirstBomb(x: int, y: int, draw: nat) returns (isBomb: bool)
      requires Valid() && Relocates(x, y, false)
      requires flatMap != [] ==> draw < |flatMap|
      modifies this`grid, this`flatMap, this`bombs, this`firstTime, this`unrevealedCellsCount
      decreases UnrevealedTotal(grid), 1, 1
      ensures Valid() && !isBomb && grid[x][y].revealed
      ensures unrevealedCellsCount - old(unrevealedCellsCount) == UnrevealedTotal(grid) - old(UnrevealedTotal(grid))
      ensures UnrevealedTotal(grid) < old(UnrevealedTotal(grid))
      ensures old(flatMap) != [] && InGrid(old(grid), old(flatMap)[draw])
      ensures firstTime && flatMap == old(flatMap[..draw] + flatMap[draw + 1..]) && bombs == BombCells(grid)
      ensures var moved := Relocated(old(grid), (x, y), old(flatMap)[draw]);
              Expands(moved, grid) && ClosedOver(moved, grid) && WithinFlood(moved, grid, x, y)
    {
      ghost var hidden := UnrevealedTotal(grid);
      RelocateBomb(x, y, draw);
      GetAllBombs();
      assert unrevealedCellsCount == old(unrevealedCellsCount) && UnrevealedTotal(grid) == hidden;
      isBomb := OpenCell(x, y);
    }

    /** The part of `Reveal` past its guards for every other covered cell: on the first reveal the
        bomb cache is filled, then the cell is opened. */
    method RevealCovered(x: int, y: int, passive: bool) returns (isBomb: bool)
      requires Valid() && Opens(x, y, passive) && !Relocates(x, y, passive)
      modifies this`grid, this`flatMap, this`bombs, this`firstTime, this`unrevealedCellsCount
      decreases UnrevealedTotal(grid), 1, 1
      ensures Valid()
      ensures isBomb == old(Hits(x, y, passive))
      ensures grid[x][y].revealed
      ensures unrevealedCellsCount - old(unrevealedCellsCount) == UnrevealedTotal(grid) - old(UnrevealedTotal(grid))
      ensures UnrevealedTotal(grid) < old(UnrevealedTotal(grid))
      ensures isBomb ==> grid == Put(old(grid), (x, y), old(grid)[x][y].(revealed := true))
      ensures Expands(old(grid), grid) && ClosedOver(old(grid), grid) && WithinFlood(old(grid), grid, x, y)
      ensures flatMap == old(flatMap) && firstTime == old(firstTime) && bombs == BombCells(grid)
      ensures old(firstTime) || old(bombs == BombCells(grid)) ==> bombs == old(bombs)
    {
      var firstReveal := !firstTime;
      if firstReveal {
        GetAllBombs();
      }
      isBomb := OpenCell(x, y);
    }

    /** Opens the hidden cell (x, y): marks it revealed and counts it off; a bomb ends there, any
        other cell gets its neighbour count and, when that is 0, the flood fill runs from it. */
    method OpenCell(x: int, y: int) returns (isBomb: bool)
      requires Valid() && Covered(x, y) && bombs == BombCells(grid)
      modifies this`grid, this`flatMap, this`bombs, this`firstTime, this`unrevealedCellsCount
      decreases UnrevealedTotal(grid), 1, 0
      ensures Valid() && bombs == old(bombs) && bombs == BombCells(grid)
      ensures flatMap == old(flatMap) && firstTime == old(firstTime)
      ensures isBomb == old(grid[x][y].hasBomb)
      ensures isBomb ==> grid == Put(old(grid), (x, y), old(grid)[x][y].(revealed := true))
      ensures Expands(old(grid), grid) && ClosedOver(old(grid), grid) && grid[x][y].revealed
      ensures WithinFlood(old(grid), grid, x, y)
      ensures unrevealedCellsCount - old(unrevealedCellsCount) == UnrevealedTotal(grid) - old(UnrevealedTotal(grid))
      ensures UnrevealedTotal(grid) < old(UnrevealedTotal(grid))
    {
      ghost var g := grid;
      var count;
      isBomb, count := MarkRevealed(x, y);
      if isBomb {
        assert Uncovered(g, x, y) == g[x][y].(revealed := true);
        ExpandsRefl(grid);
        UncoverThenExpand(g, grid, x, y);
        UncoverThenFlood(g, grid, x, y);
        return;
      }
      if count == 0 {
        NeighborhoodKept(g, grid, x, y);
        Expand(x, y);
      } else {
        ExpandsRefl(grid);
      }
      UncoverThenExpand(g, grid, x, y);
      UncoverThenFlood(g, grid, x, y);
    }

    /** The first part of opening (x, y): the cell is marked revealed and counted off and, unless it
        holds a bomb, given the number of bombs the neighbour scan finds. */
    method MarkRevealed(x: int, y: int) returns (isBomb: bool, count: nat)
      requires Valid() && Covered(x, y) && bombs == BombCells(grid)
      modifies this`grid, this`unrevealedCellsCount
      ensures Valid() && bombs == BombCells(grid)
      ensures isBomb == old(grid[x][y].hasBomb)
      ensures !isBomb ==> count == Neighborhood(old(grid), x, y)
      ensures grid == Put(old(grid), (x, y), Uncovered(old(grid), x, y))
      ensures Expands(old(grid), grid)
      ensures unrevealedCellsCount == old(unrevealedCellsCount) - 1
      ensures UnrevealedTotal(grid) == old(UnrevealedTotal(grid)) - 1
    {
      ghost var g: Grid := grid;
      grid := Put(grid, (x, y), grid[x][y].(revealed := true));
      unrevealedCellsCount := unrevealedCellsCount - 1;
      if grid[x][y].hasBomb {
        assert g[x][y].(revealed := true) == Uncovered(g, x, y);
        UncoverKeeps(size, g, bombsCount, flatMap, bombs, firstTime, x, y);
        return true, 0;
      }
      ghost var mid := grid;
      count := CountNeighborBombs(x, y);
      NeighborhoodOfLayout(g, mid, x, y);
      PutTwice(g, (x, y), g[x][y].(revealed := true), Uncovered(g, x, y));
      grid := Put(grid, (x, y), grid[x][y].(neighborBombsCount := count));
      UncoverKeeps(size, g, bombsCount, flatMap, bombs, firstTime, x, y);
      return false, count;
    }

    /** The first bomb click: the clicked cell loses its bomb, the search of the pool for it finds
        nothing (a bomb cell is never in the pool), and the bomb goes to the drawn pool entry. */
    method RelocateBomb(x: int, y: int, draw: nat)
      requires Valid() && !firstTime && 0 <= x < size && 0 <= y < size && grid[x][y].hasBomb
      requires flatMap != [] ==> draw < |flatMap|
      modifies this`grid, this`flatMap, this`firstTime
      ensures old(flatMap) != [] && draw < |old(flatMap)| && InGrid(old(grid), old(flatMap)[draw])
      ensures firstTime && flatMap == old(flatMap[..draw] + flatMap[draw + 1..])
      ensures grid == Relocated(old(grid), (x, y), old(flatMap)[draw])
      ensures WellFormed(size, grid, bombsCount, flatMap, BombCells(grid), true)
      ensures UnrevealedTotal(grid) == old(UnrevealedTotal(grid))
    {
      ghost var n, g, count, pool, cache := size, grid, bombsCount, flatMap, bombs;
      PoolOnFirstBomb(n, g, count, pool, cache, x, y);
      firstTime := true;
      grid := Put(grid, (x, y), grid[x][y].(hasBomb := false));
      EjectFromPool(x, y);
      assert flatMap == pool;
      var _ := AssignRandomBomb(draw);
      assert n == size && count == bombsCount;
      RelocationOutcome(size, g, bombsCount, pool, cache, x, y, draw, grid, flatMap);
    }

    /** The flood fill: a passive reveal of every cell of the clamped window around (x, y). */
    method Expand(x: int, y: int)
      requires Valid() && 0 <= x < size && 0 <= y < size
      requires bombs == BombCells(grid) && !grid[x][y].hasBomb && Neighborhood(grid, x, y) == 0
      modifies this`grid, this`flatMap, this`bombs, this`firstTime, this`unrevealedCellsCount
      decreases UnrevealedTotal(grid), 3, 0
      ensures Valid() && bombs == old(bombs) && bombs == BombCells(grid)
      ensures flatMap == old(flatMap) && firstTime == old(firstTime)
      ensures Expands(old(grid), grid) && ClosedOver(old(grid), grid) && NeighborsRevealed(grid, x, y)
      ensures SpreadFrom(old(grid), grid, x, y)
      ensures unrevealedCellsCount - old(unrevealedCellsCount) == UnrevealedTotal(grid) - old(UnrevealedTotal(grid))
      ensures UnrevealedTotal(grid) <= old(UnrevealedTotal(grid))
    {
      ghost var g0 := grid;
      ghost var j0, j1 := SafeIndex(y - 1), SafeIndex(y + 1);
      var i0, i1 := SafeIndex(x - 1), SafeIndex(x + 1);
      var i := i0;
      while i <= i1
        invariant i0 <= i <= i1 + 1
        invariant Valid() && bombs == old(bombs) && bombs == BombCells(grid)
        invariant flatMap == old(flatMap) && firstTime == old(firstTime)
        invariant Expands(g0, grid) && ClosedOver(g0, grid) && SpreadFrom(g0, grid, x, y)
        invariant unrevealedCellsCount - old(unrevealedCellsCount) == UnrevealedTotal(grid) - UnrevealedTotal(g0)
        invariant UnrevealedTotal(grid) <= UnrevealedTotal(g0)
        invariant RevealedBlock(grid, i0, i - 1, j0, j1)
      {
        ghost var before := grid;
        NeighborhoodKept(g0, before, x, y);
        ExpandRow(x, y, i);
        RowStep(g0, before, grid, x, y, i0, i, j0, j1);
        i := i + 1;
      }
      BlockNeighbors(grid, x, y, i0, i1, j0, j1);
    }

    /** One row of the flood fill's window: the passive reveal of (i, j) for every column j of the
        clamped window around (x, y). */
    method ExpandRow(x: int, y: int, i: int)
      requires Valid() && bombs == BombCells(grid)
      requires 0 <= x < size && 0 <= y < size && Neighborhood(grid, x, y) == 0
      requires 0 <= i < size && x - 1 <= i <= x + 1
      modifies this`grid, this`flatMap, this`bombs, this`firstTime, this`unrevealedCellsCount
      decreases UnrevealedTotal(grid), 2, 1
      ensures Valid() && bombs == old(bombs) && bombs == BombCells(grid)
      ensures flatMap == old(flatMap) && firstTime == old(firstTime)
      ensures Expands(old(grid), grid) && ClosedOver(old(grid), grid) && SpreadFrom(old(grid), grid, x, y)
      ensures RevealedBlock(grid, i, i, SafeIndex(y - 1), SafeIndex(y + 1))
      ensures unrevealedCellsCount - old(unrevealedCellsCount) == UnrevealedTotal(grid) - old(UnrevealedTotal(grid))
      ensures UnrevealedTotal(grid) <= old(UnrevealedTotal(grid))
    {
      ghost var start := grid;
      var j0, j1 := SafeIndex(y - 1), SafeIndex(y + 1);
      var j := j0;
      while j <= j1
        invariant j0 <= j <= j1 + 1
        invariant Valid() && bombs == old(bombs) && bombs == BombCells(grid)
        invariant flatMap == old(flatMap) && firstTime == old(firstTime)
        invariant Expands(start, grid) && ClosedOver(start, grid) && SpreadFrom(start, grid, x, y)
        invariant unrevealedCellsCount - old(unrevealedCellsCount) == UnrevealedTotal(grid) - UnrevealedTotal(start)
        invariant UnrevealedTotal(grid) <= UnrevealedTotal(start)
        invariant RevealedBlock(grid, i, i, j0, j - 1)
      {
        ghost var before := grid;
        QuietNeighbor(start, before, x, y, i, j);
        var _ := Reveal(i, j, true, 0);
        assert grid[i][j].revealed by {
          if before[i][j].revealed {
            assert grid == before;
          }
        }
        CellStep(start, before, grid, x, y, i, j0, j);
        j := j + 1;
      }
    }

    /** The neighbour scan: the bombs in the clamped window around (x, y), the cell itself included. */
    method CountNeighborBombs(x: int, y: int) returns (count: nat)
      requires IsGrid(grid) && |grid| == size && 0 <= x < size && 0 <= y < size
      ensures count == Neighborhood(grid, x, y)
    {
      var i0, i1 := SafeIndex(x - 1), SafeIndex(x + 1);
      var j0, j1 := SafeIndex(y - 1), SafeIndex(y + 1);
      count := 0;
      var i := i0;
      while i <= i1
        invariant i0 <= i <= i1 + 1
        invariant count == Window(grid, i0, i - 1, j0, j1)
      {
        var j := j0;
        while j <= j1
          invariant j0 <= j <= j1 + 1
          invariant count == Window(grid, i0, i - 1, j0, j1) + RowWindow(grid, i, j0, j - 1)
        {
          if grid[i][j].hasBomb {
            count := count + 1;
          }
          j := j + 1;
        }
        i := i + 1;
      }
      WindowIsNeighborhood(grid, x, y, i0, i1, j0, j1);
    }

    /** A blank mapSize × mapSize grid: every cell bomb-free, hidden and at its own position. */
    method CreateEmptyMap(mapSize: int)
      modifies this`grid
      ensures IsGrid(grid) && |grid| == NonNeg(mapSize)
      ensures forall i, j | 0 <= i < |grid| && 0 <= j < |grid| :: grid[i][j] == NewMineCell(i, j, false)
    {
      grid := [];
      var i := 0;
      while i < mapSize
        invariant 0 <= i <= NonNeg(mapSize) && |grid| == i
        invariant forall a | 0 <= a < i :: |grid[a]| == mapSize
        invariant forall a, b | 0 <= a < i && 0 <= b < mapSize :: grid[a][b] == NewMineCell(a, b, false)
      {
        var row: seq<MineCell> := [];
        var j := 0;
        while j < mapSize
          invariant 0 <= j <= mapSize && |row| == j
          invariant forall b | 0 <= b < j :: row[b] == NewMineCell(i, b, false)
        {
          row := row + [NewMineCell(i, j, false)];
          j := j + 1;
        }
        grid := grid + [row];
        i := i + 1;
      }
    }

    /** Lists every cell of the grid, row by row, as the pool. */
    method FlattenMap()
      requires IsGrid(grid)
      modifies this`flatMap
      ensures flatMap == AllCells(grid)
    {
      flatMap := [];
      var i := 0;
      while i < |grid|
        invariant 0 <= i <= |grid|
        invariant flatMap == Select(grid, AnyCell, i)
      {
        var row := grid[i];
        var j := 0;
        while j < |row|
          invariant 0 <= j <= |row|
          invariant flatMap == Select(grid, AnyCell, i) + RowSelect(row, AnyCell, i, j)
        {
          flatMap := flatMap + [(i, j)];
          j := j + 1;
        }
        i := i + 1;
      }
    }

    /** Takes the pool entry at `index` out of the pool and puts a bomb on it; fails on an empty pool. */
    method AssignRandomBomb(index: nat) returns (placed: bool)
      requires IsGrid(grid) && OnField(flatMap, |grid|)
      requires flatMap != [] ==> index < |flatMap|
      modifies this`flatMap, this`grid
      ensures placed == (old(flatMap) != [])
      ensures !placed ==> flatMap == old(flatMap) && grid == old(grid)
      ensures placed ==> index < |old(flatMap)| && InGrid(old(grid), old(flatMap)[index])
      ensures placed ==>
                var c := old(flatMap)[index];
                flatMap == old(flatMap[..index] + flatMap[index + 1..]) &&
                grid == Put(old(grid), c, old(grid)[c.0][c.1].(hasBomb := true))
    {
      if |flatMap| == 0 {
        return false;
      }
      var c := flatMap[index];
      flatMap := flatMap[..index] + flatMap[index + 1..];
      grid := Put(grid, c, grid[c.0][c.1].(hasBomb := true));
      return true;
    }

    /** Erases the first pool entry at (x, y), if there is one. */
    method EjectFromPool(x: int, y: int)
      modifies this`flatMap
      ensures flatMap == EraseFirst(old(flatMap), (x, y))
    {
      var i := 0;
      while i < |flatMap|
        invariant 0 <= i <= |flatMap|
        invariant flatMap == old(flatMap)
        invariant (x, y) !in flatMap[..i]
      {
        if flatMap[i] == (x, y) {
          EraseFirstAt(flatMap, i, (x, y));
          flatMap := flatMap[..i] + flatMap[i + 1..];
          return;
        }
        assert flatMap[..i + 1] == flatMap[..i] + [flatMap[i]];
        i := i + 1;
      }
      assert flatMap[..i] == flatMap;
    }

    /** Refreshes the bomb cache: the positions holding a bomb, row by row. */
    method GetAllBombs()
      requires IsGrid(grid)
      modifies this`bombs
      ensures bombs == BombCells(grid)
    {
      bombs := [];
      var i := 0;
      while i < |grid|
        invariant 0 <= i <= |grid|
        invariant bombs == Select(grid, Bomb, i)
      {
        var row := grid[i];
        var j := 0;
        while j < |row|
          invariant 0 <= j <= |row|
          invariant bombs == Select(grid, Bomb, i) + RowSelect(row, Bomb, i, j)
        {
          if row[j].hasBomb {
            bombs := bombs + [(i, j)];
          }
          j := j + 1;
        }
        i := i + 1;
      }
    }

    /** Reveals every cell in the bomb cache. The counter is left alone, so `Consistent` may break. */
    method RevealAllBombs()
      requires Valid()
      modifies this`grid
      ensures Valid()
      ensures forall i, j | 0 <= i < size && 0 <= j < size ::
                grid[i][j] == if (i, j) in bombs then old(grid[i][j]).(revealed := true) else old(grid[i][j])
    {
      RevealBombsKeeps(size, grid, bombsCount, flatMap, bombs, firstTime);
      ghost var g := grid;
      var k := 0;
      while k < |bombs|
        invariant 0 <= k <= |bombs| && grid == RevealCells(g, bombs[..k])
      {
        var c := bombs[k];
        RevealCellsNext(g, bombs, k);
        grid := Put(grid, c, grid[c.0][c.1].(revealed := true));
        k := k + 1;
      }
      assert bombs[..k] == bombs;
    }

    /** The border line drawn between rows: `start`, one dash per character of a rendered row's
        interior (2·size - 1 of them), `end`, a newline. */
    method CreateHBorder(start: string, end: string) returns (r: string)
      ensures |r| == |start| + NonNeg(2 * size - 1) + |end| + 1
      ensures r[..|start|] == start
      ensures forall k | |start| <= k < |start| + NonNeg(2 * size - 1) :: r[k] == '-'
      ensures r[|start| + NonNeg(2 * size - 1)..] == end + "\n"
    {
      var hBorder := "";
      var i := 0;
      while i <= (size - 1) * 2
        invariant 0 <= i <= NonNeg(2 * size - 1) && |hBorder| == i
        invariant forall k | 0 <= k < i :: hBorder[k] == '-'
      {
        hBorder := hBorder + "-";
        i := i + 1;
      }
      r := start + hBorder + end + "\n";
      assert r[|start|..|start| + i] == hBorder;
    }
  }
}
