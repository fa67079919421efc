/** Square grids of cells, the coordinate lists the field engine keeps, and the counts it relies on. */
module Grids {
  import opened MineCells

  /** A (row, column) position. */
  type Coord = (int, int)

  /** The field's `map`: a vector of rows of cells. */
  type Grid = seq<seq<MineCell>>

  /** The grid is square: as many cells in every row as there are rows. */
  predicate IsGrid(g: Grid) {
    forall i | 0 <= i < |g| :: |g[i]| == |g|
  }

  predicate InGrid(g: Grid, c: Coord) {
    0 <= c.0 < |g| && 0 <= c.1 < |g|
  }

  /** Every cell still carries the position it sits at. */
  ghost predicate Positioned(g: Grid)
    requires IsGrid(g)
  {
    forall i, j | 0 <= i < |g| && 0 <= j < |g| :: g[i][j].x == i && g[i][j].y == j
  }

  /** No cell is flagged (nothing in the engine ever sets the flag). */
  ghost predicate Unflagged(g: Grid)
    requires IsGrid(g)
  {
    forall i, j | 0 <= i < |g| && 0 <= j < |g| :: !g[i][j].flagged
  }

  /** The grid with the cell at `c` replaced. */
  function Put(g: Grid, c: Coord, cell: MineCell): (h: Grid)
    requires IsGrid(g) && InGrid(g, c)
    ensures IsGrid(h) && |h| == |g|
  {
    g[c.0 := g[c.0][c.1 := cell]]
  }

  /** Writing the same cell twice keeps only the second write. */
  lemma {:induction false} PutTwice(g: Grid, c: Coord, first: MineCell, second: MineCell)
    requires IsGrid(g) && InGrid(g, c)
    ensures Put(Put(g, c, first), c, second) == Put(g, c, second)
  {
    assert g[c.0][c.1 := first][c.1 := second] == g[c.0][c.1 := second];
  }

  /** Both grids have the same shape and a bomb in the same places. */
  ghost predicate SameLayout(g: Grid, h: Grid) {
    IsGrid(g) && IsGrid(h) && |g| == |h| &&
    forall i, j | 0 <= i < |g| && 0 <= j < |g| :: h[i][j].hasBomb == g[i][j].hasBomb
  }

  // ---------------------------------------------------------------------------
  // Cell properties the engine selects on

  /** Which cells a selection keeps. */
  datatype Pick = AnyCell | Bomb | Free | Hidden | HiddenBomb | HiddenFree | RevealedBomb

  predicate Holds(p: Pick, c: MineCell) {
    match p
    case AnyCell => true
    case Bomb => c.hasBomb
    case Free => !c.hasBomb
    case Hidden => !c.revealed
    case HiddenBomb => !c.revealed && c.hasBomb
    case HiddenFree => !c.revealed && !c.hasBomb
    case RevealedBomb => c.revealed && c.hasBomb
  }

  // ---------------------------------------------------------------------------
  // Row-major selections: what the engine's nested `for (row : map) for (cell : row)` loops build

  /** Positions (i, j), j < m, of the cells of `row` (row number i) satisfying `p`, left to right. */
  function RowSelect(row: seq<MineCell>, p: Pick, i: int, m: nat): seq<Coord>
    requires m <= |row|
  {
    if m == 0 then []
    else RowSelect(row, p, i, m - 1) + (if Holds(p, row[m - 1]) then [(i, m - 1)] else [])
  }

  /** Positions of the cells in the first k rows satisfying `p`, in row-major order. */
  function Select(g: Grid, p: Pick, k: nat): seq<Coord>
    requires IsGrid(g) && k <= |g|
  {
    if k == 0 then [] else Select(g, p, k - 1) + RowSelect(g[k - 1], p, k - 1, |g|)
  }

  function Cells(g: Grid, p: Pick): seq<Coord>
    requires IsGrid(g)
  {
    Select(g, p, |g|)
  }

  /** What `flattenMap` lists: every position. */
  function AllCells(g: Grid): seq<Coord> requires IsGrid(g) { Cells(g, AnyCell) }

  /** What `getAllBombs` lists: the positions holding a bomb. */
  function BombCells(g: Grid): seq<Coord> requires IsGrid(g) { Cells(g, Bomb) }

  /** The positions without a bomb. */
  function FreeCells(g: Grid): seq<Coord> requires IsGrid(g) { Cells(g, Free) }

  function BombTotal(g: Grid): nat requires IsGrid(g) { |BombCells(g)| }

  function UnrevealedTotal(g: Grid): nat requires IsGrid(g) { |Cells(g, Hidden)| }

  ghost predicate NoDuplicates(s: seq<Coord>) {
    forall a, b | 0 <= a < b < |s| :: s[a] != s[b]
  }

  /** `s` with every occurrence of `c` taken out. */
  function Without(s: seq<Coord>, c: Coord): seq<Coord> {
    if s == [] then []
    else Without(s[..|s| - 1], c) + (if s[|s| - 1] == c then [] else [s[|s| - 1]])
  }

  function Ind(b: bool): int { if b then 1 else 0 }

  // ---------------------------------------------------------------------------
  // Membership and distinctness

  lemma {:induction false} RowSelectMembers(row: seq<MineCell>, p: Pick, i: int, m: nat, c: Coord)
    requires m <= |row|
    ensures c in RowSelect(row, p, i, m) <==> c.0 == i && 0 <= c.1 < m && Holds(p, row[c.1])
  {
    if m > 0 {
      RowSelectMembers(row, p, i, m - 1, c);
    }
  }

  lemma {:induction false} SelectMembers(g: Grid, p: Pick, k: nat, c: Coord)
    requires IsGrid(g) && k <= |g|
    ensures c in Select(g, p, k) <==> 0 <= c.0 < k && 0 <= c.1 < |g| && Holds(p, g[c.0][c.1])
  {
    if k > 0 {
      var front, last := Select(g, p, k - 1), RowSelect(g[k - 1], p, k - 1, |g|);
      assert Select(g, p, k) == front + last;
      assert c in Select(g, p, k) <==> c in front || c in last;
      assert c in front <==> 0 <= c.0 < k - 1 && 0 <= c.1 < |g| && Holds(p, g[c.0][c.1]) by {
        SelectMembers(g, p, k - 1, c);
      }
      assert c in last <==> c.0 == k - 1 && 0 <= c.1 < |g| && Holds(p, g[k - 1][c.1]) by {
        assert |g[k - 1]| == |g|;
        RowSelectMembers(g[k - 1], p, k - 1, |g|, c);
      }
    }
  }

  /** A position is listed exactly when it is in the grid and its cell satisfies `p`. */
  lemma {:induction false} CellsMembers(g: Grid, p: Pick)
    requires IsGrid(g)
    ensures forall c :: c in Cells(g, p) <==> InGrid(g, c) && Holds(p, g[c.0][c.1])
  {
    forall c ensures c in Cells(g, p) <==> InGrid(g, c) && Holds(p, g[c.0][c.1]) {
      SelectMembers(g, p, |g|, c);
    }
  }

  lemma {:induction false} ConcatNoDuplicates(s: seq<Coord>, t: seq<Coord>)
    requires NoDuplicates(s) && NoDuplicates(t)
    requires forall c | c in s :: c !in t
    ensures NoDuplicates(s + t)
  {
    forall a, b | 0 <= a < b < |s + t| ensures (s + t)[a] != (s + t)[b] {
      if b >= |s| && a < |s| {
        assert (s + t)[a] in s && (s + t)[b] == t[b - |s|];
      }
    }
  }

  lemma {:induction false} RowSelectNoDuplicates(row: seq<MineCell>, p: Pick, i: int, m: nat)
    requires m <= |row|
    ensures NoDuplicates(RowSelect(row, p, i, m))
  {
    if m > 0 {
      RowSelectNoDuplicates(row, p, i, m - 1);
      var front := RowSelect(row, p, i, m - 1);
      forall c | c in front ensures c != (i, m - 1) {
        RowSelectMembers(row, p, i, m - 1, c);
      }
      var last := if Holds(p, row[m - 1]) then [(i, m - 1)] else [];
      ConcatNoDuplicates(front, last);
      assert RowSelect(row, p, i, m) == front + last;
    }
  }

  lemma {:induction false} SelectNoDuplicates(g: Grid, p: Pick, k: nat)
    requires IsGrid(g) && k <= |g|
    ensures NoDuplicates(Select(g, p, k))
  {
    if k > 0 {
      var front, last := Select(g, p, k - 1), RowSelect(g[k - 1], p, k - 1, |g|);
      assert NoDuplicates(front) by {
        SelectNoDuplicates(g, p, k - 1);
      }
      assert NoDuplicates(last) by {
        assert |g[k - 1]| == |g|;
        RowSelectNoDuplicates(g[k - 1], p, k - 1, |g|);
      }
      forall c | c in front ensures c !in last {
        assert c.0 < k - 1 by {
          SelectMembers(g, p, k - 1, c);
        }
        RowSelectMembers(g[k - 1], p, k - 1, |g|, c);
      }
      ConcatNoDuplicates(front, last);
      assert Select(g, p, k) == front + last;
    }
  }

  // ---------------------------------------------------------------------------
  // Selections only look at what `p` says of each cell

  lemma {:induction false} RowSelectAgree(row: seq<MineCell>, row': seq<MineCell>, p: Pick,
                                          q: Pick, i: int, m: nat)
    requires m <= |row| && m <= |row'|
    requires forall j | 0 <= j < m :: Holds(p, row[j]) == Holds(q, row'[j])
    ensures RowSelect(row, p, i, m) == RowSelect(row', q, i, m)
  {
    if m > 0 {
      RowSelectAgree(row, row', p, q, i, m - 1);
    }
  }

  lemma {:induction false} SelectAgree(g: Grid, h: Grid, p: Pick, q: Pick, k: nat)
    requires IsGrid(g) && IsGrid(h) && |g| == |h| && k <= |g|
    requires forall i, j | 0 <= i < |g| && 0 <= j < |g| :: Holds(p, g[i][j]) == Holds(q, h[i][j])
    ensures Select(g, p, k) == Select(h, q, k)
  {
    if k > 0 {
      SelectAgree(g, h, p, q, k - 1);
      RowSelectAgree(g[k - 1], h[k - 1], p, q, k - 1, |g|);
    }
  }

  /** Grids with the same layout have the same bomb list and the same free list. */
  lemma {:induction false} SameLayoutCells(g: Grid, h: Grid)
    requires SameLayout(g, h)
    ensures BombCells(h) == BombCells(g) && FreeCells(h) == FreeCells(g)
  {
    SelectAgree(g, h, Bomb, Bomb, |g|);
    SelectAgree(g, h, Free, Free, |g|);
  }

  // ---------------------------------------------------------------------------
  // Counting

  lemma {:induction false} RowSelectPartition(row: seq<MineCell>, p: Pick, q: Pick,
                                              r: Pick, i: int, m: nat)
    requires m <= |row|
    requires forall j | 0 <= j < m :: Holds(p, row[j]) == (Holds(q, row[j]) || Holds(r, row[j])) && !(Holds(q, row[j]) && Holds(r, row[j]))
    ensures |RowSelect(row, p, i, m)| == |RowSelect(row, q, i, m)| + |RowSelect(row, r, i, m)|
  {
    if m > 0 {
      RowSelectPartition(row, p, q, r, i, m - 1);
    }
  }

  lemma {:induction false} SelectPartition(g: Grid, p: Pick, q: Pick,
                                           r: Pick, k: nat)
    requires IsGrid(g) && k <= |g|
    requires forall i, j | 0 <= i < |g| && 0 <= j < |g| ::
               Holds(p, g[i][j]) == (Holds(q, g[i][j]) || Holds(r, g[i][j])) && !(Holds(q, g[i][j]) && Holds(r, g[i][j]))
    ensures |Select(g, p, k)| == |Select(g, q, k)| + |Select(g, r, k)|
  {
    if k > 0 {
      SelectPartition(g, p, q, r, k - 1);
      RowSelectPartition(g[k - 1], p, q, r, k - 1, |g|);
    }
  }

  lemma {:induction false} AllSelectLength(g: Grid, k: nat)
    requires IsGrid(g) && k <= |g|
    ensures |Select(g, AnyCell, k)| == k * |g|
  {
    if k > 0 {
      AllSelectLength(g, k - 1);
      AllRowLength(g[k - 1], k - 1, |g|);
    }
  }

  lemma {:induction false} AllRowLength(row: seq<MineCell>, i: int, m: nat)
    requires m <= |row|
    ensures |RowSelect(row, AnyCell, i, m)| == m
  {
    if m > 0 {
      AllRowLength(row, i, m - 1);
    }
  }

  /** `flattenMap` lists every position of the grid once, in row-major order. */
  lemma {:induction false} AllCellsComplete(g: Grid)
    requires IsGrid(g)
    ensures |AllCells(g)| == |g| * |g|
    ensures NoDuplicates(AllCells(g))
    ensures forall c :: c in AllCells(g) <==> InGrid(g, c)
  {
    AllSelectLength(g, |g|);
    SelectNoDuplicates(g, AnyCell, |g|);
    CellsMembers(g, AnyCell);
  }

  /** Bomb cells and bomb-free cells together make up the whole grid. */
  lemma {:induction false} BombsAndFreeCells(g: Grid)
    requires IsGrid(g)
    ensures BombTotal(g) + |FreeCells(g)| == |g| * |g|
  {
    SelectPartition(g, AnyCell, Bomb, Free, |g|);
    AllSelectLength(g, |g|);
  }

  /** Replacing one cell changes a count by what `p` says of the old and the new cell. */
  lemma {:induction false} RowPutLength(row: seq<MineCell>, p: Pick, i: int, j: nat,
                                        cell: MineCell, m: nat)
    requires j < |row| && m <= |row|
    ensures |RowSelect(row[j := cell], p, i, m)|
            == |RowSelect(row, p, i, m)| + (if j < m then Ind(Holds(p, cell)) - Ind(Holds(p, row[j])) else 0)
  {
    if m > 0 {
      RowPutLength(row, p, i, j, cell, m - 1);
    }
  }

  lemma {:induction false} SelectPutLength(g: Grid, p: Pick, c: Coord, cell: MineCell, k: nat)
    requires IsGrid(g) && InGrid(g, c) && k <= |g|
    ensures |Select(Put(g, c, cell), p, k)|
            == |Select(g, p, k)| + (if c.0 < k then Ind(Holds(p, cell)) - Ind(Holds(p, g[c.0][c.1])) else 0)
  {
    if k > 0 {
      var h := Put(g, c, cell);
      SelectPutLength(g, p, c, cell, k - 1);
      if k - 1 == c.0 {
        assert h[k - 1] == g[k - 1][c.1 := cell];
        RowPutLength(g[k - 1], p, k - 1, c.1, cell, |g|);
      } else {
        assert h[k - 1] == g[k - 1];
      }
    }
  }

  lemma {:induction false} PutCount(g: Grid, p: Pick, c: Coord, cell: MineCell)
    requires IsGrid(g) && InGrid(g, c)
    ensures |Cells(Put(g, c, cell), p)| == |Cells(g, p)| + Ind(Holds(p, cell)) - Ind(Holds(p, g[c.0][c.1]))
  {
    SelectPutLength(g, p, c, cell, |g|);
  }

  // ---------------------------------------------------------------------------
  // Taking one position out of a list

  lemma {:induction false} WithoutConcat(s: seq<Coord>, t: seq<Coord>, c: Coord)
    ensures Without(s + t, c) == Without(s, c) + Without(t, c)
  {
    if t != [] {
      var t' := t[..|t| - 1];
      assert (s + t)[..|s + t| - 1] == s + t';
      WithoutConcat(s, t', c);
    } else {
      assert s + t == s;
    }
  }

  lemma {:induction false} WithoutAbsent(s: seq<Coord>, c: Coord)
    requires c !in s
    ensures Without(s, c) == s
  {
    if s != [] {
      WithoutAbsent(s[..|s| - 1], c);
    }
  }

  lemma {:induction false} WithoutAt(s: seq<Coord>, k: nat)
    requires NoDuplicates(s) && k < |s|
    ensures Without(s, s[k]) == s[..k] + s[k + 1..]
  {
    var n := |s|;
    var init := s[..n - 1];
    if k == n - 1 {
      assert s[k] !in init;
      WithoutAbsent(init, s[k]);
    } else {
      WithoutAt(init, k);
      assert init[..k] == s[..k];
      assert init[k + 1..] + [s[n - 1]] == s[k + 1..];
    }
  }

  lemma {:induction false} RowPutWithout(row: seq<MineCell>, p: Pick, i: int, j: nat,
                                         cell: MineCell, m: nat)
    requires j < |row| && m <= |row| && !Holds(p, cell)
    ensures RowSelect(row[j := cell], p, i, m) == Without(RowSelect(row, p, i, m), (i, j))
  {
    if m > 0 {
      RowPutWithout(row, p, i, j, cell, m - 1);
      var s := RowSelect(row, p, i, m - 1);
      var t := if Holds(p, row[m - 1]) then [(i, m - 1)] else [];
      var t' := if Holds(p, row[j := cell][m - 1]) then [(i, m - 1)] else [];
      WithoutConcat(s, t, (i, j));
      assert t' == Without(t, (i, j));
    }
  }

  /** Row r of the grid with the cell at `c` replaced by one `p` rejects: row r's selection minus `c`. */
  lemma {:induction false} PutRowWithout(g: Grid, p: Pick, c: Coord, cell: MineCell, r: nat)
    requires IsGrid(g) && InGrid(g, c) && r < |g| && !Holds(p, cell)
    ensures RowSelect(Put(g, c, cell)[r], p, r, |g|) == Without(RowSelect(g[r], p, r, |g|), c)
  {
    var h := Put(g, c, cell);
    var row := RowSelect(g[r], p, r, |g|);
    if r == c.0 {
      assert h[r] == g[r][c.1 := cell];
      RowPutWithout(g[r], p, r, c.1, cell, |g|);
    } else {
      assert h[r] == g[r];
      forall d | d in row ensures d != c {
        RowSelectMembers(g[r], p, r, |g|, d);
      }
      WithoutAbsent(row, c);
    }
  }

  lemma {:induction false} SelectPutWithout(g: Grid, p: Pick, c: Coord, cell: MineCell, k: nat)
    requires IsGrid(g) && InGrid(g, c) && k <= |g| && !Holds(p, cell)
    ensures Select(Put(g, c, cell), p, k) == Without(Select(g, p, k), c)
  {
    if k > 0 {
      SelectPutWithout(g, p, c, cell, k - 1);
      PutRowWithout(g, p, c, cell, k - 1);
      WithoutConcat(Select(g, p, k - 1), RowSelect(g[k - 1], p, k - 1, |g|), c);
    }
  }

  /** Planting a bomb on the free cell listed at `index` takes exactly that entry out of the free list. */
  lemma {:induction false} FreeCellsAfterBomb(g: Grid, index: nat)
    requires IsGrid(g) && index < |FreeCells(g)|
    ensures var c := FreeCells(g)[index];
            InGrid(g, c) && !g[c.0][c.1].hasBomb &&
            FreeCells(Put(g, c, g[c.0][c.1].(hasBomb := true)))
              == FreeCells(g)[..index] + FreeCells(g)[index + 1..]
  {
    var free := FreeCells(g);
    var c := free[index];
    SelectMembers(g, Free, |g|, c);
    SelectPutWithout(g, Free, c, g[c.0][c.1].(hasBomb := true), |g|);
    SelectNoDuplicates(g, Free, |g|);
    WithoutAt(free, index);
  }

  // ---------------------------------------------------------------------------
  // Neighbour counts

  /** 1 when (i, j) is a position of the grid holding a bomb, 0 otherwise (also off the grid). */
  function BombAt(g: Grid, i: int, j: int): nat
    requires IsGrid(g)
  {
    if 0 <= i < |g| && 0 <= j < |g| && g[i][j].hasBomb then 1 else 0
  }

  /** The number of bombs among the in-grid cells at row and column distance at most 1 from (x, y),
      the cell itself included. */
  function Neighborhood(g: Grid, x: int, y: int): nat
    requires IsGrid(g)
  {
    Window(g, x - 1, x + 1, y - 1, y + 1)
  }

  /** Bombs in row i between columns j0 and j1, both included: one pass of the inner scan loop. */
  function RowWindow(g: Grid, i: int, j0: int, j1: int): nat
    requires IsGrid(g)
    decreases j1 - j0 + 1
  {
    if j1 < j0 then 0 else RowWindow(g, i, j0, j1 - 1) + BombAt(g, i, j1)
  }

  /** Bombs in rows i0..i1 and columns j0..j1, both ranges inclusive: the whole scan. */
  function Window(g: Grid, i0: int, i1: int, j0: int, j1: int): nat
    requires IsGrid(g)
    decreases i1 - i0 + 1
  {
    if i1 < i0 then 0 else Window(g, i0, i1 - 1, j0, j1) + RowWindow(g, i1, j0, j1)
  }

  lemma {:induction false} RowWindowAround(g: Grid, i: int, y: int, j0: int, j1: int)
    requires IsGrid(g) && 0 <= y < |g|
    requires j0 == (if y > 0 then y - 1 else 0)
    requires j1 == (if y < |g| - 1 then y + 1 else |g| - 1)
    ensures RowWindow(g, i, j0, j1) == BombAt(g, i, y - 1) + BombAt(g, i, y) + BombAt(g, i, y + 1)
  {
    assert RowWindow(g, i, j0, y - 1) == BombAt(g, i, y - 1) by {
      if j0 == y - 1 {
        assert RowWindow(g, i, j0, y - 2) == 0;
      }
    }
    assert RowWindow(g, i, j0, y) == RowWindow(g, i, j0, y - 1) + BombAt(g, i, y);
    if j1 == y + 1 {
      assert RowWindow(g, i, j0, j1) == RowWindow(g, i, j0, y) + BombAt(g, i, y + 1);
    }
  }

  function Min(a: int, b: int): int { if a < b then a else b }
  function Max(a: int, b: int): int { if a < b then b else a }

  /** The engine's scan over the clamped index range [safeIndex(x-1), safeIndex(x+1)] x
      [safeIndex(y-1), safeIndex(y+1)] counts every in-grid neighbour exactly once: clamping the range
      neither repeats an edge cell nor misses one. */
  lemma {:induction false} WindowIsNeighborhood(g: Grid, x: int, y: int, i0: int, i1: int, j0: int, j1: int)
    requires IsGrid(g) && 0 <= x < |g| && 0 <= y < |g|
    requires i0 == Min(Max(x - 1, 0), |g| - 1) && i1 == Min(Max(x + 1, 0), |g| - 1)
    requires j0 == Min(Max(y - 1, 0), |g| - 1) && j1 == Min(Max(y + 1, 0), |g| - 1)
    ensures Window(g, i0, i1, j0, j1) == Neighborhood(g, x, y)
  {
    assert i0 == (if x > 0 then x - 1 else 0) && i1 == (if x < |g| - 1 then x + 1 else |g| - 1);
    NeighborhoodSum(g, x, y);
    RowWindowAround(g, x - 1, y, j0, j1);
    RowWindowAround(g, x, y, j0, j1);
    RowWindowAround(g, x + 1, y, j0, j1);
    assert Window(g, i0, x - 1, j0, j1) == RowWindow(g, x - 1, j0, j1) by {
      if i0 == x - 1 {
        assert Window(g, i0, x - 2, j0, j1) == 0;
      } else {
        assert RowWindow(g, x - 1, j0, j1) == 0;
      }
    }
    assert Window(g, i0, x, j0, j1) == Window(g, i0, x - 1, j0, j1) + RowWindow(g, x, j0, j1);
    if i1 == x + 1 {
      assert Window(g, i0, i1, j0, j1) == Window(g, i0, x, j0, j1) + RowWindow(g, x + 1, j0, j1);
    } else {
      assert RowWindow(g, x + 1, j0, j1) == 0;
    }
  }

  /** The neighbourhood count spelled out: the nine cells of the 3 × 3 window around (x, y). */
  lemma {:induction false} NeighborhoodSum(g: Grid, x: int, y: int)
    requires IsGrid(g)
    ensures Neighborhood(g, x, y) ==
            BombAt(g, x - 1, y - 1) + BombAt(g, x - 1, y) + BombAt(g, x - 1, y + 1) +
            BombAt(g, x, y - 1) + BombAt(g, x, y) + BombAt(g, x, y + 1) +
            BombAt(g, x + 1, y - 1) + BombAt(g, x + 1, y) + BombAt(g, x + 1, y + 1)
  {
    forall i ensures RowWindow(g, i, y - 1, y + 1) == BombAt(g, i, y - 1) + BombAt(g, i, y) + BombAt(g, i, y + 1) {
      assert RowWindow(g, i, y - 1, y - 1) == BombAt(g, i, y - 1);
      assert RowWindow(g, i, y - 1, y) == BombAt(g, i, y - 1) + BombAt(g, i, y);
    }
    assert Window(g, x - 1, x - 1, y - 1, y + 1) == RowWindow(g, x - 1, y - 1, y + 1);
    assert Window(g, x - 1, x, y - 1, y + 1) == Window(g, x - 1, x - 1, y - 1, y + 1) + RowWindow(g, x, y - 1, y + 1);
  }

  /** A cell whose neighbourhood holds no bomb has no bomb next to it. */
  lemma {:induction false} NoBombNear(g: Grid, x: int, y: int, a: int, b: int)
    requires IsGrid(g) && Neighborhood(g, x, y) == 0
    requires 0 <= a < |g| && 0 <= b < |g| && x - 1 <= a <= x + 1 && y - 1 <= b <= y + 1
    ensures !g[a][b].hasBomb
  {
    NeighborhoodSum(g, x, y);
    assert BombAt(g, a, b) == 0;
  }

  /** Neighbour counts depend on the layout alone. */
  lemma {:induction false} NeighborhoodOfLayout(g: Grid, h: Grid, x: int, y: int)
    requires SameLayout(g, h)
    ensures Neighborhood(h, x, y) == Neighborhood(g, x, y)
  {
    NeighborhoodSum(g, x, y);
    NeighborhoodSum(h, x, y);
    forall a, b ensures BombAt(h, a, b) == BombAt(g, a, b) {
      if 0 <= a < |g| && 0 <= b < |g| {
        assert h[a][b].hasBomb == g[a][b].hasBomb;
      }
    }
  }

  lemma {:induction false} RowSelectNone(row: seq<MineCell>, p: Pick, i: int, m: nat)
    requires m <= |row| && forall j | 0 <= j < m :: !Holds(p, row[j])
    ensures RowSelect(row, p, i, m) == []
  {
    if m > 0 {
      RowSelectNone(row, p, i, m - 1);
    }
  }

  lemma {:induction false} SelectNone(g: Grid, p: Pick, k: nat)
    requires IsGrid(g) && k <= |g|
    requires forall i, j | 0 <= i < |g| && 0 <= j < |g| :: !Holds(p, g[i][j])
    ensures Select(g, p, k) == []
  {
    if k > 0 {
      SelectNone(g, p, k - 1);
      RowSelectNone(g[k - 1], p, k - 1, |g|);
    }
  }

  /** Nothing is selected exactly when no cell of the grid satisfies `p`. */
  lemma {:induction false} CellsEmpty(g: Grid, p: Pick)
    requires IsGrid(g)
    ensures |Cells(g, p)| == 0 <==> forall i, j | 0 <= i < |g| && 0 <= j < |g| :: !Holds(p, g[i][j])
  {
    if forall i, j | 0 <= i < |g| && 0 <= j < |g| :: !Holds(p, g[i][j]) {
      SelectNone(g, p, |g|);
    } else {
      var i, j :| 0 <= i < |g| && 0 <= j < |g| && Holds(p, g[i][j]);
      SelectMembers(g, p, |g|, (i, j));
    }
  }

  // ---------------------------------------------------------------------------
  // The win test of MinesweeperGameManager.h:131

  /** Hidden cells plus revealed bombs equal bombs plus hidden bomb-free cells. */
  lemma {:induction false} UnrevealedSplit(g: Grid)
    requires IsGrid(g)
    ensures UnrevealedTotal(g) + |Cells(g, RevealedBomb)| == BombTotal(g) + |Cells(g, HiddenFree)|
  {
    SelectPartition(g, Hidden, HiddenBomb, HiddenFree, |g|);
    SelectPartition(g, Bomb, HiddenBomb, RevealedBomb, |g|);
  }

  /** "Unrevealed cells == bombs" holds exactly when as many bomb-free cells are still hidden as there
      are revealed bombs; so when no bomb has been revealed, exactly when every bomb-free cell is. */
  lemma {:induction false} WinTest(g: Grid)
    requires IsGrid(g)
    ensures UnrevealedTotal(g) == BombTotal(g) <==> |Cells(g, HiddenFree)| == |Cells(g, RevealedBomb)|
    ensures (forall i, j | 0 <= i < |g| && 0 <= j < |g| :: !(g[i][j].revealed && g[i][j].hasBomb)) ==>
              (UnrevealedTotal(g) == BombTotal(g) <==>
               forall i, j | 0 <= i < |g| && 0 <= j < |g| && !g[i][j].hasBomb :: g[i][j].revealed)
  {
    UnrevealedSplit(g);
    CellsEmpty(g, HiddenFree);
    CellsEmpty(g, RevealedBomb);
  }

  /** The caller's test compares the counter with the size of the bomb cache. With the counter in step
      with the grid and the cache exact (as after any reveal), it holds exactly when as many bomb-free
      cells are still hidden as bombs are revealed, and, with no bomb revealed, exactly when every
      bomb-free cell is revealed. */
  lemma {:induction false} WinCheck(count: int, bombs: seq<Coord>, g: Grid)
    requires IsGrid(g) && count == UnrevealedTotal(g) && bombs == BombCells(g)
    ensures count == |bombs| <==> |Cells(g, HiddenFree)| == |Cells(g, RevealedBomb)|
    ensures (forall i, j | 0 <= i < |g| && 0 <= j < |g| :: !(g[i][j].revealed && g[i][j].hasBomb)) ==>
              (count == |bombs| <==> forall i, j | 0 <= i < |g| && 0 <= j < |g| && !g[i][j].hasBomb :: g[i][j].revealed)
  {
    WinTest(g);
  }
}
