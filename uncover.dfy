/** How one call of `MineField::reveal` may change the grid: the relation between the grid before and
    after a call, and the facts that let the recursive flood fill be composed from its nested calls. */
module Uncover {
  import opened MineCells
  import opened Grids

  /** Cell (i, j) of g once uncovered: revealed and, when it holds no bomb, given the number of bombs
      around it. A bomb cell keeps the count it had. */
  function Uncovered(g: Grid, i: int, j: int): MineCell
    requires IsGrid(g) && 0 <= i < |g| && 0 <= j < |g|
  {
    g[i][j].(revealed := true,
             neighborBombsCount := if g[i][j].hasBomb then g[i][j].neighborBombsCount else Neighborhood(g, i, j))
  }

  /** Cell (i, j) of h is cell (i, j) of g, or that cell, hidden in g, uncovered. */
  ghost predicate ExpandsAt(g: Grid, h: Grid, i: int, j: int)
    requires IsGrid(g) && IsGrid(h) && |g| == |h| && 0 <= i < |g| && 0 <= j < |g|
  {
    h[i][j] == g[i][j] || (!g[i][j].revealed && h[i][j] == Uncovered(g, i, j))
  }

  /** h comes from g by uncovering hidden cells and by nothing else. */
  ghost predicate Expands(g: Grid, h: Grid) {
    IsGrid(g) && IsGrid(h) && |g| == |h| &&
    forall i, j | 0 <= i < |g| && 0 <= j < |g| :: ExpandsAt(g, h, i, j)
  }

  /** Cell (a, b) of h is revealed. */
  ghost predicate RevealedAt(h: Grid, a: int, b: int)
    requires IsGrid(h) && 0 <= a < |h| && 0 <= b < |h|
  {
    h[a][b].revealed
  }

  /** Every in-grid cell at row and column distance at most 1 from (i, j) is revealed. */
  ghost predicate NeighborsRevealed(h: Grid, i: int, j: int)
    requires IsGrid(h)
  {
    forall a, b | 0 <= a < |h| && 0 <= b < |h| && i - 1 <= a <= i + 1 && j - 1 <= b <= j + 1 ::
      RevealedAt(h, a, b)
  }

  /** Cell (i, j) was hidden in g and is revealed in h. */
  ghost predicate NewlyRevealed(g: Grid, h: Grid, i: int, j: int)
    requires IsGrid(g) && IsGrid(h) && |g| == |h| && 0 <= i < |g| && 0 <= j < |g|
  {
    !g[i][j].revealed && h[i][j].revealed
  }

  /** Cell (i, j), if revealed between g and h without a bomb and with count 0, has all its
      neighbours revealed in h. */
  ghost predicate ClosedAt(g: Grid, h: Grid, i: int, j: int)
    requires IsGrid(g) && IsGrid(h) && |g| == |h| && 0 <= i < |g| && 0 <= j < |g|
  {
    NewlyRevealed(g, h, i, j) && !h[i][j].hasBomb && h[i][j].neighborBombsCount == 0 ==>
      NeighborsRevealed(h, i, j)
  }

  /** Flood-fill closure: every bomb-free cell revealed between g and h with count 0 has all its
      neighbours revealed in h. */
  ghost predicate ClosedOver(g: Grid, h: Grid)
    requires IsGrid(g) && IsGrid(h) && |g| == |h|
  {
    forall i, j | 0 <= i < |g| && 0 <= j < |g| :: ClosedAt(g, h, i, j)
  }

  /** Every bomb-free cell revealed between g and h shows the number of bombs around it in h. */
  ghost predicate CountsCorrect(g: Grid, h: Grid)
    requires IsGrid(g) && IsGrid(h) && |g| == |h|
  {
    forall i, j | 0 <= i < |g| && 0 <= j < |g| ::
      NewlyRevealed(g, h, i, j) && !h[i][j].hasBomb ==> h[i][j].neighborBombsCount == Neighborhood(h, i, j)
  }

  /** The grid after the first-bomb relocation: the bomb at `a` is cleared and one is planted at `c`. */
  function Relocated(g: Grid, a: Coord, c: Coord): (h: Grid)
    requires IsGrid(g) && InGrid(g, a) && InGrid(g, c)
    ensures IsGrid(h) && |h| == |g|
  {
    var cleared := Put(g, a, g[a.0][a.1].(hasBomb := false));
    Put(cleared, c, cleared[c.0][c.1].(hasBomb := true))
  }

  /** The relocation moves one bomb: the clicked cell loses it, the drawn cell gains it, and no other
      part of any cell changes. */
  lemma {:induction false} RelocatedCells(g: Grid, x: int, y: int, c: Coord)
    requires IsGrid(g) && 0 <= x < |g| && 0 <= y < |g| && g[x][y].hasBomb
    requires InGrid(g, c) && !g[c.0][c.1].hasBomb
    ensures var h := Relocated(g, (x, y), c);
            c != (x, y) && !h[x][y].hasBomb && h[c.0][c.1].hasBomb &&
            (forall i, j | 0 <= i < |g| && 0 <= j < |g| && (i, j) != (x, y) && (i, j) != c :: h[i][j] == g[i][j]) &&
            (forall i, j | 0 <= i < |g| && 0 <= j < |g| :: h[i][j] == g[i][j].(hasBomb := h[i][j].hasBomb))
  {
    var cleared: Grid := Put(g, (x, y), g[x][y].(hasBomb := false));
    var h: Grid := Put(cleared, c, cleared[c.0][c.1].(hasBomb := true));
    assert h == Relocated(g, (x, y), c);
    forall i, j | 0 <= i < |g| && 0 <= j < |g|
      ensures h[i][j] == g[i][j].(hasBomb := h[i][j].hasBomb)
      ensures (i, j) != (x, y) && (i, j) != c ==> h[i][j] == g[i][j]
    {
      assert cleared[i][j] == if (i, j) == (x, y) then g[x][y].(hasBomb := false) else g[i][j];
    }
  }

  /** Moving one bomb keeps the positions, the flags, the number of cells, of bombs and of hidden
      cells. */
  lemma {:induction false} RelocatedCounts(g: Grid, x: int, y: int, c: Coord)
    requires IsGrid(g) && 0 <= x < |g| && 0 <= y < |g| && g[x][y].hasBomb
    requires InGrid(g, c) && !g[c.0][c.1].hasBomb
    ensures var h := Relocated(g, (x, y), c);
            (Positioned(g) ==> Positioned(h)) && (Unflagged(g) ==> Unflagged(h)) &&
            AllCells(h) == AllCells(g) && BombTotal(h) == BombTotal(g) && UnrevealedTotal(h) == UnrevealedTotal(g)
  {
    RelocatedCells(g, x, y, c);
    RelocatedTotals(g, x, y, c);
  }

  /** Moving one bomb keeps the number of cells, of bombs and of hidden cells. */
  lemma {:induction false} RelocatedTotals(g: Grid, x: int, y: int, c: Coord)
    requires IsGrid(g) && 0 <= x < |g| && 0 <= y < |g| && g[x][y].hasBomb
    requires InGrid(g, c) && !g[c.0][c.1].hasBomb
    ensures var h := Relocated(g, (x, y), c);
            AllCells(h) == AllCells(g) && BombTotal(h) == BombTotal(g) && UnrevealedTotal(h) == UnrevealedTotal(g)
  {
    var cleared: Grid := Put(g, (x, y), g[x][y].(hasBomb := false));
    var h := Relocated(g, (x, y), c);
    RelocatedCells(g, x, y, c);
    PutCount(g, Bomb, (x, y), g[x][y].(hasBomb := false));
    PutCount(cleared, Bomb, c, cleared[c.0][c.1].(hasBomb := true));
    SelectAgree(g, h, Hidden, Hidden, |g|);
    SelectAgree(g, h, AnyCell, AnyCell, |g|);
  }

  // ---------------------------------------------------------------------------

  /** Uncovering keeps the layout, the positions and the flags, and never hides a revealed cell. */
  lemma {:induction false} ExpandsKeeps(g: Grid, h: Grid)
    requires Expands(g, h)
    ensures SameLayout(g, h)
    ensures forall i, j | 0 <= i < |g| && 0 <= j < |g| :: g[i][j].revealed ==> h[i][j] == g[i][j]
    ensures forall i, j | 0 <= i < |g| && 0 <= j < |g| :: h[i][j].revealed || h[i][j] == g[i][j]
    ensures Positioned(g) ==> Positioned(h)
    ensures Unflagged(g) ==> Unflagged(h)
  {
    forall i, j | 0 <= i < |g| && 0 <= j < |g|
      ensures h[i][j].hasBomb == g[i][j].hasBomb && h[i][j].flagged == g[i][j].flagged
      ensures h[i][j].x == g[i][j].x && h[i][j].y == g[i][j].y
      ensures g[i][j].revealed ==> h[i][j] == g[i][j]
      ensures h[i][j].revealed || h[i][j] == g[i][j]
    {
      assert ExpandsAt(g, h, i, j);
    }
  }

  /** Uncovering leaves g unchanged. */
  lemma {:induction false} ExpandsRefl(g: Grid)
    requires IsGrid(g)
    ensures Expands(g, g) && ClosedOver(g, g)
  {
  }

  /** Two rounds of uncovering are one round of uncovering. */
  lemma {:induction false} ExpandsTrans(g: Grid, h: Grid, k: Grid)
    requires Expands(g, h) && Expands(h, k)
    ensures Expands(g, k)
  {
    ExpandsKeeps(g, h);
    forall i, j | 0 <= i < |g| && 0 <= j < |g|
      ensures ExpandsAt(g, k, i, j)
    {
      assert ExpandsAt(g, h, i, j) && ExpandsAt(h, k, i, j);
      if h[i][j] == g[i][j] && k[i][j] != h[i][j] {
        NeighborhoodOfLayout(g, h, i, j);
      }
    }
  }

  /** Revealed cells stay revealed under uncovering, so revealed neighbours do too. */
  lemma {:induction false} NeighborsStay(h: Grid, k: Grid, i: int, j: int)
    requires Expands(h, k) && NeighborsRevealed(h, i, j)
    ensures NeighborsRevealed(k, i, j)
  {
    forall a, b | 0 <= a < |h| && 0 <= b < |h| && i - 1 <= a <= i + 1 && j - 1 <= b <= j + 1
      ensures RevealedAt(k, a, b)
    {
      assert RevealedAt(h, a, b) && ExpandsAt(h, k, a, b);
    }
  }

  /** Closure composes: cells uncovered in the first round keep their neighbours revealed. */
  lemma {:induction false} ClosedTrans(g: Grid, h: Grid, k: Grid)
    requires Expands(g, h) && Expands(h, k) && ClosedOver(g, h) && ClosedOver(h, k)
    ensures ClosedOver(g, k)
  {
    forall i, j | 0 <= i < |g| && 0 <= j < |g|
      ensures ClosedAt(g, k, i, j)
    {
      assert ExpandsAt(h, k, i, j) && ClosedAt(g, h, i, j) && ClosedAt(h, k, i, j);
      if NewlyRevealed(g, k, i, j) && h[i][j].revealed && !k[i][j].hasBomb && k[i][j].neighborBombsCount == 0 {
        NeighborsStay(h, k, i, j);
      }
    }
  }

  /** Every cell uncovered shows the right count, measured on the final grid. */
  lemma {:induction false} ExpandsCounts(g: Grid, h: Grid)
    requires Expands(g, h)
    ensures CountsCorrect(g, h)
  {
    ExpandsKeeps(g, h);
    forall i, j | 0 <= i < |g| && 0 <= j < |g| && NewlyRevealed(g, h, i, j) && !h[i][j].hasBomb
      ensures h[i][j].neighborBombsCount == Neighborhood(h, i, j)
    {
      assert ExpandsAt(g, h, i, j);
      NeighborhoodOfLayout(g, h, i, j);
    }
  }

  /** Uncovering the single cell (x, y) and then expanding from it: the cell itself is closed once
      it holds a bomb, its count is non-zero or its neighbours are revealed. */
  lemma {:induction false} UncoverThenExpand(g: Grid, g2: Grid, x: int, y: int)
    requires IsGrid(g) && 0 <= x < |g| && 0 <= y < |g| && !g[x][y].revealed
    requires var g1 := Put(g, (x, y), Uncovered(g, x, y)); Expands(g1, g2) && ClosedOver(g1, g2)
    requires g[x][y].hasBomb || Neighborhood(g, x, y) != 0 || NeighborsRevealed(g2, x, y)
    ensures Expands(g, g2) && ClosedOver(g, g2) && g2[x][y].revealed
  {
    var g1 := Put(g, (x, y), Uncovered(g, x, y));
    forall i, j | 0 <= i < |g| && 0 <= j < |g|
      ensures ExpandsAt(g, g1, i, j)
    {
    }
    ExpandsTrans(g, g1, g2);
    assert ExpandsAt(g1, g2, x, y);
    forall i, j | 0 <= i < |g| && 0 <= j < |g|
      ensures ClosedAt(g, g2, i, j)
    {
      if (i, j) != (x, y) {
        assert ClosedAt(g1, g2, i, j);
      }
    }
  }

  /** Every in-grid cell in rows a0..a1 and columns b0..b1, both ranges inclusive, is revealed. */
  ghost predicate RevealedBlock(h: Grid, a0: int, a1: int, b0: int, b1: int)
    requires IsGrid(h)
  {
    forall a, b | 0 <= a < |h| && 0 <= b < |h| && a0 <= a <= a1 && b0 <= b <= b1 :: RevealedAt(h, a, b)
  }

  /** Uncovering keeps the bombs, so the number of bombs around any cell. */
  lemma {:induction false} NeighborhoodKept(g: Grid, h: Grid, x: int, y: int)
    requires Expands(g, h)
    ensures Neighborhood(h, x, y) == Neighborhood(g, x, y)
  {
    ExpandsKeeps(g, h);
    NeighborhoodOfLayout(g, h, x, y);
  }

  /** A cell next to (x, y), where g had no bomb around, still holds no bomb after uncovering. */
  lemma {:induction false} QuietNeighbor(g: Grid, h: Grid, x: int, y: int, a: int, b: int)
    requires Expands(g, h) && Neighborhood(g, x, y) == 0
    requires 0 <= a < |g| && 0 <= b < |g| && x - 1 <= a <= x + 1 && y - 1 <= b <= y + 1
    ensures !h[a][b].hasBomb
  {
    NoBombNear(g, x, y, a, b);
    assert ExpandsAt(g, h, a, b);
  }

  /** Revealed blocks stay revealed under uncovering. */
  lemma {:induction false} BlockStays(h: Grid, k: Grid, a0: int, a1: int, b0: int, b1: int)
    requires Expands(h, k) && RevealedBlock(h, a0, a1, b0, b1)
    ensures RevealedBlock(k, a0, a1, b0, b1)
  {
    forall a, b | 0 <= a < |h| && 0 <= b < |h| && a0 <= a <= a1 && b0 <= b <= b1
      ensures RevealedAt(k, a, b)
    {
      assert RevealedAt(h, a, b) && ExpandsAt(h, k, a, b);
    }
  }

  /** One step of the flood fill's scan of row i around the quiet cell (x, y): after the passive
      reveal of its bomb-free neighbour (i, j), a closed round that reveals (i, j) and stays within
      the flood bound, the whole is still one closed round from g within the bound, and the row is
      revealed up to j. */
  lemma {:induction false} CellStep(g: Grid, h: Grid, k: Grid, x: int, y: int, i: int, j0: int, j: int)
    requires Expands(g, h) && ClosedOver(g, h) && SpreadFrom(g, h, x, y)
    requires Expands(h, k) && ClosedOver(h, k) && WithinFlood(h, k, i, j)
    requires 0 <= i < |g| && 0 <= j < |g| && x - 1 <= i <= x + 1 && y - 1 <= j <= y + 1 && !h[i][j].hasBomb
    requires k[i][j].revealed && RevealedBlock(h, i, i, j0, j - 1)
    ensures Expands(g, k) && ClosedOver(g, k) && SpreadFrom(g, k, x, y) && RevealedBlock(k, i, i, j0, j)
  {
    ExpandsTrans(g, h, k);
    ClosedTrans(g, h, k);
    SpreadStep(g, h, k, x, y, i, j);
    BlockStays(h, k, i, i, j0, j - 1);
    assert RevealedAt(k, i, j);
  }

  /** One step of the flood fill's scan over rows around (x, y): after a further closed round within
      the flood bound that reveals row i, the whole is still one closed round from g within the
      bound, and rows i0..i are revealed. */
  lemma {:induction false} RowStep(g: Grid, h: Grid, k: Grid, x: int, y: int, i0: int, i: int, j0: int, j1: int)
    requires Expands(g, h) && ClosedOver(g, h) && SpreadFrom(g, h, x, y)
    requires Expands(h, k) && ClosedOver(h, k) && SpreadFrom(h, k, x, y)
    requires RevealedBlock(h, i0, i - 1, j0, j1) && RevealedBlock(k, i, i, j0, j1)
    ensures Expands(g, k) && ClosedOver(g, k) && SpreadFrom(g, k, x, y) && RevealedBlock(k, i0, i, j0, j1)
  {
    ExpandsTrans(g, h, k);
    ClosedTrans(g, h, k);
    SpreadTrans(g, h, k, x, y);
    BlockStays(h, k, i0, i - 1, j0, j1);
  }

  /** A revealed block that covers the clamped window around (x, y) reveals every neighbour. */
  lemma {:induction false} BlockNeighbors(h: Grid, x: int, y: int, i0: int, i1: int, j0: int, j1: int)
    requires IsGrid(h) && 0 <= x < |h| && 0 <= y < |h|
    requires (i0 <= x - 1 || i0 <= 0) && (x + 1 <= i1 || |h| - 1 <= i1)
    requires (j0 <= y - 1 || j0 <= 0) && (y + 1 <= j1 || |h| - 1 <= j1)
    requires RevealedBlock(h, i0, i1, j0, j1)
    ensures NeighborsRevealed(h, x, y)
  {
    forall a, b | 0 <= a < |h| && 0 <= b < |h| && x - 1 <= a <= x + 1 && y - 1 <= b <= y + 1
      ensures RevealedAt(h, a, b)
    {
      assert i0 <= a <= i1 && j0 <= b <= j1;
    }
  }

  // ---------------------------------------------------------------------------
  // The upper bound on what one reveal uncovers: a nested reveal is only started next to a cell that
  // was just opened with no bomb around it (MineField.h:120-125), and a passive reveal stops at a
  // bomb (MineField.h:91).

  /** Cell (a, b) was uncovered between g and h with no bomb in it and none around it: a cell the
      flood fill spreads from. */
  ghost predicate QuietAt(g: Grid, h: Grid, a: int, b: int)
    requires IsGrid(g) && IsGrid(h) && |g| == |h| && 0 <= a < |g| && 0 <= b < |g|
  {
    NewlyRevealed(g, h, a, b) && !h[a][b].hasBomb && h[a][b].neighborBombsCount == 0
  }

  /** Some other cell at row and column distance at most 1 from (i, j) is quiet between g and h. */
  ghost predicate BesideQuiet(g: Grid, h: Grid, i: int, j: int)
    requires IsGrid(g) && IsGrid(h) && |g| == |h|
  {
    exists a, b | 0 <= a < |g| && 0 <= b < |g| && i - 1 <= a <= i + 1 && j - 1 <= b <= j + 1 && (a, b) != (i, j) ::
      QuietAt(g, h, a, b)
  }

  /** What one reveal from (x, y) may uncover: every cell uncovered between g and h other than (x, y)
      itself holds no bomb and lies next to a quiet cell uncovered in the same round. */
  ghost predicate WithinFlood(g: Grid, h: Grid, x: int, y: int)
    requires IsGrid(g) && IsGrid(h) && |g| == |h|
  {
    forall i, j | 0 <= i < |g| && 0 <= j < |g| && (i, j) != (x, y) && NewlyRevealed(g, h, i, j) ::
      !h[i][j].hasBomb && BesideQuiet(g, h, i, j)
  }

  /** What the flood fill around the already opened quiet cell (x, y) may uncover: every cell
      uncovered between g and h holds no bomb and lies next to (x, y) or to a quiet cell uncovered
      in the same round. */
  ghost predicate SpreadFrom(g: Grid, h: Grid, x: int, y: int)
    requires IsGrid(g) && IsGrid(h) && |g| == |h|
  {
    forall i, j | 0 <= i < |g| && 0 <= j < |g| && NewlyRevealed(g, h, i, j) ::
      !h[i][j].hasBomb && ((x - 1 <= i <= x + 1 && y - 1 <= j <= y + 1) || BesideQuiet(g, h, i, j))
  }

  /** A quiet cell of either of two rounds of uncovering is a quiet cell of the two together. */
  lemma {:induction false} QuietCarries(g: Grid, h: Grid, k: Grid, a: int, b: int)
    requires Expands(g, h) && Expands(h, k) && 0 <= a < |g| && 0 <= b < |g|
    ensures QuietAt(g, h, a, b) ==> QuietAt(g, k, a, b)
    ensures QuietAt(h, k, a, b) ==> QuietAt(g, k, a, b)
  {
    assert ExpandsAt(g, h, a, b) && ExpandsAt(h, k, a, b);
  }

  /** A cell next to a quiet cell of either round is next to a quiet cell of the two together. */
  lemma {:induction false} BesideQuietCarries(g: Grid, h: Grid, k: Grid, i: int, j: int)
    requires Expands(g, h) && Expands(h, k)
    ensures BesideQuiet(g, h, i, j) ==> BesideQuiet(g, k, i, j)
    ensures BesideQuiet(h, k, i, j) ==> BesideQuiet(g, k, i, j)
  {
    if BesideQuiet(g, h, i, j) {
      var a, b :| 0 <= a < |g| && 0 <= b < |g| && i - 1 <= a <= i + 1 && j - 1 <= b <= j + 1 && (a, b) != (i, j) &&
                  QuietAt(g, h, a, b);
      QuietCarries(g, h, k, a, b);
    }
    if BesideQuiet(h, k, i, j) {
      var a, b :| 0 <= a < |g| && 0 <= b < |g| && i - 1 <= a <= i + 1 && j - 1 <= b <= j + 1 && (a, b) != (i, j) &&
                  QuietAt(h, k, a, b);
      QuietCarries(g, h, k, a, b);
    }
  }

  /** One passive reveal of the bomb-free neighbour (i, j) of the quiet cell (x, y) keeps the flood
      fill within its bound. */
  lemma {:induction false} SpreadStep(g: Grid, h: Grid, k: Grid, x: int, y: int, i: int, j: int)
    requires Expands(g, h) && Expands(h, k) && SpreadFrom(g, h, x, y) && WithinFlood(h, k, i, j)
    requires 0 <= i < |g| && 0 <= j < |g| && x - 1 <= i <= x + 1 && y - 1 <= j <= y + 1 && !h[i][j].hasBomb
    ensures SpreadFrom(g, k, x, y)
  {
    forall p, q | 0 <= p < |g| && 0 <= q < |g| && NewlyRevealed(g, k, p, q)
      ensures !k[p][q].hasBomb && ((x - 1 <= p <= x + 1 && y - 1 <= q <= y + 1) || BesideQuiet(g, k, p, q))
    {
      assert ExpandsAt(g, h, p, q) && ExpandsAt(h, k, p, q);
      BesideQuietCarries(g, h, k, p, q);
      if !h[p][q].revealed && (p, q) != (i, j) {
        assert NewlyRevealed(h, k, p, q);
      }
    }
  }

  /** The flood-fill bound composes over the rows of the window. */
  lemma {:induction false} SpreadTrans(g: Grid, h: Grid, k: Grid, x: int, y: int)
    requires Expands(g, h) && Expands(h, k) && SpreadFrom(g, h, x, y) && SpreadFrom(h, k, x, y)
    ensures SpreadFrom(g, k, x, y)
  {
    forall p, q | 0 <= p < |g| && 0 <= q < |g| && NewlyRevealed(g, k, p, q)
      ensures !k[p][q].hasBomb && ((x - 1 <= p <= x + 1 && y - 1 <= q <= y + 1) || BesideQuiet(g, k, p, q))
    {
      assert ExpandsAt(g, h, p, q) && ExpandsAt(h, k, p, q);
      BesideQuietCarries(g, h, k, p, q);
      if !h[p][q].revealed {
        assert NewlyRevealed(h, k, p, q);
      }
    }
  }

  /** Opening (x, y) and then, if it is quiet, flood-filling around it, uncovers only cells within
      the bound; with no flood fill it uncovers (x, y) alone. */
  lemma {:induction false} UncoverThenFlood(g: Grid, g2: Grid, x: int, y: int)
    requires IsGrid(g) && 0 <= x < |g| && 0 <= y < |g| && !g[x][y].revealed
    requires var g1 := Put(g, (x, y), Uncovered(g, x, y));
             g2 == g1 ||
             (!g[x][y].hasBomb && Neighborhood(g, x, y) == 0 && Expands(g1, g2) && SpreadFrom(g1, g2, x, y))
    ensures WithinFlood(g, g2, x, y)
  {
    var g1 := Put(g, (x, y), Uncovered(g, x, y));
    forall i, j | 0 <= i < |g| && 0 <= j < |g|
      ensures ExpandsAt(g, g1, i, j)
    {
    }
    if g2 != g1 {
      assert ExpandsAt(g1, g2, x, y);
      assert QuietAt(g, g2, x, y);
      forall i, j | 0 <= i < |g| && 0 <= j < |g| && (i, j) != (x, y) && NewlyRevealed(g, g2, i, j)
        ensures !g2[i][j].hasBomb && BesideQuiet(g, g2, i, j)
      {
        assert NewlyRevealed(g1, g2, i, j);
        BesideQuietCarries(g, g1, g2, i, j);
      }
    }
  }
}
