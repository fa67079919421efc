/** The rules the field engine keeps (MineField.h): the bomb-count clamp, the random placement of
    bombs, the search that erases a pool entry, the field invariant and the facts that show each
    step of the engine keeps it. */
module FieldRules {
  import opened MineCells
  import opened Grids
  import opened Uncover

  /** n, or 0 when n is negative: how many times a `for (i = 0; i < n; ++i)` loop runs. */
  function NonNeg(n: int): (r: nat)
    ensures r >= n && (r == n || r == 0)
    ensures n <= 0 ==> r == 0
  {
    if n > 0 then n else 0
  }

  /** The constructor's clamp: the requested count, but never more than one less than the number
      of cells. */
  function ClampedBombs(size: int, requested: int): (r: int)
    ensures r <= requested && r <= size * size - 1
    ensures r == requested || r == size * size - 1
    ensures size != 0 ==> NonNeg(r) < size * size
  {
    assert size != 0 ==> size * size >= 1 by {
      if size != 0 {
        assert size * size == (if size < 0 then -size else size) * (if size < 0 then -size else size);
      }
    }
    if requested < size * size - 1 then requested else size * size - 1
  }

  // ---------------------------------------------------------------------------
  // Random draws: `randInt(flatMap.size() - 1)` is replaced by a chosen index

  /** `draws[k]` indexes a pool of n entries after k of them have been taken out. */
  predicate DrawsFit(n: int, draws: seq<nat>) {
    |draws| <= n && forall k | 0 <= k < |draws| :: draws[k] < n - k
  }

  /** The pool once each draw's entry has been erased in turn. */
  function Remaining(pool: seq<Coord>, draws: seq<nat>): (r: seq<Coord>)
    requires DrawsFit(|pool|, draws)
    ensures |r| == |pool| - |draws|
    decreases |draws|
  {
    if draws == [] then pool
    else
      var before := Remaining(pool, draws[..|draws| - 1]);
      var d := draws[|draws| - 1];
      before[..d] + before[d + 1..]
  }

  /** The entries the draws erase, in the order they are erased. */
  function Picked(pool: seq<Coord>, draws: seq<nat>): (r: seq<Coord>)
    requires DrawsFit(|pool|, draws)
    decreases |draws|
  {
    if draws == [] then []
    else
      var prefix := draws[..|draws| - 1];
      Picked(pool, prefix) + [Remaining(pool, prefix)[draws[|draws| - 1]]]
  }

  /** Every pool entry is either picked or still in the pool, and never both. */
  lemma {:induction false} DrawPartition(pool: seq<Coord>, draws: seq<nat>)
    requires DrawsFit(|pool|, draws)
    ensures |Picked(pool, draws)| == |draws|
    ensures multiset(Picked(pool, draws)) + multiset(Remaining(pool, draws)) == multiset(pool)
    decreases |draws|
  {
    if draws != [] {
      var prefix := draws[..|draws| - 1];
      var d := draws[|draws| - 1];
      var before := Remaining(pool, prefix);
      DrawPartition(pool, prefix);
      assert Remaining(pool, draws) == before[..d] + before[d + 1..];
      assert Picked(pool, draws) == Picked(pool, prefix) + [before[d]];
      assert multiset(before) == multiset(before[..d] + before[d + 1..]) + multiset{before[d]} by {
        assert before == before[..d] + [before[d]] + before[d + 1..];
      }
    }
  }

  // ---------------------------------------------------------------------------
  /** Every listed coordinate lies on an n × n field. */
  predicate OnField(cs: seq<Coord>, n: int) {
    forall c | c in cs :: 0 <= c.0 < n && 0 <= c.1 < n
  }

  // Erasing the first matching entry (the relocation's search loop)

  /** `s` with its first occurrence of `c` erased; `s` itself when there is none. */
  function EraseFirst(s: seq<Coord>, c: Coord): (r: seq<Coord>)
    ensures c !in s ==> r == s
  {
    if s == [] then []
    else if s[0] == c then s[1..] else [s[0]] + EraseFirst(s[1..], c)
  }

  /** Erasing takes exactly one copy of `c` out, when there is one, and nothing else. */
  lemma {:induction false} EraseFirstCount(s: seq<Coord>, c: Coord)
    ensures multiset(EraseFirst(s, c)) == multiset(s) - multiset{c}
  {
    if s != [] {
      assert s == [s[0]] + s[1..];
      if s[0] != c {
        EraseFirstCount(s[1..], c);
      }
    }
  }

  /** Erasing at the first index holding `c` is erasing the first occurrence of `c`. */
  lemma {:induction false} EraseFirstAt(s: seq<Coord>, i: nat, c: Coord)
    requires i < |s| && s[i] == c && c !in s[..i]
    ensures EraseFirst(s, c) == s[..i] + s[i + 1..]
  {
    if i > 0 {
      assert s[1..][..i - 1] == s[1..i];
      assert c !in s[1..][..i - 1];
      EraseFirstAt(s[1..], i - 1, c);
      assert s[1..][i..] == s[i + 1..];
    }
  }

  /** A grid with every cell hidden: all its cells are unrevealed, and when none holds a bomb, all
      are free. */
  lemma {:induction false} BlankGrid(g: Grid)
    requires IsGrid(g) && forall i, j | 0 <= i < |g| && 0 <= j < |g| :: !g[i][j].revealed
    ensures |AllCells(g)| == |g| * |g| && UnrevealedTotal(g) == |g| * |g|
    ensures (forall i, j | 0 <= i < |g| && 0 <= j < |g| :: !g[i][j].hasBomb) ==>
              FreeCells(g) == AllCells(g) && BombTotal(g) == 0
  {
    AllCellsComplete(g);
    SelectAgree(g, g, Hidden, AnyCell, |g|);
    if forall i, j | 0 <= i < |g| && 0 <= j < |g| :: !g[i][j].hasBomb {
      SelectAgree(g, g, Free, AnyCell, |g|);
      SelectNone(g, Bomb, |g|);
    }
  }

  /** One more draw: it erases one more entry from the pool, and that entry is the next one picked. */
  lemma {:induction false} DrawNext(pool: seq<Coord>, draws: seq<nat>, i: nat)
    requires DrawsFit(|pool|, draws) && i < |draws|
    ensures draws[i] < |Remaining(pool, draws[..i])|
    ensures var before := Remaining(pool, draws[..i]);
            Remaining(pool, draws[..i + 1]) == before[..draws[i]] + before[draws[i] + 1..] &&
            Picked(pool, draws[..i + 1]) == Picked(pool, draws[..i]) + [before[draws[i]]]
  {
    assert draws[..i + 1][..i] == draws[..i];
  }

  /** Planting a bomb on a bomb-free cell adds that cell, and only it, to the bomb cells. */
  lemma {:induction false} PlantBomb(g: Grid, c: Coord)
    requires IsGrid(g) && InGrid(g, c) && !g[c.0][c.1].hasBomb
    ensures var h := Put(g, c, g[c.0][c.1].(hasBomb := true));
            AllCells(h) == AllCells(g) && BombTotal(h) == BombTotal(g) + 1
  {
    var h := Put(g, c, g[c.0][c.1].(hasBomb := true));
    SelectAgree(g, h, AnyCell, AnyCell, |g|);
    PutCount(g, Bomb, c, g[c.0][c.1].(hasBomb := true));
  }

  /** No cell has been revealed or counted yet, and each sits at its own position unflagged. */
  ghost predicate Untouched(g: Grid)
    requires IsGrid(g)
  {
    Positioned(g) && Unflagged(g) &&
    forall i, j | 0 <= i < |g| && 0 <= j < |g| :: !g[i][j].revealed && g[i][j].neighborBombsCount == 0
  }

  /** The state of the constructor's placement loop after i draws: the pool is the bomb-free cells,
      which are the cells not yet picked. */
  ghost predicate Placement(g: Grid, all: seq<Coord>, pool: seq<Coord>, draws: seq<nat>, i: nat) {
    PlacedBombs(g, all, draws, i) && PlacedPool(g, all, pool, draws, i)
  }

  /** After i draws the grid is untouched and holds a bomb exactly on the cells picked so far. */
  ghost predicate PlacedBombs(g: Grid, all: seq<Coord>, draws: seq<nat>, i: nat) {
    IsGrid(g) && Untouched(g) && all == AllCells(g) && |all| == |g| * |g| &&
    DrawsFit(|all|, draws) && i <= |draws| &&
    (forall c | InGrid(g, c) :: g[c.0][c.1].hasBomb <==> c in Picked(all, draws[..i])) &&
    BombTotal(g) == i
  }

  /** After i draws the pool is both the bomb-free cells and what the draws left. */
  ghost predicate PlacedPool(g: Grid, all: seq<Coord>, pool: seq<Coord>, draws: seq<nat>, i: nat) {
    IsGrid(g) && DrawsFit(|all|, draws) && i <= |draws| &&
    pool == FreeCells(g) && pool == Remaining(all, draws[..i])
  }

  /** A freshly created grid is where the placement loop starts. */
  lemma {:induction false} EmptyPlacement(g: Grid, draws: seq<nat>)
    requires IsGrid(g) && forall i, j | 0 <= i < |g| && 0 <= j < |g| :: g[i][j] == NewMineCell(i, j, false)
    requires DrawsFit(|g| * |g|, draws)
    ensures Placement(g, AllCells(g), AllCells(g), draws, 0)
  {
    BlankGrid(g);
    assert draws[..0] == [];
  }

  /** Planting a bomb leaves the cells untouched otherwise. */
  lemma {:induction false} PlantUntouched(g: Grid, c: Coord)
    requires IsGrid(g) && Untouched(g) && InGrid(g, c)
    ensures Untouched(Put(g, c, g[c.0][c.1].(hasBomb := true)))
  {
  }

  /** After planting at c, the bomb cells are the earlier ones and c. */
  lemma {:induction false} PlantPicked(g: Grid, c: Coord, before: seq<Coord>)
    requires IsGrid(g) && InGrid(g, c)
    requires forall e | InGrid(g, e) :: g[e.0][e.1].hasBomb <==> e in before
    ensures var h := Put(g, c, g[c.0][c.1].(hasBomb := true));
            forall e | InGrid(h, e) :: h[e.0][e.1].hasBomb <==> e in before + [c]
  {
    var h := Put(g, c, g[c.0][c.1].(hasBomb := true));
    forall e | InGrid(h, e) ensures h[e.0][e.1].hasBomb <==> e in before + [c] {
      if e != c {
        assert h[e.0][e.1] == g[e.0][e.1];
      }
    }
  }

  /** One pass of the placement loop plants the drawn cell's bomb. */
  lemma {:induction false} StepBombs(g: Grid, all: seq<Coord>, pool: seq<Coord>, draws: seq<nat>, i: nat)
    requires Placement(g, all, pool, draws, i) && i < |draws|
    ensures draws[i] < |pool| && InGrid(g, pool[draws[i]])
    ensures var c := pool[draws[i]];
            PlacedBombs(Put(g, c, g[c.0][c.1].(hasBomb := true)), all, draws, i + 1)
  {
    DrawNext(all, draws, i);
    FreeCellsAfterBomb(g, draws[i]);
    var c := pool[draws[i]];
    PlantUntouched(g, c);
    PlantBomb(g, c);
    PlantPicked(g, c, Picked(all, draws[..i]));
  }

  /** One pass of the placement loop erases the drawn entry from the pool. */
  lemma {:induction false} StepPool(g: Grid, all: seq<Coord>, pool: seq<Coord>, draws: seq<nat>, i: nat)
    requires Placement(g, all, pool, draws, i) && i < |draws|
    ensures draws[i] < |pool| && InGrid(g, pool[draws[i]])
    ensures var d := draws[i];
            var c := pool[d];
            PlacedPool(Put(g, c, g[c.0][c.1].(hasBomb := true)), all, pool[..d] + pool[d + 1..], draws, i + 1)
  {
    DrawNext(all, draws, i);
    FreeCellsAfterBomb(g, draws[i]);
  }

  /** One pass of the placement loop keeps `Placement`. */
  lemma {:induction false} PlacementStep(g: Grid, all: seq<Coord>, pool: seq<Coord>, draws: seq<nat>, i: nat)
    requires Placement(g, all, pool, draws, i) && i < |draws|
    ensures draws[i] < |pool| && InGrid(g, pool[draws[i]])
    ensures OnField(pool, |g|)
    ensures var d := draws[i];
            var c := pool[d];
            Placement(Put(g, c, g[c.0][c.1].(hasBomb := true)), all, pool[..d] + pool[d + 1..], draws, i + 1)
  {
    CellsMembers(g, Free);
    StepBombs(g, all, pool, draws, i);
    StepPool(g, all, pool, draws, i);
  }

  /** The field invariant, on the values of the field's members: the grid's shape, the bomb total
      the clamp allows, the pool holding only bomb-free cells (all of them until the first bomb
      click), and the bomb cache either empty or exact (exact once a bomb has been clicked). */
  ghost predicate WellFormed(size: int, grid: Grid, bombsCount: int, flatMap: seq<Coord>, bombs: seq<Coord>,
                             firstTime: bool)
  {
    0 <= size && |grid| == size && IsGrid(grid) && Positioned(grid) && Unflagged(grid) &&
    bombsCount < |AllCells(grid)| &&
    BombTotal(grid) == NonNeg(bombsCount) &&
    (forall c | c in flatMap :: InGrid(grid, c) && !grid[c.0][c.1].hasBomb) &&
    (!firstTime ==> flatMap == FreeCells(grid)) &&
    (bombs == [] || bombs == BombCells(grid)) &&
    (firstTime ==> bombs == BombCells(grid))
  }

  /** When the placement loop ends, the members make a well-formed fresh field. */
  lemma {:induction false} FreshField(size: int, g: Grid, bombsCount: int, pool: seq<Coord>, bombs: seq<Coord>, firstTime: bool,
                   all: seq<Coord>, draws: seq<nat>)
    requires Placement(g, all, pool, draws, |draws|)
    requires |g| == size && bombs == [] && !firstTime
    requires bombsCount <= size * size - 1 && |draws| == NonNeg(bombsCount)
    ensures WellFormed(size, g, bombsCount, pool, bombs, firstTime)
    ensures UnrevealedTotal(g) == size * size && |AllCells(g)| == size * size
    ensures forall i, j | 0 <= i < size && 0 <= j < size :: !g[i][j].revealed && g[i][j].neighborBombsCount == 0
    ensures pool == Remaining(AllCells(g), draws)
    ensures forall c | InGrid(g, c) :: g[c.0][c.1].hasBomb <==> c in Picked(AllCells(g), draws)
  {
    assert draws[..|draws|] == draws;
    BlankGrid(g);
    CellsMembers(g, Free);
  }

  /** g with the listed cells revealed, one after another. */
  function RevealCells(g: Grid, cs: seq<Coord>): (h: Grid)
    requires IsGrid(g) && forall c | c in cs :: InGrid(g, c)
    ensures IsGrid(h) && |h| == |g|
    decreases |cs|
  {
    if cs == [] then g
    else
      var prev := RevealCells(g, cs[..|cs| - 1]);
      var c := cs[|cs| - 1];
      assert c in cs && InGrid(g, c);
      Put(prev, c, prev[c.0][c.1].(revealed := true))
  }

  /** Revealing the first k + 1 listed cells is revealing the first k, then cell k. */
  lemma {:induction false} RevealCellsNext(g: Grid, cs: seq<Coord>, k: nat)
    requires IsGrid(g) && (forall c | c in cs :: InGrid(g, c)) && k < |cs|
    ensures InGrid(g, cs[k])
    ensures var prev := RevealCells(g, cs[..k]);
            RevealCells(g, cs[..k + 1]) == Put(prev, cs[k], prev[cs[k].0][cs[k].1].(revealed := true))
  {
    assert cs[..k + 1][..k] == cs[..k];
  }

  /** Exactly the listed cells end up revealed, and nothing else about any cell changes. */
  lemma {:induction false} RevealCellsEffect(g: Grid, cs: seq<Coord>)
    requires IsGrid(g) && forall c | c in cs :: InGrid(g, c)
    ensures forall i, j | 0 <= i < |g| && 0 <= j < |g| ::
              RevealCells(g, cs)[i][j] == if (i, j) in cs then g[i][j].(revealed := true) else g[i][j]
    decreases |cs|
  {
    if cs != [] {
      var prefix := cs[..|cs| - 1];
      var last := cs[|cs| - 1];
      assert cs == prefix + [last];
      RevealCellsEffect(g, prefix);
    }
  }

  /** Revealing cells changes no cell's bomb, position or flag. */
  lemma {:induction false} RevealCellsLayout(g: Grid, cs: seq<Coord>)
    requires IsGrid(g) && forall c | c in cs :: InGrid(g, c)
    ensures SameLayout(g, RevealCells(g, cs))
    ensures Positioned(g) ==> Positioned(RevealCells(g, cs))
    ensures Unflagged(g) ==> Unflagged(RevealCells(g, cs))
  {
    RevealCellsEffect(g, cs);
  }

  /** Revealing the cached bomb cells keeps the field well formed and changes exactly those cells. */
  lemma {:induction false} RevealBombsKeeps(size: int, g: Grid, bombsCount: int, flatMap: seq<Coord>, bombs: seq<Coord>,
                         firstTime: bool)
    requires WellFormed(size, g, bombsCount, flatMap, bombs, firstTime)
    ensures forall c | c in bombs :: InGrid(g, c)
    ensures forall k | 0 <= k < |bombs| :: InGrid(g, bombs[k])
    ensures var h := RevealCells(g, bombs);
            WellFormed(size, h, bombsCount, flatMap, bombs, firstTime) &&
            forall i, j | 0 <= i < size && 0 <= j < size ::
              h[i][j] == if (i, j) in bombs then g[i][j].(revealed := true) else g[i][j]
  {
    CellsMembers(g, Bomb);
    RevealCellsLayout(g, bombs);
    RevealCellsEffect(g, bombs);
    LayoutKeeps(size, g, RevealCells(g, bombs), bombsCount, flatMap, bombs, firstTime);
  }

  /** A grid with the same bombs, positions and flags keeps the field well formed, with the same bomb
      cells and bomb-free cells. */
  lemma {:induction false} LayoutKeeps(size: int, g: Grid, h: Grid, bombsCount: int, flatMap: seq<Coord>, bombs: seq<Coord>,
                    firstTime: bool)
    requires WellFormed(size, g, bombsCount, flatMap, bombs, firstTime)
    requires SameLayout(g, h) && Positioned(h) && Unflagged(h)
    ensures BombCells(h) == BombCells(g) && FreeCells(h) == FreeCells(g)
    ensures WellFormed(size, h, bombsCount, flatMap, bombs, firstTime)
  {
    SameLayoutCells(g, h);
    SelectAgree(g, h, AnyCell, AnyCell, |g|);
  }

  /** Uncovering one hidden cell keeps the layout and leaves one hidden cell fewer. */
  lemma {:induction false} UncoverOne(g: Grid, h: Grid, x: int, y: int)
    requires IsGrid(g) && 0 <= x < |g| && 0 <= y < |g| && !g[x][y].revealed
    requires IsGrid(h) && |h| == |g| && h[x][y] == Uncovered(g, x, y)
    requires forall i, j | 0 <= i < |g| && 0 <= j < |g| && (i, j) != (x, y) :: h[i][j] == g[i][j]
    ensures SameLayout(g, h) && (Positioned(g) ==> Positioned(h)) && (Unflagged(g) ==> Unflagged(h))
    ensures UnrevealedTotal(h) == UnrevealedTotal(g) - 1
  {
    var put := Put(g, (x, y), Uncovered(g, x, y));
    PutCount(g, Hidden, (x, y), Uncovered(g, x, y));
    SelectAgree(h, put, Hidden, Hidden, |g|);
  }

  /** Uncovering one hidden cell keeps the field well formed, leaves one hidden cell fewer and is a
      round of uncovering. */
  lemma {:induction false} UncoverKeeps(size: int, g: Grid, bombsCount: int, flatMap: seq<Coord>, bombs: seq<Coord>,
                     firstTime: bool, x: int, y: int)
    requires WellFormed(size, g, bombsCount, flatMap, bombs, firstTime) && bombs == BombCells(g)
    requires 0 <= x < size && 0 <= y < size && !g[x][y].revealed
    ensures var h := Put(g, (x, y), Uncovered(g, x, y));
            WellFormed(size, h, bombsCount, flatMap, bombs, firstTime) && bombs == BombCells(h) &&
            UnrevealedTotal(h) == UnrevealedTotal(g) - 1 && Expands(g, h)
  {
    var h := Put(g, (x, y), Uncovered(g, x, y));
    UncoverOne(g, h, x, y);
    LayoutKeeps(size, g, h, bombsCount, flatMap, bombs, firstTime);
  }

  /** Before any bomb has been clicked, a bomb cell guarantees a non-empty pool that does not hold it. */
  lemma {:induction false} PoolOnFirstBomb(size: int, g: Grid, bombsCount: int, flatMap: seq<Coord>, bombs: seq<Coord>,
                        x: int, y: int)
    requires WellFormed(size, g, bombsCount, flatMap, bombs, false)
    requires 0 <= x < size && 0 <= y < size && g[x][y].hasBomb
    ensures flatMap != [] && (x, y) !in flatMap && OnField(flatMap, size)
  {
    CellsMembers(g, Bomb);
    CellsMembers(g, Free);
    assert (x, y) in BombCells(g);
    AllCellsComplete(g);
    BombsAndFreeCells(g);
  }

  /** What the draw leaves of the pool holds no bomb once the clicked bomb has moved to the drawn cell. */
  lemma {:induction false} RelocatedPool(g: Grid, x: int, y: int, d: nat)
    requires IsGrid(g) && 0 <= x < |g| && 0 <= y < |g| && g[x][y].hasBomb && d < |FreeCells(g)|
    ensures InGrid(g, FreeCells(g)[d]) && !g[FreeCells(g)[d].0][FreeCells(g)[d].1].hasBomb
    ensures var free := FreeCells(g);
            var h := Relocated(g, (x, y), free[d]);
            forall e | e in free[..d] + free[d + 1..] :: InGrid(h, e) && !h[e.0][e.1].hasBomb
  {
    var free := FreeCells(g);
    var c := free[d];
    FreeCellsAfterBomb(g, d);
    var planted := Put(g, c, g[c.0][c.1].(hasBomb := true));
    CellsMembers(planted, Free);
    RelocatedCells(g, x, y, c);
  }

  /** The relocation keeps the field well formed, now with the bomb cache exact and the drawn entry
      gone from the pool. */
  lemma {:induction false} RelocationKeeps(size: int, g: Grid, bombsCount: int, flatMap: seq<Coord>, bombs: seq<Coord>,
                        x: int, y: int, d: nat)
    requires WellFormed(size, g, bombsCount, flatMap, bombs, false)
    requires 0 <= x < size && 0 <= y < size && g[x][y].hasBomb && d < |flatMap|
    ensures InGrid(g, flatMap[d]) && !g[flatMap[d].0][flatMap[d].1].hasBomb
    ensures var h := Relocated(g, (x, y), flatMap[d]);
            WellFormed(size, h, bombsCount, flatMap[..d] + flatMap[d + 1..], BombCells(h), true) &&
            UnrevealedTotal(h) == UnrevealedTotal(g)
  {
    RelocatedPool(g, x, y, d);
    RelocatedCounts(g, x, y, flatMap[d]);
  }

  /** `RelocationKeeps` stated for a grid and pool already known to be the relocation's outcome.
      It adds no new fact; binding `h` and `rest` by equalities lets a caller hand over the current
      field values directly, which keeps the solver's work in `RelocateBomb` small. */
  lemma {:induction false} RelocationOutcome(size: int, g: Grid, bombsCount: int, flatMap: seq<Coord>, bombs: seq<Coord>,
                          x: int, y: int, d: nat, h: Grid, rest: seq<Coord>)
    requires WellFormed(size, g, bombsCount, flatMap, bombs, false)
    requires 0 <= x < size && 0 <= y < size && g[x][y].hasBomb && d < |flatMap|
    requires h == Relocated(g, (x, y), flatMap[d]) && rest == flatMap[..d] + flatMap[d + 1..]
    ensures WellFormed(size, h, bombsCount, rest, BombCells(h), true) && UnrevealedTotal(h) == UnrevealedTotal(g)
  {
    RelocationKeeps(size, g, bombsCount, flatMap, bombs, x, y, d);
  }
}
