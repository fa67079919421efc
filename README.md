# Minesweeper field engine in Dafny

This project models the core of a console Minesweeper game written in C++:

- the cell record (`MineCell.h`);
- the field engine (`MineField.h`):
  - construction with a clamped bomb count;
  - random bomb placement from a pool of free cells;
  - the recursive reveal, with its first-bomb relocation, neighbour count and flood fill;
  - the bomb cache;
  - the loss-time reveal of all bombs;
  - the border line used by the renderer;
- two string helpers of the utility class (`Test/MinesweeperUtils.h`): `splitString` and `convertTime`.

Modules:

- `MineCells` (`mine_cell.dfy`): the cell, a value type.
- `Grids` (`grid.dfy`): the grid, the position lists the engine builds by row-major scans, and neighbour counts.
- `Uncover` (`uncover.dfy`): how one reveal may change the grid, as a relation between the grids before and after. This lets the recursive flood fill be proved from its nested calls.
- `FieldRules` (`field_rules.dfy`): the bomb-count clamp and the random placement. It also holds the field invariant `WellFormed` and the lemmas showing that each step of the engine keeps it.
- `MineFields` (`mine_field.dfy`): class `MineField`. Its fields are the C++ members. Its methods update them in place, with loops where the source loops and with recursion where the source recurses.
- `MinesweeperUtils` (`minesweeper_utils.dfy`): `splitString` as a loop proved against a specification function, and `convertTime` as pure functions.

Randomness comes in as parameters:

- the constructor takes `draws`, one pool index per bomb placed;
- `Reveal` takes `draw`, the pool index used if the call is the first bomb click.

The nested flood-fill calls pass 0, which they never use.

What is proved, in the engine's terms:

- The field invariant holds after construction and after every `Reveal` and `RevealAllBombs`:
  - exactly `bombsCount` cells hold a bomb;
  - `flatMap` lists only bomb-free cells, and lists all of them until the first bomb click;
  - `bombs` is empty or exactly the bomb cells, and is exact once a bomb has been clicked.
- `unrevealedCellsCount` moves in step with the number of hidden cells. The recursion terminates because every nested reveal either opens a hidden cell or returns at once.
- Every cell a reveal opens without a bomb shows the number of bombs around it.
- Every such cell whose count is 0 has all of its neighbours revealed.
- The clamped neighbour scan counts each in-grid neighbour exactly once.

## Model

| member | source | states |
|---|---|---|
| MineCells.NewMineCell | MineCell.h:6-13 | The new cell keeps the position and bomb bit it was given, is hidden and unflagged, and has count 0. |
| FieldRules.ClampedBombs | MineField.h:69 | The bomb count is the requested one, or `Size*Size - 1` when that is smaller, so on a non-empty field at least one cell stays bomb-free. |
| FieldRules.NonNeg | MineField.h:72 | The number of passes of the `for (i = 0; i < bombsCount; ++i)` loop: the count itself, or 0 when it is negative. |
| FieldRules.DrawPartition | MineField.h:181-187 | Each draw picks exactly one pool entry. The picked entries and the entries left in the pool together are the original pool, counted with multiplicity. |
| FieldRules.EraseFirstCount | MineField.h:97-103 | The pool search erases exactly one copy of the clicked position when there is one, and nothing else. |
| FieldRules.EraseFirstAt | MineField.h:97-103 | Erasing at the first index that matches is the same as erasing the first occurrence. |
| FieldRules.BlankGrid | MineField.h:130-136 | On a fully hidden grid every cell is unrevealed (`Size*Size` of them); with no bombs, every cell is free. |
| FieldRules.PlacementStep | MineField.h:181-187 | One pass of the placement loop plants a bomb on the drawn pool entry and erases that entry. Afterwards the pool is still exactly the bomb-free cells, and the bombs are exactly the cells drawn so far. |
| FieldRules.FreshField | MineField.h:67-79 | When placement ends, the members form a well-formed field: `bombsCount` distinct bombs on the drawn cells, the pool equal to the undrawn cells, every cell hidden with count 0, and `Size*Size` cells hidden. |
| FieldRules.RevealCellsEffect | MineField.h:198-202 | Revealing the listed cells reveals exactly those cells and changes nothing else. |
| FieldRules.RevealBombsKeeps | MineField.h:198-202 | Revealing the cached bomb cells keeps the field well formed and changes exactly those cells. |
| FieldRules.UncoverKeeps | MineField.h:109-118 | Opening one hidden cell keeps the field well formed and the bomb cache exact, and leaves one fewer hidden cell. |
| FieldRules.PoolOnFirstBomb | MineField.h:90-103 | Before the first bomb click, a clicked bomb implies a non-empty pool that does not contain the clicked cell, so the search loop erases nothing. |
| FieldRules.RelocationKeeps | MineField.h:92-106 | Moving the clicked bomb to the drawn pool entry keeps the field well formed: the same number of bombs and of hidden cells, with the drawn entry gone from the pool. |
| FieldRules.RelocationOutcome | MineField.h:92-106 | The relocated grid and the shortened pool, with the bomb cache refreshed, form a well-formed field with `firstTime` set and as many hidden cells as before. |
| Uncover.RelocatedCells | MineField.h:92-106 | The relocation clears the clicked cell's bomb, sets the drawn cell's bomb, and changes no other part of any cell. |
| Uncover.RelocatedCounts | MineField.h:92-106 | The relocation keeps positions, flags, and the numbers of cells, bombs and hidden cells. |
| Uncover.ExpandsKeeps | MineField.h:109-126 | A reveal never moves a bomb, never changes a position or flag, and never hides a revealed cell. |
| Uncover.ExpandsTrans | MineField.h:121-125 | Two rounds of uncovering compose into one, the way the nested reveals compose. |
| Uncover.ClosedTrans | MineField.h:120-126 | The flood-fill closure survives later rounds of uncovering. |
| Uncover.ExpandsCounts | MineField.h:112-118 | Every cell uncovered without a bomb shows the number of bombs around it, measured on the final grid. |
| Uncover.UncoverThenExpand | MineField.h:109-126 | Opening one cell and then expanding from it is a closed round of uncovering from the starting grid. |
| Uncover.BlockNeighbors | MineField.h:121-125 | Revealing the whole clamped window around (x, y) reveals every in-grid neighbour of (x, y). |
| Uncover.SpreadTrans | MineField.h:121-125 | The flood bound composes over consecutive rounds of uncovering. |
| Uncover.SpreadStep | MineField.h:121-125 | A nested reveal of a bomb-free window neighbour, bounded from its own cell, keeps the whole flood fill bounded from (x, y). |
| Uncover.UncoverThenFlood | MineField.h:109-126 | Opening (x, y) and then, when it is bomb-free with count 0, flooding from it reveals no bomb besides (x, y), and every other cell revealed lies next to a newly revealed bomb-free cell with count 0. |
| Uncover.NeighborhoodKept | MineField.h:112-123 | Nested reveals keep every cell's bomb count, so the scan done before the flood fill still holds after it. |
| Grids.AllCellsComplete | MineField.h:172-179 | `flattenMap` lists every position of the grid exactly once: `Size*Size` distinct entries. |
| Grids.CellsMembers | MineField.h:189-196 | A position is in the scan's list exactly when it is on the grid and its cell passes the test, e.g. holds a bomb for `getAllBombs`. |
| Grids.BombsAndFreeCells | MineField.h:69-72 | Bomb cells and bomb-free cells together account for all `Size*Size` cells. |
| Grids.PutCount | MineField.h:109-110 | Replacing one cell changes a count by what the test says of the old and the new cell. |
| Grids.FreeCellsAfterBomb | MineField.h:181-187 | Planting a bomb on the free cell at `index` removes exactly that entry from the free list. |
| Grids.WindowIsNeighborhood | MineField.h:114-118 | The scan over `[safeIndex(x-1), safeIndex(x+1)] × [safeIndex(y-1), safeIndex(y+1)]` counts exactly the bombs at row and column distance at most 1 that lie on the grid. No edge cell is counted twice. |
| Grids.NeighborhoodSum | MineField.h:114-118 | The neighbourhood count is the sum over the nine cells of the 3×3 block. |
| Grids.NoBombNear | MineField.h:120-123 | A zero neighbourhood count means no neighbour holds a bomb, so the flood fill's passive calls never meet one. |
| Grids.NeighborhoodOfLayout | MineField.h:112-118 | Neighbour counts depend only on where the bombs are. |
| Grids.WinTest | MinesweeperGameManager.h:131 | On grid totals: the number of hidden cells equals the number of bomb cells exactly when as many bomb-free cells are still hidden as bombs have been revealed. With no bomb revealed, it holds exactly when every bomb-free cell is revealed. |
| Grids.WinCheck | MinesweeperGameManager.h:131 | The caller's win test `unrevealedCellsCount == bombs.size()`, on a counter in step with the grid and an exact bomb cache: it holds exactly when as many bomb-free cells are still hidden as bombs are revealed, and, with no bomb revealed, exactly when every bomb-free cell is revealed. |
| Grids.UnrevealedSplit | MinesweeperGameManager.h:131 | Hidden cells plus revealed bombs equal bombs plus hidden bomb-free cells. |
| MineFields.MineField.constructor | MineField.h:67-74 | The size and clamped count are stored. The field is well formed and consistent, with `Size*Size` hidden cells and `firstTime` false. Bombs sit exactly on the drawn cells, and the pool is what the draws left. |
| MineFields.MineField.PlaceBombs | MineField.h:72 | The placement loop runs the placement step once per draw. |
| MineFields.MineField.InitMap | MineField.h:76-79 | `firstTime` is false and `unrevealedCellsCount` is `Size*Size`. |
| MineFields.MineField.SafeIndex | MineField.h:81-83 | The result lies in `[0, Size-1]` and equals the index when that is already in range. Below the range it is 0; above it, `Size-1`. |
| MineFields.MineField.Reveal | MineField.h:85-128 | Off the grid, or on a revealed cell: returns false and changes nothing. A passive probe of a bomb: returns true and changes nothing. First bomb click: the bomb moves to the drawn pool entry, `firstTime` becomes true, the cell opens, `bombs` lists the new layout, and the call returns false. Any other call opens the cell and returns whether it held a bomb. In every case the invariant and the counter are kept and the change is a closed round of uncovering. The cell ends up revealed whenever it is on the grid, hidden, and not a bomb met by a passive probe. Every other cell the call reveals holds no bomb and lies next to a newly revealed bomb-free cell whose count is 0 (measured from the relocated layout after a first bomb click). |
| MineFields.MineField.RevealCovered | MineField.h:89-111 | The part of `reveal` past the guards when no bomb is relocated: the bomb-cache refresh, then opening the cell. It returns whether the cell holds a bomb, keeps the invariant and the counter, opens the cell, and reveals nothing else but bomb-free cells next to a newly revealed cell with count 0. |
| MineFields.MineField.RevealFirstBomb | MineField.h:92-111 | The first bomb click: the bomb moves to the drawn pool entry, the entry leaves the pool, `firstTime` becomes true, `bombs` lists the new layout, and the cell opens without a bomb. Measured from the relocated grid, the change is a closed round of uncovering that reveals nothing else but bomb-free cells next to a newly revealed cell with count 0. |
| MineFields.MineField.OpenCell | MineField.h:109-126 | Opening a hidden cell: a bomb cell changes only by being revealed. Otherwise the cell gets its count and, if that is 0, the flood fill runs. The result is a closed round of uncovering with strictly fewer hidden cells. Every other cell it reveals holds no bomb and lies next to a newly revealed bomb-free cell with count 0. |
| MineFields.MineField.MarkRevealed | MineField.h:109-118 | The cell is revealed and counted off, and a bomb-free cell gets the neighbourhood count. |
| MineFields.MineField.RelocateBomb | MineField.h:92-106 | The clicked bomb moves to the drawn pool entry, the entry leaves the pool, `firstTime` becomes true, and the field stays well formed. |
| MineFields.MineField.Expand | MineField.h:120-126 | After the flood fill every in-grid neighbour of (x, y) is revealed. The change is a closed round of uncovering, and the counter stays in step. Every cell it reveals holds no bomb, and lies in the window around (x, y) or next to a newly revealed bomb-free cell with count 0. |
| MineFields.MineField.ExpandRow | MineField.h:122-124 | One row of the flood-fill window is revealed. Every cell it reveals holds no bomb, and lies in the window around (x, y) or next to a newly revealed bomb-free cell with count 0. |
| MineFields.MineField.CountNeighborBombs | MineField.h:112-118 | The nested scan over the clamped window returns the neighbourhood bomb count. |
| MineFields.MineField.CreateEmptyMap | MineField.h:130-136 | The map is `mapSize × mapSize` new cells, each at its own position, with no bomb. |
| MineFields.MineField.FlattenMap | MineField.h:172-179 | The pool is every position, in row-major order. |
| MineFields.MineField.AssignRandomBomb | MineField.h:181-187 | On an empty pool: returns false and changes nothing. Otherwise: erases the drawn entry and plants a bomb on it. |
| MineFields.MineField.EjectFromPool | MineField.h:97-103 | The search loop erases the first pool entry at (x, y), if there is one. |
| MineFields.MineField.GetAllBombs | MineField.h:189-196 | The cache is the bomb positions in row-major order. |
| MineFields.MineField.RevealAllBombs | MineField.h:198-202 | Exactly the cached bomb cells become revealed, nothing else changes, and the field stays well formed. |
| MineFields.MineField.CreateHBorder | MineField.h:143-148 | The line is `start`, then `max(0, 2*Size - 1)` dashes, then `end`, then a newline. |
| MinesweeperUtils.Find | Test/MinesweeperUtils.h:107 | `find` returns the first index where the splitter occurs, or reports that there is none. |
| MinesweeperUtils.SplitString | Test/MinesweeperUtils.h:104-113 | The loop returns the pieces of the specification `Split`. |
| MinesweeperUtils.SplitPiecesFree | Test/MinesweeperUtils.h:107-111 | No piece contains the splitter. |
| MinesweeperUtils.SplitJoin | Test/MinesweeperUtils.h:104-113 | Joining the pieces with the splitter gives the input back, except for the splitter consumed by a last cut that reaches the end of the string. |
| MinesweeperUtils.LastCutEndsWithSplitter | Test/MinesweeperUtils.h:111 | A splitter is lost only when the input ends with one. |
| MinesweeperUtils.SplitNonEmpty | Test/MinesweeperUtils.h:111 | The empty string gives no pieces; any other string gives at least one. |
| MinesweeperUtils.LeadingSplitter | Test/MinesweeperUtils.h:108 | A leading splitter yields an empty first piece, which is kept. |
| MinesweeperUtils.TrailingSplitter | Test/MinesweeperUtils.h:111 | A splitter that occurs only at the end is dropped, leaving a single piece. |
| MinesweeperUtils.TruncDiv | Test/MinesweeperUtils.h:125-127 | C++ `/` on `long`: the quotient truncated toward zero, non-negative for a non-negative dividend and at most 0 for a negative one. |
| MinesweeperUtils.TruncMod | Test/MinesweeperUtils.h:124-126 | C++ `%` on `long`: the remainder takes the sign of the dividend and pairs with the truncated quotient. |
| MinesweeperUtils.TimePartsOfDuration | Test/MinesweeperUtils.h:123-127 | For `seconds >= 0`: `0 <= s < 60`, `0 <= m < 60`, `h >= 0` and `h*3600 + m*60 + s == seconds`. |
| MinesweeperUtils.TimePartsSum | Test/MinesweeperUtils.h:123-127 | The parts always add back up to the input. For a negative input every part is at most 0. |
| MinesweeperUtils.TimeParts | Test/MinesweeperUtils.h:124-127 | The hours, minutes and seconds add back up to the input; for a non-negative input, seconds and minutes lie in `[0, 60)` and hours are at least 0. |
| MinesweeperUtils.NatDigits | Test/MinesweeperUtils.h:128 | `to_string` of a non-negative number is a non-empty run of decimal digits with no leading zero. |
| MinesweeperUtils.IntString | Test/MinesweeperUtils.h:128 | `to_string` of a `long`: the decimal digits, with a minus sign in front for a negative number. |
| MinesweeperUtils.ConvertTime | Test/MinesweeperUtils.h:123-129 | The text is the hours, `h`, the minutes, `m`, the seconds, `s`, with the parts from `TimeParts` and no padding; a non-negative input gives text without a minus sign. |
| MinesweeperUtils.DigitsRoundTrip | Test/MinesweeperUtils.h:128 | The decimal text reads back as the number. |
| MinesweeperUtils.ConvertTimeRoundTrip | Test/MinesweeperUtils.h:123-129 | For `seconds >= 0`, the text `<h>h<m>m<s>s` reads back as `seconds`. |

## Left out

- `render` (MineField.h:150-170) is console output. The session manager, the colour helpers and terminal input are also left out. The manager's win test is stated as the lemma `Grids.WinTest`.
- `randInt` (a Mersenne-twister draw) is replaced by the index parameters `draws` and `draw`. The model requires each drawn index to lie inside the pool it indexes, which is what the source's `randInt(flatMap.size() - 1)` produces.
- `pow(Size, 2)` is floating point in the source. It is modelled as the integer `Size*Size`.
- `int`/`long` widths are not modelled. Nothing in the modelled code overflows for a field small enough to allocate.
- The field holds its cells by reference: `map`, `flatMap` and `bombs` share the same `MineCell` objects. The model keeps one grid of cell values and stores `flatMap` and `bombs` as lists of positions. Object identity, aliasing and the never-freed allocations are not modelled.
- `loadFromData` is an empty stub, and nothing sets `flagged`. Flag toggling, save and restore do not exist in this code, so none is modelled.
- The neighbour scan clamps the loop range (MineField.h:114-115), not each neighbour; `Grids.WindowIsNeighborhood` proves no in-grid neighbour is counted twice or skipped.
- The constructor requires `FieldSize >= 0`. With a negative size `createEmptyMap` and `flattenMap` leave the pool empty, so every `assignRandomBomb` returns at MineField.h:182 without drawing, while `pow(Size, 2) - 1` can leave `bombsCount` positive: the field would claim bombs it does not hold. The only caller raises the size to at least 2 (MinesweeperGameManager.h:56), so the requirement excludes no size the program passes.
- `reveal` is split into `Reveal`, `RevealFirstBomb`, `RevealCovered`, `RelocateBomb`, `OpenCell`, `MarkRevealed`, `CountNeighborBombs`, `Expand` and `ExpandRow`. The split keeps each proof small. The branches, their order and the recursion are those of the source. The one difference is the passive-bomb guard at MineField.h:91, which runs before `firstReveal` is computed; computing it earlier has no effect.
- `firstTime` is set only on the first bomb click, as in the source. Until then every reveal refreshes `bombs`. A relocation after earlier safe clicks may therefore plant the moved bomb on a cell that is already revealed. The model allows this and proves only what still holds in that case.
- `RevealAllBombs` does not touch `unrevealedCellsCount`, as in the source. After it, the counter may disagree with the number of hidden cells, so only the field invariant is proved to hold.
- `splitString` with an empty splitter does not terminate in the source, because `find("")` always returns 0. `SplitString` therefore requires a non-empty splitter.
- `ConvertTime` does not check `long` overflow, and the model does not bound `seconds`. The round trip is proved for `seconds >= 0`; a negative input gives negative parts, whose text carries minus signs.
- `stoi`, `setInterval` and the console helpers of the utility class are foreign calls, concurrency or I/O.
- MineFields.MineField.Reveal: the bound on what a reveal uncovers is local (`WithinFlood`). Each cell uncovered besides (x, y) is bomb-free and next to a newly revealed bomb-free cell with count 0; a connected chain of such cells back to (x, y) is not stated, so a separate island of count-0 cells would not be ruled out by the contract, although the source only uncovers what is reachable from (x, y) through count-0 cells (MineField.h:120-125).
- `SplitString` and `CreateHBorder` work on `seq<char>`, so lengths in their contracts count characters, not bytes. The C++ `std::string` counts bytes (`"┌"` is 3 bytes in UTF-8). The results agree on valid UTF-8 input.
- MineFields.MineField.RevealCovered: the same local bound as `Reveal` (`WithinFlood` from the grid before the call); reachability from (x, y) through count-0 cells is not stated.
- MineFields.MineField.RevealFirstBomb: the same local bound (`WithinFlood`), measured from the grid after the bomb has moved; reachability from (x, y) through count-0 cells is not stated.
- MineFields.MineField.OpenCell: the same local bound (`WithinFlood`); reachability from (x, y) through count-0 cells is not stated.
- MineFields.MineField.Expand: the flood-fill bound is local (`SpreadFrom`): each uncovered cell is bomb-free and lies in the window around (x, y) or next to a newly revealed bomb-free cell with count 0; reachability from (x, y) through count-0 cells is not stated.
- MineFields.MineField.ExpandRow: the same local bound as `Expand` (`SpreadFrom`); reachability from (x, y) through count-0 cells is not stated.
