/** One square of the Minesweeper field (MineCell.h). */
module MineCells {

  /** The cell record. `x` and `y` are the row and column it was created at; the field engine
      later sets `revealed`, `hasBomb` and `neighborBombsCount` in place. */
  datatype MineCell = MineCell(
    x: int,
    y: int,
    hasBomb: bool,
    revealed: bool,
    flagged: bool,
    neighborBombsCount: int)

  /** The record's constructor: the position and bomb bit as given, everything else cleared. */
  function NewMineCell(xPos: int, yPos: int, cellHasBomb: bool): (c: MineCell)
    ensures c.x == xPos && c.y == yPos
    ensures c.hasBomb == cellHasBomb
    ensures !c.revealed && !c.flagged
    ensures c.neighborBombsCount == 0
  {
    MineCell(xPos, yPos, cellHasBomb, false, false, 0)
  }
}
