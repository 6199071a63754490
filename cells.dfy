/**
 * The cell record of the board engine: one per grid coordinate.
 * `position` is the grid coordinate, `kind` is the cell type, `number` the
 * adjacency count of a Number cell, and the three flags are the visible state.
 */
module Cells {

  datatype Pos = Pos(x: int, y: int)

  /** `Invalid` is what an out-of-bounds lookup yields; it is never stored in the grid. */
  datatype CellType = Invalid | Empty | Number | Mine

  datatype Cell = Cell(
    pos: Pos,
    kind: CellType,
    number: int,
    revealed: bool,
    flagged: bool,
    exploded: bool)

  /** A default-constructed cell: type Invalid at position (0, 0), every flag clear. */
  const Default: Cell := Cell(Pos(0, 0), Invalid, 0, false, false, false)

  /** The cell a new game stores at (x, y): Empty, hidden, unflagged. */
  function Fresh(x: int, y: int): (c: Cell)
    ensures c.pos == Pos(x, y) && c.kind == Empty && !c.revealed && !c.flagged && !c.exploded
  {
    Cell(Pos(x, y), Empty, 0, false, false, false)
  }

  /** Neither revealed nor flagged: what the chord and its "anything left?" test look for. */
  predicate IsOpenable(c: Cell) { !c.revealed && !c.flagged }
}
