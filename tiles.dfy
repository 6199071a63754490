/**
 * The board's tile selection: which of the thirteen tiles a cell is drawn
 * with.  A hidden cell shows the flag or the unknown tile; a revealed one
 * shows its contents.  The two error cases (a revealed Invalid cell, a
 * Number cell whose count is not 1 to 8) yield no tile.
 */
module Tiles {
  import opened Cells
  import opened Grids
  import Engine

  datatype Option<T> = None | Some(value: T)

  datatype Tile = Unknown | EmptyTile | MineTile | Exploded | FlagTile | Num(n: int)

  /** GetNumberTile: the numbered tile for a count from 1 to 8, none otherwise. */
  function GetNumberTile(cell: Cell): (t: Option<Tile>)
    ensures t.Some? <==> 1 <= cell.number <= 8
    ensures t.Some? ==> t.value == Num(cell.number)
  {
    match cell.number
    case 1 => Some(Num(1))
    case 2 => Some(Num(2))
    case 3 => Some(Num(3))
    case 4 => Some(Num(4))
    case 5 => Some(Num(5))
    case 6 => Some(Num(6))
    case 7 => Some(Num(7))
    case 8 => Some(Num(8))
    case _ => None
  }

  /** GetRevealedTile: the tile of a revealed cell, by its type. */
  function GetRevealedTile(cell: Cell): (t: Option<Tile>)
    ensures cell.kind == Empty ==> t == Some(EmptyTile)
    ensures cell.kind == Mine ==> t == Some(if cell.exploded then Exploded else MineTile)
    ensures cell.kind == Number ==> (t.Some? <==> 1 <= cell.number <= 8)
    ensures t.Some? && t.value.Num? <==> cell.kind == Number && 1 <= cell.number <= 8
    ensures t.Some? && t.value.Num? ==> t.value.n == cell.number
    ensures cell.kind == Invalid ==> t == None
  {
    match cell.kind
    case Empty => Some(EmptyTile)
    case Mine => if cell.exploded then Some(Exploded) else Some(MineTile)
    case Number => GetNumberTile(cell)
    case Invalid => None
  }

  /** GetTile: the revealed tile of a revealed cell, else the flag, else the unknown tile. */
  function GetTile(cell: Cell): (t: Option<Tile>)
    ensures !cell.revealed ==> t == Some(if cell.flagged then FlagTile else Unknown)
    ensures t == None <==>
      cell.revealed && (cell.kind == Invalid || (cell.kind == Number && !(1 <= cell.number <= 8)))
  {
    if cell.revealed then GetRevealedTile(cell)
    else if cell.flagged then Some(FlagTile)
    else Some(Unknown)
  }

  /** A revealed cell is drawn the same whether or not it still carries a flag. */
  lemma RevealedIgnoresFlag(cell: Cell, flagged: bool)
    requires cell.revealed
    ensures GetTile(cell.(flagged := flagged)) == GetTile(cell)
  {
  }

  /**
   * What a tile tells about the cell: each tile is shown for exactly one kind
   * of visible state, so the drawn board can be read back.
   */
  lemma TileMeaning(cell: Cell, t: Tile)
    requires GetTile(cell) == Some(t)
    ensures t == Unknown <==> !cell.revealed && !cell.flagged
    ensures t == FlagTile <==> !cell.revealed && cell.flagged
    ensures t == EmptyTile <==> cell.revealed && cell.kind == Empty
    ensures t == MineTile <==> cell.revealed && cell.kind == Mine && !cell.exploded
    ensures t == Exploded <==> cell.revealed && cell.kind == Mine && cell.exploded
    ensures t.Num? <==> cell.revealed && cell.kind == Number
    ensures t.Num? ==> t.n == cell.number && 1 <= t.n <= 8
  {
  }

  /** An adjacency count never exceeds the eight neighbours. */
  lemma MinesAroundAtMostEight(g: Grid, x: int, y: int)
    requires g.Valid()
    ensures g.MinesAround(x, y) <= 8
  {
    assert |g.Neighbours(x, y)| == 8;
  }

  /**
   * Every cell of a board the engine holds has a tile: before the first click
   * the cells are Empty, after it every Number cell carries a count from 1 to
   * 8, and no stored cell is Invalid, so drawing never takes an error path.
   */
  lemma EngineBoardDrawable(g: Grid, over: bool, first: bool, mineCount: nat)
    requires g.Valid() && Engine.Invariant(g, over, first, mineCount)
    ensures forall x, y | g.InBounds(x, y) :: GetTile(g.At(x, y)).Some?
  {
    forall x, y | g.InBounds(x, y) ensures GetTile(g.At(x, y)).Some? {
      if !first && g.At(x, y).kind == Number {
        assert g.At(x, y).number == g.MinesAround(x, y);
        MinesAroundAtMostEight(g, x, y);
      }
    }
  }
}
