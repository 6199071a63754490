/**
 * The board as a value: `cells[x][y]` is the cell at column x, row y, exactly as
 * the engine's `Cell[,] state` is indexed.  Out-of-bounds lookups yield the
 * default cell, and the neighbourhood queries (mine count, flag count, "anything
 * left to open") scan the 8 neighbours in the engine's fixed order.
 */
module Grids {
  import opened Cells

  /** The 8 neighbour offsets in scan order: dx outer, dy inner, each from -1 to 1, (0, 0) skipped. */
  const Offsets: seq<(int, int)> := [(-1, -1), (-1, 0), (-1, 1), (0, -1), (0, 1), (1, -1), (1, 0), (1, 1)]

  /**
   * How many offsets a nested dx/dy scan has visited when it is about to look at
   * (dx, dy); (dx, 2) is the exit of the inner loop and (2, -1) the exit of the outer one.
   */
  function Scanned(dx: int, dy: int): (k: int)
  {
    3 * (dx + 1) + (dy + 1) - (if dx > 0 || (dx == 0 && dy > 0) then 1 else 0)
  }

  lemma ScannedOffset(dx: int, dy: int)
    requires -1 <= dx <= 1 && -1 <= dy <= 1 && (dx, dy) != (0, 0)
    ensures 0 <= Scanned(dx, dy) < 8 && Offsets[Scanned(dx, dy)] == (dx, dy)
  {
  }

  datatype Grid = Grid(width: nat, height: nat, cells: seq<seq<Cell>>)
  {
    /** IsValid: the coordinate lies on the board. */
    predicate InBounds(x: int, y: int)
    {
      0 <= x < width && 0 <= y < height
    }

    /** Every column has `height` cells, and each stored cell knows its own position and is never Invalid. */
    ghost predicate Valid()
    {
      && |cells| == width
      && (forall x | 0 <= x < width :: |cells[x]| == height)
      && (forall x, y | InBounds(x, y) :: cells[x][y].pos == Pos(x, y) && cells[x][y].kind != Invalid)
    }

    function At(x: int, y: int): (c: Cell)
      requires Valid() && InBounds(x, y)
    {
      cells[x][y]
    }

    /** GetCell: the stored cell, or a default (Invalid, position (0, 0)) one off the board. */
    function Get(x: int, y: int): (c: Cell)
      requires Valid()
      ensures c.kind == Invalid <==> !InBounds(x, y)
      ensures InBounds(x, y) ==> c.pos == Pos(x, y)
      ensures !InBounds(x, y) ==> c.pos == Pos(0, 0) && !c.revealed && !c.flagged
    {
      if InBounds(x, y) then At(x, y) else Default
    }

    /** The grid after `state[x, y] = c`. */
    function Set(x: int, y: int, c: Cell): (g: Grid)
      requires Valid() && InBounds(x, y) && c.pos == Pos(x, y) && c.kind != Invalid
      ensures g.Valid() && g.width == width && g.height == height
      ensures forall i, j {:trigger g.At(i, j)} | InBounds(i, j) ::
        g.At(i, j) == if i == x && j == y then c else At(i, j)
    {
      Grid(width, height, cells[x := cells[x][y := c]])
    }

    /** c is what GetCell returns for c's own position (the sentinel counts, it is never written back). */
    predicate Holds(c: Cell)
      requires Valid()
    {
      c.kind == Invalid || (InBounds(c.pos.x, c.pos.y) && At(c.pos.x, c.pos.y) == c)
    }

    /** The 8 neighbours of (x, y) through GetCell, in scan order. */
    function Neighbours(x: int, y: int): (ns: seq<Cell>)
      requires Valid()
      ensures |ns| == 8
    {
      seq(8, k requires 0 <= k < 8 => Get(x + Offsets[k].0, y + Offsets[k].1))
    }

    /** CountMines: Mine cells among the neighbours. */
    function MinesAround(x: int, y: int): (n: nat)
      requires Valid()
    {
      MinesIn(Neighbours(x, y))
    }

    /** CountFlags: flagged cells among the neighbours. */
    function FlagsAround(x: int, y: int): (n: nat)
      requires Valid()
    {
      FlagsIn(Neighbours(x, y))
    }

    /** AnyCellsUnrevealed: some neighbour is neither revealed nor flagged. */
    predicate AnyOpenableAround(x: int, y: int)
      requires Valid()
    {
      exists k | 0 <= k < 8 :: IsOpenable(Neighbours(x, y)[k])
    }

    /** Positions on the board that are not revealed yet. */
    ghost function Hidden(): (hidden: set<Pos>)
      requires Valid()
    {
      set x, y | 0 <= x < width && 0 <= y < height && !cells[x][y].revealed :: Pos(x, y)
    }

    /** Positions on the board that hold a mine. */
    ghost function Mines(): (mines: set<Pos>)
      requires Valid()
    {
      set x, y | 0 <= x < width && 0 <= y < height && cells[x][y].kind == Mine :: Pos(x, y)
    }
  }

  /** Number of Mine cells in s. */
  function MinesIn(s: seq<Cell>): (n: nat)
    ensures n <= |s|
  {
    if s == [] then 0 else MinesIn(s[..|s| - 1]) + (if s[|s| - 1].kind == Mine then 1 else 0)
  }

  /** Number of flagged cells in s. */
  function FlagsIn(s: seq<Cell>): (n: nat)
    ensures n <= |s|
  {
    if s == [] then 0 else FlagsIn(s[..|s| - 1]) + (if s[|s| - 1].flagged then 1 else 0)
  }

  lemma {:induction false} MinesInPositive(s: seq<Cell>)
    ensures MinesIn(s) > 0 <==> exists i | 0 <= i < |s| :: s[i].kind == Mine
  {
    if s != [] {
      var t := s[..|s| - 1];
      MinesInPositive(t);
      if exists i | 0 <= i < |t| :: t[i].kind == Mine {
        var i :| 0 <= i < |t| && t[i].kind == Mine;
        assert s[i].kind == Mine;
      }
    }
  }

  /**
   * The scan visits (dx, dy) at neighbour index Scanned(dx, dy), after which it
   * has seen one more neighbour.
   */
  lemma ScanStep(g: Grid, x: int, y: int, dx: int, dy: int)
    requires g.Valid() && -1 <= dx <= 1 && -1 <= dy <= 1 && (dx, dy) != (0, 0)
    ensures 0 <= Scanned(dx, dy) < 8 && Scanned(dx, dy + 1) == Scanned(dx, dy) + 1
    ensures g.Neighbours(x, y)[Scanned(dx, dy)] == g.Get(x + dx, y + dy)
  {
    ScannedOffset(dx, dy);
  }

  /** One step of the CountMines scan: the count so far plus the cell c at (dx, dy). */
  lemma MineScanStep(g: Grid, x: int, y: int, dx: int, dy: int, c: Cell)
    requires g.Valid() && -1 <= dx <= 1 && -1 <= dy <= 1 && (dx, dy) != (0, 0)
    requires c == g.Get(x + dx, y + dy)
    ensures 0 <= Scanned(dx, dy) < 8 && Scanned(dx, dy + 1) == Scanned(dx, dy) + 1
    ensures MinesIn(g.Neighbours(x, y)[..Scanned(dx, dy + 1)]) ==
      MinesIn(g.Neighbours(x, y)[..Scanned(dx, dy)]) + (if c.kind == Mine then 1 else 0)
  {
    ScanStep(g, x, y, dx, dy);
    assert g.Neighbours(x, y)[..Scanned(dx, dy + 1)][..Scanned(dx, dy)] == g.Neighbours(x, y)[..Scanned(dx, dy)];
  }

  /** One step of the CountFlags scan: the count so far plus the cell c at (dx, dy). */
  lemma FlagScanStep(g: Grid, x: int, y: int, dx: int, dy: int, c: Cell)
    requires g.Valid() && -1 <= dx <= 1 && -1 <= dy <= 1 && (dx, dy) != (0, 0)
    requires c == g.Get(x + dx, y + dy)
    ensures 0 <= Scanned(dx, dy) < 8 && Scanned(dx, dy + 1) == Scanned(dx, dy) + 1
    ensures FlagsIn(g.Neighbours(x, y)[..Scanned(dx, dy + 1)]) ==
      FlagsIn(g.Neighbours(x, y)[..Scanned(dx, dy)]) + (if c.flagged then 1 else 0)
  {
    ScanStep(g, x, y, dx, dy);
    assert g.Neighbours(x, y)[..Scanned(dx, dy + 1)][..Scanned(dx, dy)] == g.Neighbours(x, y)[..Scanned(dx, dy)];
  }

  lemma {:induction false} MinesInAgree(s: seq<Cell>, t: seq<Cell>)
    requires |s| == |t| && forall i | 0 <= i < |s| :: (s[i].kind == Mine) == (t[i].kind == Mine)
    ensures MinesIn(s) == MinesIn(t)
  {
    if s != [] {
      MinesInAgree(s[..|s| - 1], t[..|t| - 1]);
    }
  }

  /** Two distinct positions at most one step apart in each direction. */
  predicate Adjacent(a: Pos, b: Pos)
  {
    a != b && -1 <= a.x - b.x <= 1 && -1 <= a.y - b.y <= 1
  }

  /** The neighbour scan visits exactly the positions adjacent to (x, y). */
  lemma NeighbourOffset(x: int, y: int, q: Pos)
    requires Adjacent(q, Pos(x, y))
    ensures Offsets[Scanned(q.x - x, q.y - y)] == (q.x - x, q.y - y)
  {
    ScannedOffset(q.x - x, q.y - y);
  }

  /**
   * The adjacency number is positive exactly when some on-board neighbour is a
   * mine: the default cells seen off the board never count.
   */
  lemma MinesAroundPositive(g: Grid, x: int, y: int)
    requires g.Valid()
    ensures g.MinesAround(x, y) > 0 <==>
      exists i, j | g.InBounds(i, j) && Adjacent(Pos(i, j), Pos(x, y)) :: g.At(i, j).kind == Mine
  {
    var ns := g.Neighbours(x, y);
    MinesInPositive(ns);
    if g.MinesAround(x, y) > 0 {
      var k :| 0 <= k < 8 && ns[k].kind == Mine;
      MineNeighbourOnBoard(g, x, y, k);
    }
    if exists i, j | g.InBounds(i, j) && Adjacent(Pos(i, j), Pos(x, y)) :: g.At(i, j).kind == Mine {
      var i, j :| g.InBounds(i, j) && Adjacent(Pos(i, j), Pos(x, y)) && g.At(i, j).kind == Mine;
      AdjacentMineCounts(g, x, y, i, j);
    }
  }

  lemma AdjacentMineCounts(g: Grid, x: int, y: int, i: int, j: int)
    requires g.Valid() && g.InBounds(i, j) && Adjacent(Pos(i, j), Pos(x, y)) && g.At(i, j).kind == Mine
    ensures g.MinesAround(x, y) > 0
  {
    var ns := g.Neighbours(x, y);
    NeighbourOffset(x, y, Pos(i, j));
    var k := Scanned(i - x, j - y);
    assert ns[k] == g.Get(i, j);
    MinesInPositive(ns);
  }

  lemma MineNeighbourOnBoard(g: Grid, x: int, y: int, k: nat)
    requires g.Valid() && k < 8 && g.Neighbours(x, y)[k].kind == Mine
    ensures var i, j := x + Offsets[k].0, y + Offsets[k].1;
      g.InBounds(i, j) && Adjacent(Pos(i, j), Pos(x, y)) && g.At(i, j).kind == Mine
  {
    assert g.Neighbours(x, y)[k] == g.Get(x + Offsets[k].0, y + Offsets[k].1);
  }

  /**
   * The default cell off the board is neither revealed nor flagged, so every cell
   * on the border always has "something left to open" around it.
   */
  lemma BorderLooksOpenable(g: Grid, x: int, y: int)
    requires g.Valid() && g.InBounds(x, y)
    requires x == 0 || y == 0 || x == g.width - 1 || y == g.height - 1
    ensures g.AnyOpenableAround(x, y)
  {
    var ns := g.Neighbours(x, y);
    var k := if x == 0 then 0 else if y == 0 then 3 else if x == g.width - 1 then 7 else 4;
    assert IsOpenable(ns[k]);
  }

  /** Same board shape, and each cell keeps its position, type and number. */
  ghost predicate SameLayout(g: Grid, r: Grid)
    requires g.Valid() && r.Valid()
  {
    && g.width == r.width && g.height == r.height
    && forall x, y | g.InBounds(x, y) ::
         r.At(x, y).kind == g.At(x, y).kind && r.At(x, y).number == g.At(x, y).number
  }

  lemma SameLayoutTrans(a: Grid, b: Grid, c: Grid)
    requires a.Valid() && b.Valid() && c.Valid() && SameLayout(a, b) && SameLayout(b, c)
    ensures SameLayout(a, c)
  {
  }

  /** The adjacency counts and the mine set depend on the layout only. */
  lemma SameLayoutSameMines(g: Grid, r: Grid)
    requires g.Valid() && r.Valid() && SameLayout(g, r)
    ensures g.Mines() == r.Mines()
    ensures forall x, y :: g.MinesAround(x, y) == r.MinesAround(x, y)
  {
    forall p ensures p in g.Mines() <==> p in r.Mines() {
      if p in g.Mines() || p in r.Mines() {
        assert g.InBounds(p.x, p.y);
      }
    }
    forall x, y ensures g.MinesAround(x, y) == r.MinesAround(x, y) {
      MinesInAgree(g.Neighbours(x, y), r.Neighbours(x, y));
    }
  }

  // ---------------------------------------------------------------------------
  // A row-major pass that rewrites every cell
  // ---------------------------------------------------------------------------

  /** f keeps each cell's position and type, so a board rewritten by f stays well formed. */
  ghost predicate KeepsShape(f: Cell -> Cell)
  {
    forall c :: f(c).pos == c.pos && f(c).kind == c.kind
  }

  /** The cell at (i, j) once a pass over columns, rows within them, has applied f to every cell before (x, y). */
  function MappedCell(g: Grid, f: Cell -> Cell, x: int, y: int, i: int, j: int): (c: Cell)
    requires g.Valid() && g.InBounds(i, j) && KeepsShape(f)
    ensures c.pos == Pos(i, j) && c.kind == g.At(i, j).kind
  {
    if i < x || (i == x && j < y) then f(g.At(i, j)) else g.At(i, j)
  }

  /** The board once the pass has reached (x, y); MapBefore(g, f, g.width, 0) is the finished pass. */
  function MapBefore(g: Grid, f: Cell -> Cell, x: int, y: int): (r: Grid)
    requires g.Valid() && KeepsShape(f)
    ensures r.Valid() && r.width == g.width && r.height == g.height
    ensures forall i, j | g.InBounds(i, j) :: r.At(i, j) == MappedCell(g, f, x, y, i, j)
  {
    Grid(g.width, g.height,
      seq(g.width, i requires 0 <= i < g.width =>
        seq(g.height, j requires 0 <= j < g.height => MappedCell(g, f, x, y, i, j))))
  }

  lemma MapBeforeStart(g: Grid, f: Cell -> Cell)
    requires g.Valid() && KeepsShape(f)
    ensures MapBefore(g, f, 0, 0) == g
  {
    GridExt(MapBefore(g, f, 0, 0), g);
  }

  /** Visiting (x, y) writes f of the original cell there; a cell f leaves alone needs no write. */
  lemma MapBeforeStep(g: Grid, f: Cell -> Cell, x: int, y: int)
    requires g.Valid() && KeepsShape(f) && g.InBounds(x, y)
    ensures MapBefore(g, f, x, y).At(x, y) == g.At(x, y)
    ensures MapBefore(g, f, x, y + 1) == MapBefore(g, f, x, y).Set(x, y, f(g.At(x, y)))
    ensures f(g.At(x, y)) == g.At(x, y) ==> MapBefore(g, f, x, y + 1) == MapBefore(g, f, x, y)
  {
    GridExt(MapBefore(g, f, x, y + 1), MapBefore(g, f, x, y).Set(x, y, f(g.At(x, y))));
    if f(g.At(x, y)) == g.At(x, y) {
      GridExt(MapBefore(g, f, x, y + 1), MapBefore(g, f, x, y));
    }
  }

  /** The end of one column is the start of the next. */
  lemma MapBeforeColumn(g: Grid, f: Cell -> Cell, x: int)
    requires g.Valid() && KeepsShape(f)
    ensures MapBefore(g, f, x, g.height) == MapBefore(g, f, x + 1, 0)
  {
    GridExt(MapBefore(g, f, x, g.height), MapBefore(g, f, x + 1, 0));
  }

  /** Grids of one shape are equal when they agree cell by cell. */
  lemma GridExt(a: Grid, b: Grid)
    requires a.Valid() && b.Valid() && a.width == b.width && a.height == b.height
    requires forall x, y | a.InBounds(x, y) :: a.At(x, y) == b.At(x, y)
    ensures a == b
  {
    forall x | 0 <= x < a.width ensures a.cells[x] == b.cells[x] {
      assert forall y | 0 <= y < a.height :: a.cells[x][y] == a.At(x, y);
    }
  }
}
