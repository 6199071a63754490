/**
 * The game manager: it owns the board `state`, a `Cell[width, height]` array,
 * and the two flags `gameOver` and `firstClick`.  Each method updates the
 * array in place as the engine does, and is specified by the pure board
 * functions of Setup and Play applied to the board before the call; the
 * ghost field `grid` is the board the array holds, as a value.
 */
module Engine {
  import opened Cells
  import opened Grids
  import opened Setup
  import opened Play

  // ---------------------------------------------------------------------------
  // The game invariant on board values
  // ---------------------------------------------------------------------------

  /**
   * At most one (mine) cell exploded and then every mine is shown; a running
   * game has no explosion; before the first click the board has no mines and
   * nothing revealed; after it, the board holds mineCount mines and every
   * other cell its adjacency number.
   */
  ghost predicate Invariant(g: Grid, over: bool, first: bool, mineCount: nat)
    requires g.Valid()
  {
    && OneExplosion(g)
    && (!over ==> NoExplosion(g))
    && (first ==> Pristine(g) && !over)
    && (!first ==> Annotated(g) && |g.Mines()| == mineCount)
  }

  lemma FreshGridInvariant(w: nat, h: nat, mineCount: nat)
    ensures Invariant(FreshGrid(w, h), false, true, mineCount)
    ensures forall x, y | FreshGrid(w, h).InBounds(x, y) :: !FreshGrid(w, h).At(x, y).flagged
  {
    FreshGridPristine(w, h);
  }

  /** A board that differs from g in flags only satisfies the invariant when g does. */
  lemma FlagsOnlyKeepInvariant(g: Grid, r: Grid, over: bool, first: bool, mineCount: nat)
    requires g.Valid() && r.Valid() && g.width == r.width && g.height == r.height
    requires forall i, j | g.InBounds(i, j) :: r.At(i, j) == g.At(i, j).(flagged := r.At(i, j).flagged)
    requires Invariant(g, over, first, mineCount)
    ensures Invariant(r, over, first, mineCount)
  {
    assert SameLayout(g, r);
    if !first {
      AnnotatedLayout(g, r);
    }
  }

  /** Flagging keeps the invariant, before the first click as after it. */
  lemma ToggleKeepsInvariant(g: Grid, over: bool, first: bool, mineCount: nat, x: int, y: int)
    requires g.Valid() && Invariant(g, over, first, mineCount)
    ensures Invariant(Toggle(g, x, y), over, first, mineCount)
  {
    var c := g.Get(x, y);
    if c.kind != Invalid && !c.revealed {
      var r := g.Set(x, y, c.(flagged := !c.flagged));
      assert Toggle(g, x, y) == r;
      FlagsOnlyKeepInvariant(g, r, over, first, mineCount);
    }
  }

  /** A reveal after the first click keeps the invariant. */
  lemma RevealKeepsInvariant(g: Grid, over: bool, mineCount: nat, x: int, y: int)
    requires g.Valid() && Invariant(g, over, false, mineCount)
    ensures Invariant(RevealAt(g, over, x, y).0, RevealAt(g, over, x, y).1, false, mineCount)
  {
    RevealAtKeepsOneExplosion(g, over, x, y);
    RevealAtLayout(g, over, x, y);
    AnnotatedLayout(g, RevealAt(g, over, x, y).0);
  }

  /** The chord keeps the invariant; before the first click nothing is revealed, so it does nothing. */
  lemma ChordKeepsInvariant(g: Grid, over: bool, first: bool, mineCount: nat, x: int, y: int)
    requires g.Valid() && Invariant(g, over, first, mineCount)
    ensures Invariant(Chord(g, over, x, y).0, Chord(g, over, x, y).1, first, mineCount)
    ensures first ==> Chord(g, over, x, y) == (g, over)
  {
    if first {
      ChordNoop(g, over, x, y);
    } else {
      ChordKeepsOneExplosion(g, over, x, y);
      ChordLayout(g, over, x, y);
      AnnotatedLayout(g, Chord(g, over, x, y).0);
    }
  }

  /**
   * What the first click needs on a w by h board: one on-board pick per mine,
   * and at least mineCount cells outside the start range of (x, y); with
   * fewer, the probe of GenerateMines never stops.
   */
  ghost predicate PicksFit(w: nat, h: nat, mineCount: nat, x: int, y: int, picks: seq<Pos>)
  {
    var g := FreshGrid(w, h);
    && |picks| == mineCount
    && (forall i | 0 <= i < |picks| :: g.InBounds(picks[i].x, picks[i].y))
    && mineCount <= |Eligibles(g, g.Get(x, y))|
  }

  /** Flags aside, boards without mines offer a first click at one position the same cells. */
  lemma PristineEligibles(g: Grid, r: Grid, s: Cell, t: Cell)
    requires g.Valid() && r.Valid() && g.width == r.width && g.height == r.height
    requires Pristine(g) && Pristine(r) && s.pos == t.pos
    ensures Eligibles(g, s) == Eligibles(r, t)
  {
    forall p: Pos | p in Eligibles(g, s) ensures p in Eligibles(r, t) {
      PristineEligible(g, r, s, t, p);
    }
    forall p: Pos | p in Eligibles(r, t) ensures p in Eligibles(g, s) {
      PristineEligible(g, r, s, t, p);
    }
  }

  lemma PristineEligible(g: Grid, r: Grid, s: Cell, t: Cell, p: Pos)
    requires g.Valid() && r.Valid() && g.width == r.width && g.height == r.height
    requires Pristine(g) && Pristine(r) && s.pos == t.pos
    ensures Eligible(g, s, p) == Eligible(r, t, p)
  {
    if g.InBounds(p.x, p.y) {
      var c, d := g.At(p.x, p.y), r.At(p.x, p.y);
      assert c.kind == Empty && d.kind == Empty;
      StartRangeSizeOnly(g, r, s, c);
      StartRangeByPos(r, s, t, c, d);
    }
  }

  /**
   * The first click places mineCount mines and numbers the board, which then
   * satisfies the invariant of a game in progress.
   */
  lemma FirstClickInvariant(g: Grid, mineCount: nat, x: int, y: int, picks: seq<Pos>)
    requires g.Valid() && Invariant(g, false, true, mineCount)
    requires |picks| == mineCount && forall i | 0 <= i < |picks| :: g.InBounds(picks[i].x, picks[i].y)
    requires mineCount <= |Eligibles(g, g.Get(x, y))|
    ensures Invariant(Numbered(WithMines(g, Placements(g, g.Get(x, y), picks))), false, false, mineCount)
  {
    var ps := Placements(g, g.Get(x, y), picks);
    FirstClickMineCount(g, g.Get(x, y), picks);
    SetupQuiet(g, ps);
  }

  /** The first click's setup places exactly one mine per pick. */
  lemma FirstClickMineCount(g: Grid, s: Cell, picks: seq<Pos>)
    requires g.Valid() && Pristine(g)
    requires forall i | 0 <= i < |picks| :: g.InBounds(picks[i].x, picks[i].y)
    requires |picks| <= |Eligibles(g, s)|
    ensures |Numbered(WithMines(g, Placements(g, s, picks))).Mines()| == |picks|
  {
    var ps := Placements(g, s, picks);
    PlacementsInTurn(g, s, picks);
    WithMinesCount(g, s, ps);
    PristineNoMines(g);
    PristineSetupCounts(g, ps);
  }

  /** Setting up a pristine board leaves it annotated and with nothing exploded. */
  lemma SetupQuiet(g: Grid, ps: seq<Pos>)
    requires g.Valid() && Pristine(g)
    ensures var n := Numbered(WithMines(g, ps));
      Annotated(n) && NoExplosion(n) && OneExplosion(n)
  {
    PristineSetupCounts(g, ps);
    SetupKeepsStatus(g, ps);
  }

  lemma PristineNoMines(g: Grid)
    requires g.Valid() && Pristine(g)
    ensures g.Mines() == {}
  {
    forall x, y | g.InBounds(x, y) ensures g.cells[x][y].kind != Mine {
      assert g.At(x, y).kind == Empty;
    }
  }

  /** Before the first click, the picks that fit a fresh board fit the board of the game. */
  lemma FirstClickPicks(g: Grid, over: bool, mineCount: nat, x: int, y: int, picks: seq<Pos>)
    requires g.Valid() && Invariant(g, over, true, mineCount)
    requires PicksFit(g.width, g.height, mineCount, x, y, picks)
    ensures !over && |picks| == mineCount
    ensures forall i | 0 <= i < |picks| :: g.InBounds(picks[i].x, picks[i].y)
    ensures mineCount <= |Eligibles(g, g.Get(x, y))|
  {
    var f := FreshGrid(g.width, g.height);
    FreshGridInvariant(g.width, g.height, mineCount);
    PristineEligibles(g, f, g.Get(x, y), f.Get(x, y));
  }

  /**
   * What the first click gives: the board after placing and numbering the
   * mines keeps the invariant of a game in progress, and revealing the
   * clicked cell, when it is on the board and not flagged, opens it as an
   * Empty cell without an explosion.
   */
  lemma FirstClickSetup(g: Grid, over: bool, mineCount: nat, x: int, y: int, picks: seq<Pos>)
    requires g.Valid() && Invariant(g, over, true, mineCount)
    requires PicksFit(g.width, g.height, mineCount, x, y, picks)
    ensures var n := Numbered(WithMines(g, Placements(g, g.Get(x, y), picks)));
      && Invariant(n, false, false, mineCount)
      && (g.InBounds(x, y) && !g.At(x, y).flagged ==>
            var r := RevealAt(n, false, x, y).0;
            r.At(x, y).revealed && r.At(x, y).kind == Empty && NoExplosion(r))
  {
    FirstClickPicks(g, over, mineCount, x, y, picks);
    FirstClickInvariant(g, mineCount, x, y, picks);
    if g.InBounds(x, y) && !g.At(x, y).flagged {
      PlacementsInTurn(g, g.Get(x, y), picks);
      FirstRevealOpens(g, x, y, Placements(g, g.Get(x, y), picks));
    }
  }

  /**
   * A first left click off the board still sets the game up: GetCell gives the
   * default cell at (0, 0), so the mines are placed around (0, 0), which stays
   * free of mines, and the reveal that follows does nothing.
   */
  lemma OffBoardClickSparesOrigin(g: Grid, over: bool, mineCount: nat, x: int, y: int, picks: seq<Pos>)
    requires g.Valid() && Invariant(g, over, true, mineCount)
    requires PicksFit(g.width, g.height, mineCount, x, y, picks) && !g.InBounds(x, y)
    ensures var n := Numbered(WithMines(g, Placements(g, g.Get(x, y), picks)));
      && RevealAt(n, false, x, y) == (n, false)
      && (g.InBounds(0, 0) ==> n.At(0, 0).kind != Mine)
  {
    FirstClickPicks(g, over, mineCount, x, y, picks);
    var ps := Placements(g, g.Get(x, y), picks);
    PlacementsInTurn(g, g.Get(x, y), picks);
    SetupSparesOrigin(g, g.Get(x, y), ps);
    OffBoardRevealNoop(Numbered(WithMines(g, ps)), x, y);
  }

  /** Mines placed in turn around a start cell reported at (0, 0) leave (0, 0) free after numbering. */
  lemma SetupSparesOrigin(g: Grid, startCell: Cell, ps: seq<Pos>)
    requires g.Valid() && Pristine(g) && startCell.pos == Pos(0, 0)
    requires PlacedInTurn(g, startCell, ps)
    ensures g.InBounds(0, 0) ==> Numbered(WithMines(g, ps)).At(0, 0).kind != Mine
  {
    WithMinesSpareStart(g, startCell, ps);
    if g.InBounds(0, 0) {
      assert InStartRange(g, startCell, g.At(0, 0));
      NumberedAnnotated(WithMines(g, ps));
    }
  }

  /** Revealing off the board changes nothing. */
  lemma OffBoardRevealNoop(g: Grid, x: int, y: int)
    requires g.Valid() && !g.InBounds(x, y)
    ensures RevealAt(g, false, x, y) == (g, false)
  {
  }

  /** Numbering a board whose mines were placed on a pristine one annotates it and keeps the mines. */
  lemma PristineSetupCounts(g: Grid, ps: seq<Pos>)
    requires g.Valid() && Pristine(g)
    ensures Annotated(Numbered(WithMines(g, ps)))
    ensures Numbered(WithMines(g, ps)).Mines() == WithMines(g, ps).Mines()
  {
    NumberedAnnotated(WithMines(g, ps));
  }

  /** Placing mines and numbering change only types and numbers. */
  lemma SetupKeepsStatus(g: Grid, ps: seq<Pos>)
    requires g.Valid()
    ensures forall i, j | g.InBounds(i, j) ::
      var c := Numbered(WithMines(g, ps)).At(i, j);
      c.revealed == g.At(i, j).revealed && c.flagged == g.At(i, j).flagged && c.exploded == g.At(i, j).exploded
  {
  }

  /** After the first click's setup, the clicked cell is a hidden, unflagged Empty cell and nothing has exploded. */
  lemma FirstBoard(g: Grid, x: int, y: int, ps: seq<Pos>)
    requires g.Valid() && Pristine(g) && g.InBounds(x, y) && !g.At(x, y).flagged
    requires PlacedInTurn(g, g.At(x, y), ps)
    ensures var n := Numbered(WithMines(g, ps));
      && n.At(x, y).kind == Empty && !n.At(x, y).revealed && !n.At(x, y).flagged
      && NoExplosion(n)
  {
    FirstClickEmpty(g, x, y, ps);
    SetupKeepsStatus(g, ps);
  }

  /** Revealing a hidden, unflagged Empty cell opens it and explodes nothing. */
  lemma RevealEmptyOpens(n: Grid, x: int, y: int)
    requires n.Valid() && n.InBounds(x, y) && NoExplosion(n)
    requires n.At(x, y).kind == Empty && !n.At(x, y).revealed && !n.At(x, y).flagged
    ensures var r := RevealAt(n, false, x, y).0;
      r.At(x, y).revealed && r.At(x, y).kind == Empty && NoExplosion(r)
  {
    var c := n.At(x, y);
    var f := Flood(n, c);
    FloodFacts(n, c);
    CheckWinValid(f, false);
    assert RevealAt(n, false, x, y) == CheckWin(f, false);
  }

  /**
   * The first reveal of a game opens the clicked cell: after the mines are
   * placed around it and the board is numbered, revealing an on-board,
   * unflagged start cell uncovers it as an Empty cell and explodes nothing.
   */
  lemma FirstRevealOpens(g: Grid, x: int, y: int, ps: seq<Pos>)
    requires g.Valid() && Pristine(g) && g.InBounds(x, y) && !g.At(x, y).flagged
    requires PlacedInTurn(g, g.At(x, y), ps)
    ensures var r := RevealAt(Numbered(WithMines(g, ps)), false, x, y).0;
      r.At(x, y).revealed && r.At(x, y).kind == Empty && NoExplosion(r)
  {
    FirstBoard(g, x, y, ps);
    RevealEmptyOpens(Numbered(WithMines(g, ps)), x, y);
  }

  // ---------------------------------------------------------------------------
  // Steps of the loops
  // ---------------------------------------------------------------------------

  /**
   * One turn of the probe loop: a cell the loop passes is not where the probe
   * stops, so fuel is left, and the probe goes on from the next cell, one
   * column to the right or the start of the next row, wrapping to (0, 0).
   */
  lemma ProbeStep(g: Grid, startCell: Cell, p: Pos, c: Cell, fuel: nat, hit: Pos)
    requires g.Valid() && g.InBounds(p.x, p.y) && c == g.At(p.x, p.y)
    requires c.kind == Mine || InStartRange(g, startCell, c)
    requires ProbeFrom(g, startCell, p, fuel) == hit && Eligible(g, startCell, hit)
    ensures fuel > 0 && ProbeFrom(g, startCell, Next(g, p), fuel - 1) == hit
    ensures g.InBounds(Next(g, p).x, Next(g, p).y)
  {
  }

  /** The probe loop stops at the first cell that is neither a mine nor in the start range: where the probe stops. */
  lemma ProbeStop(g: Grid, startCell: Cell, p: Pos, c: Cell, fuel: nat, hit: Pos)
    requires g.Valid() && g.InBounds(p.x, p.y) && c == g.At(p.x, p.y)
    requires c.kind != Mine && !InStartRange(g, startCell, c)
    requires ProbeFrom(g, startCell, p, fuel) == hit
    ensures p == hit
  {
  }

  /** The placements for one more pick extend the placements so far. */
  lemma PlacementsStep(g: Grid, startCell: Cell, picks: seq<Pos>, i: nat)
    requires g.Valid() && i < |picks|
    ensures var fp := Placements(g, startCell, picks[..i]);
      WithMines(g, Placements(g, startCell, picks[..i + 1])) ==
      SetMine(WithMines(g, fp), Probe(WithMines(g, fp), startCell, picks[i]))
  {
    assert picks[..i + 1][..i] == picks[..i];
  }

  class GameManager {
    const width: nat
    const height: nat
    const mineCount: nat

    var state: array2<Cell>
    var gameOver: bool
    var firstClick: bool

    /** The board the array holds. */
    ghost var grid: Grid

    /** The array has the board's size and holds `grid` cell by cell. */
    ghost predicate Shaped()
      reads `state, `grid, state
    {
      && state.Length0 == width && state.Length1 == height
      && grid.Valid() && grid.width == width && grid.height == height
      && forall x, y | 0 <= x < width && 0 <= y < height :: state[x, y] == grid.At(x, y)
    }

    /** The array holds a board that keeps the game invariant, with no more mines than cells. */
    ghost predicate Valid()
      reads this, state
    {
      mineCount <= width * height && Shaped() && Invariant(grid, gameOver, firstClick, mineCount)
    }

    // -------------------------------------------------------------------------
    // Lookups
    // -------------------------------------------------------------------------

    predicate IsValid(x: int, y: int)
    {
      x >= 0 && x < width && y >= 0 && y < height
    }

    function GetCell(x: int, y: int): (c: Cell)
      reads `state, `grid, state
      requires Shaped()
      ensures c == grid.Get(x, y)
      ensures c.kind == Invalid <==> !IsValid(x, y)
    {
      if IsValid(x, y) then state[x, y] else Default
    }

    function InStartRange(startCell: Cell, checkCell: Cell): (r: bool)
      reads `state, `grid, state
      requires Shaped()
      ensures r == Setup.InStartRange(grid, startCell, checkCell)
    {
      var s := startCell.pos;
      || checkCell.pos == s
      || checkCell.pos == GetCell(s.x - 1, s.y).pos
      || checkCell.pos == GetCell(s.x + 1, s.y).pos
      || checkCell.pos == GetCell(s.x, s.y - 1).pos
      || checkCell.pos == GetCell(s.x, s.y + 1).pos
      || checkCell.pos == GetCell(s.x + 1, s.y + 1).pos
      || checkCell.pos == GetCell(s.x + 1, s.y - 1).pos
      || checkCell.pos == GetCell(s.x - 1, s.y + 1).pos
      || checkCell.pos == GetCell(s.x - 1, s.y - 1).pos
    }

    /** `state[x, y] = c` for a cell that belongs at (x, y). */
    method Store(x: int, y: int, c: Cell)
      requires Shaped() && IsValid(x, y) && c.pos == Pos(x, y) && c.kind != Invalid
      modifies state, `grid
      ensures Shaped() && grid == old(grid).Set(x, y, c)
    {
      state[x, y] := c;
      grid := grid.Set(x, y, c);
    }

    // -------------------------------------------------------------------------
    // Neighbourhood scans
    // -------------------------------------------------------------------------

    method CountMines(cellX: int, cellY: int) returns (count: nat)
      requires Shaped()
      ensures count == grid.MinesAround(cellX, cellY)
    {
      ghost var ns := grid.Neighbours(cellX, cellY);
      ghost var k := 0;
      count := 0;
      for adjacentX := -1 to 2
        invariant k == Scanned(adjacentX, -1) && 0 <= k <= 8
        invariant count == MinesIn(ns[..k])
      {
        for adjacentY := -1 to 2
          invariant k == Scanned(adjacentX, adjacentY) && 0 <= k <= 8
          invariant count == MinesIn(ns[..k])
        {
          if adjacentX == 0 && adjacentY == 0 {
            continue;
          }
          var x := cellX + adjacentX;
          var y := cellY + adjacentY;
          var cell := GetCell(x, y);
          MineScanStep(grid, cellX, cellY, adjacentX, adjacentY, cell);
          if cell.kind == Mine {
            count := count + 1;
          }
          k := k + 1;
        }
      }
      assert ns[..8] == ns;
    }

    method CountFlags(cellX: int, cellY: int) returns (count: nat)
      requires Shaped()
      ensures count == grid.FlagsAround(cellX, cellY)
    {
      ghost var ns := grid.Neighbours(cellX, cellY);
      ghost var k := 0;
      count := 0;
      for adjacentX := -1 to 2
        invariant k == Scanned(adjacentX, -1) && 0 <= k <= 8
        invariant count == FlagsIn(ns[..k])
      {
        for adjacentY := -1 to 2
          invariant k == Scanned(adjacentX, adjacentY) && 0 <= k <= 8
          invariant count == FlagsIn(ns[..k])
        {
          if adjacentX == 0 && adjacentY == 0 {
            continue;
          }
          var x := cellX + adjacentX;
          var y := cellY + adjacentY;
          var cell := GetCell(x, y);
          FlagScanStep(grid, cellX, cellY, adjacentX, adjacentY, cell);
          if cell.flagged == true {
            count := count + 1;
          }
          k := k + 1;
        }
      }
      assert ns[..8] == ns;
    }

    method AnyCellsUnrevealed(cellX: int, cellY: int) returns (any: bool)
      requires Shaped()
      ensures any == grid.AnyOpenableAround(cellX, cellY)
    {
      ghost var ns := grid.Neighbours(cellX, cellY);
      ghost var k := 0;
      for adjacentX := -1 to 2
        invariant k == Scanned(adjacentX, -1) && 0 <= k <= 8
        invariant forall i | 0 <= i < k :: !IsOpenable(ns[i])
      {
        for adjacentY := -1 to 2
          invariant k == Scanned(adjacentX, adjacentY) && 0 <= k <= 8
          invariant forall i | 0 <= i < k :: !IsOpenable(ns[i])
        {
          if adjacentX == 0 && adjacentY == 0 {
            continue;
          }
          var x := cellX + adjacentX;
          var y := cellY + adjacentY;
          var cell := GetCell(x, y);
          ScanStep(grid, cellX, cellY, adjacentX, adjacentY);
          if cell.revealed == false && !cell.flagged {
            assert IsOpenable(ns[k]);
            return true;
          }
          k := k + 1;
        }
      }
      return false;
    }

    // -------------------------------------------------------------------------
    // A new game
    // -------------------------------------------------------------------------

    /** Start (NewGame); `mines` is at most the number of cells, as the editor-side clamp makes sure. */
    constructor(w: nat, h: nat, mines: nat)
      requires mines <= w * h
      ensures width == w && height == h && mineCount == mines
      ensures Valid() && fresh(state)
      ensures grid == FreshGrid(w, h) && !gameOver && firstClick
    {
      width, height, mineCount := w, h, mines;
      state := new Cell[0, 0];
      new;
      NewGame();
    }

    method NewGame()
      requires mineCount <= width * height
      modifies this
      ensures Valid() && fresh(state)
      ensures grid == FreshGrid(width, height) && !gameOver && firstClick
    {
      state := new Cell[width, height]((x, y) => Default);
      gameOver := false;
      GenerateCells();
      firstClick := true;
      FreshGridInvariant(width, height, mineCount);
    }

    method GenerateCells()
      requires state.Length0 == width && state.Length1 == height
      modifies state, `grid
      ensures Shaped() && grid == FreshGrid(width, height)
    {
      for x := 0 to width
        invariant forall i, j | 0 <= i < x && 0 <= j < height :: state[i, j] == Fresh(i, j)
      {
        for y := 0 to height
          invariant forall i, j | 0 <= j < height && (0 <= i < x || (i == x && j < y)) :: state[i, j] == Fresh(i, j)
        {
          var cell := Cell(Pos(x, y), Empty, 0, false, false, false);
          state[x, y] := cell;
        }
      }
      grid := FreshGrid(width, height);
    }

    /**
     * GenerateMines: the i-th mine starts its probe at picks[i] (the random
     * draw) and lands where the probe first meets an eligible cell.  The
     * source loops forever when no cell is eligible, so the caller must leave
     * at least mineCount eligible cells.
     */
    method GenerateMines(cell: Cell, picks: seq<Pos>)
      requires Shaped()
      requires |picks| == mineCount
      requires forall i | 0 <= i < |picks| :: IsValid(picks[i].x, picks[i].y)
      requires mineCount <= |Eligibles(grid, cell)|
      modifies state, `grid
      ensures Shaped()
      ensures grid == WithMines(old(grid), Placements(old(grid), cell, picks))
    {
      ghost var g0 := grid;
      for i := 0 to mineCount
        invariant Shaped()
        invariant grid == WithMines(g0, Placements(g0, cell, picks[..i]))
      {
        PlacementRoom(g0, cell, picks, i);
        PlaceMine(cell, picks[i].x, picks[i].y);
        PlacementsStep(g0, cell, picks, i);
      }
      assert picks[..mineCount] == picks;
    }

    /** One turn of GenerateMines: the probe from (x0, y0) finds a cell, which becomes a mine. */
    method PlaceMine(startCell: Cell, x0: int, y0: int)
      requires Shaped() && IsValid(x0, y0) && Eligibles(grid, startCell) != {}
      modifies state, `grid
      ensures Shaped() && grid == SetMine(old(grid), Probe(old(grid), startCell, Pos(x0, y0)))
    {
      var x, y := FindFree(startCell, x0, y0);
      Store(x, y, state[x, y].(kind := Mine));
    }

    /**
     * The probe of GenerateMines: from (x0, y0), walk column by column,
     * wrapping around the board, to the first cell that is neither a mine
     * nor in the start range of startCell.
     */
    method FindFree(startCell: Cell, x0: int, y0: int) returns (x: int, y: int)
      requires Shaped() && IsValid(x0, y0) && Eligibles(grid, startCell) != {}
      ensures Pos(x, y) == Probe(grid, startCell, Pos(x0, y0))
      ensures Eligible(grid, startCell, Pos(x, y))
    {
      x, y := x0, y0;
      ghost var hit := Probe(grid, startCell, Pos(x, y));
      ProbeEligible(grid, startCell, Pos(x, y));
      ghost var fuel := ProbeFuel(grid);
      ghost var p := Pos(x, y);
      while state[x, y].kind == Mine || InStartRange(startCell, state[x, y])
        invariant p == Pos(x, y) && grid.InBounds(x, y)
        invariant ProbeFrom(grid, startCell, p, fuel) == hit
        decreases fuel
      {
        ProbeStep(grid, startCell, p, state[x, y], fuel, hit);
        x := x + 1;
        if x >= width {
          x := 0;
          y := y + 1;
          if y >= height {
            y := 0;
          }
        }
        fuel := fuel - 1;
        p := Next(grid, p);
      }
      ProbeStop(grid, startCell, p, state[x, y], fuel, hit);
    }

    /** GenerateNumbers: every non-mine cell gets its adjacency count, and type Number when that is positive. */
    method GenerateNumbers()
      requires Shaped()
      modifies state, `grid
      ensures Shaped() && grid == Numbered(old(grid))
    {
      ghost var g0 := grid;
      NumberedBeforeStart(g0);
      for x := 0 to width
        invariant Shaped() && grid == NumberedBefore(g0, x, 0)
      {
        for y := 0 to height
          invariant Shaped() && grid == NumberedBefore(g0, x, y)
        {
          var cell := state[x, y];
          if cell.kind == Mine {
            NumberedBeforeMine(g0, x, y);
            continue;
          }
          NumberedBeforeCounts(g0, x, y);
          var count := CountMines(x, y);
          cell := cell.(number := count);
          if cell.number > 0 {
            cell := cell.(kind := Number);
          }
          NumberedBeforeStep(g0, x, y);
          Store(x, y, cell);
        }
        NumberedBeforeColumn(g0, x);
      }
      NumberedBeforeEnd(g0);
    }

    // -------------------------------------------------------------------------
    // Moves
    // -------------------------------------------------------------------------

    /** Explode: the game ends, the hit cell is marked exploded and every mine is revealed. */
    method Explode(cell: Cell)
      requires Shaped() && grid.Holds(cell) && cell.kind != Invalid
      modifies `gameOver, state, `grid
      ensures Shaped() && gameOver && grid == Play.Explode(old(grid), cell)
    {
      gameOver := true;
      var hit := cell.(revealed := true, exploded := true);
      Store(hit.pos.x, hit.pos.y, hit);
      RevealMines();
      ExplodeIsPass(old(grid), cell);
    }

    /** The loop of Explode: every Mine cell is written back revealed, column by column. */
    method RevealMines()
      requires Shaped()
      modifies state, `grid
      ensures Shaped() && KeepsShape(RevealIfMine) && grid == MapBefore(old(grid), RevealIfMine, width, 0)
    {
      ghost var g := grid;
      MapBeforeStart(g, RevealIfMine);
      for x := 0 to width
        invariant Shaped() && grid == MapBefore(g, RevealIfMine, x, 0)
      {
        for y := 0 to height
          invariant Shaped() && grid == MapBefore(g, RevealIfMine, x, y)
        {
          var cell := state[x, y];
          MapBeforeStep(g, RevealIfMine, x, y);
          if cell.kind == Mine {
            Store(x, y, cell.(revealed := true));
          }
        }
        MapBeforeColumn(g, RevealIfMine, x);
      }
    }

    /** CheckWinCondition: when every non-mine cell is revealed the game is won and every mine gets a flag. */
    method CheckWinCondition()
      requires Shaped()
      modifies `gameOver, state, `grid
      ensures Shaped() && (grid, gameOver) == CheckWin(old(grid), old(gameOver))
    {
      for x := 0 to width
        invariant forall i, j | 0 <= i < x && 0 <= j < height :: grid.At(i, j).kind == Mine || grid.At(i, j).revealed
      {
        for y := 0 to height
          invariant forall i, j | 0 <= j < height && (0 <= i < x || (i == x && j < y)) ::
            grid.At(i, j).kind == Mine || grid.At(i, j).revealed
        {
          var cell := state[x, y];
          if cell.kind != Mine && !cell.revealed {
            assert !AllSafeRevealed(grid) by {
              assert grid.InBounds(x, y) && grid.At(x, y).kind != Mine && !grid.At(x, y).revealed;
            }
            return;
          }
        }
      }
      gameOver := true;
      ghost var g := grid;
      FlagMinesIsPass(g);
      MapBeforeStart(g, FlagIfMine);
      for x := 0 to width
        invariant Shaped() && gameOver && grid == MapBefore(g, FlagIfMine, x, 0)
      {
        for y := 0 to height
          invariant Shaped() && gameOver && grid == MapBefore(g, FlagIfMine, x, y)
        {
          var cell := state[x, y];
          MapBeforeStep(g, FlagIfMine, x, y);
          if cell.kind == Mine {
            Store(x, y, cell.(flagged := true));
          }
        }
        MapBeforeColumn(g, FlagIfMine, x);
      }
    }

    /**
     * Flood: reveal the cell unless it is revealed, a mine or off the board,
     * and when it is Empty flood its eight neighbours in the engine's order.
     */
    method Flood(cell: Cell)
      requires Shaped() && grid.Holds(cell)
      modifies state, `grid
      ensures Shaped() && grid == Play.Flood(old(grid), cell)
      decreases grid.Hidden(), 0
    {
      if cell.revealed || cell.kind == Mine || cell.kind == Invalid {
        return;
      }
      ghost var g := grid;
      Store(cell.pos.x, cell.pos.y, cell.(revealed := true));
      RevealShrinksHidden(g, cell);
      if cell.kind == Empty {
        FloodAroundCell(cell.pos.x, cell.pos.y);
      }
    }

    /** The eight recursive calls of Flood around the Empty cell at (x, y), in the engine's order. */
    method FloodAroundCell(x: int, y: int)
      requires Shaped()
      modifies state, `grid
      ensures Shaped() && grid == FloodAround(old(grid), x, y, 0)
      decreases grid.Hidden(), 2
    {
      ghost var target := FloodAround(grid, x, y, 0);
      ghost var bound := grid.Hidden();
      FloodNeighbour(x, y, 0, 1, target, bound); // left
      FloodNeighbour(x, y, 1, 2, target, bound); // right
      FloodNeighbour(x, y, 2, 3, target, bound); // down
      FloodNeighbour(x, y, 3, 4, target, bound); // up
      FloodNeighbour(x, y, 4, 5, target, bound); // bottom left
      FloodNeighbour(x, y, 5, 6, target, bound); // bottom right
      FloodNeighbour(x, y, 6, 7, target, bound); // top left
      FloodNeighbour(x, y, 7, 8, target, bound); // top right
    }

    /**
     * The m-th of the eight recursive calls of Flood around (x, y), in the
     * order of FloodOrder: the calls still to make after it (from `next`, which
     * is m + 1) lead to the same board `target`.
     */
    method FloodNeighbour(x: int, y: int, m: nat, ghost next: nat, ghost target: Grid, ghost bound: set<Pos>)
      requires m < 8 && next == m + 1 && Shaped() && grid.Hidden() <= bound
      requires target == FloodAround(grid, x, y, m)
      modifies state, `grid
      ensures Shaped() && grid.Hidden() <= bound
      ensures target == FloodAround(grid, x, y, next)
      decreases bound, 1
    {
      ghost var s := grid;
      Flood(GetCell(x + FloodOrder[m].0, y + FloodOrder[m].1));
      FloodCallDone(s, grid, x, y, m);
    }

    /** Reveal on the cell under the mouse, (x, y). */
    method Reveal(x: int, y: int)
      requires Shaped()
      modifies `gameOver, state, `grid
      ensures Shaped() && (grid, gameOver) == RevealAt(old(grid), old(gameOver), x, y)
    {
      var cell := GetCell(x, y);
      if cell.kind == Invalid || cell.revealed || cell.flagged {
        return;
      }
      if cell.kind == Mine {
        Explode(cell);
      } else if cell.kind == Empty {
        Flood(cell);
        CheckWinCondition();
      } else {
        cell := cell.(revealed := true);
        Store(x, y, cell);
        CheckWinCondition();
      }
    }

    /** Flag on the cell under the mouse, (x, y). */
    method Flag(x: int, y: int)
      requires Shaped()
      modifies state, `grid
      ensures Shaped() && grid == Toggle(old(grid), x, y)
    {
      var cell := GetCell(x, y);
      if cell.kind == Invalid || cell.revealed {
        return;
      }
      cell := cell.(flagged := !cell.flagged);
      Store(x, y, cell);
    }

    /** RevealSurroundingCells: each neighbour in scan order gets what Reveal does to a cell. */
    method RevealSurroundingCells(cellX: int, cellY: int)
      requires Shaped()
      modifies `gameOver, state, `grid
      ensures Shaped() && (grid, gameOver) == ChordTrace((old(grid), old(gameOver)), cellX, cellY)[8]
    {
      ghost var s0 := (grid, gameOver);
      ghost var t := ChordTrace(s0, cellX, cellY);
      for adjacentX := -1 to 2
        invariant Shaped() && (grid, gameOver) == t[Scanned(adjacentX, -1)]
      {
        RevealColumn(cellX, cellY, adjacentX, s0, t);
      }
    }

    /** The inner loop of RevealSurroundingCells: the neighbours in one column, top to bottom. */
    method RevealColumn(cellX: int, cellY: int, adjacentX: int, ghost s0: (Grid, bool), ghost t: seq<(Grid, bool)>)
      requires -1 <= adjacentX <= 1 && s0.0.Valid() && t == ChordTrace(s0, cellX, cellY)
      requires Shaped() && (grid, gameOver) == t[Scanned(adjacentX, -1)]
      modifies `gameOver, state, `grid
      ensures Shaped() && (grid, gameOver) == t[Scanned(adjacentX + 1, -1)]
    {
      for adjacentY := -1 to 2
        invariant Shaped() && (grid, gameOver) == t[Scanned(adjacentX, adjacentY)]
      {
        if adjacentX == 0 && adjacentY == 0 {
          continue;
        }
        var x := cellX + adjacentX;
        var y := cellY + adjacentY;
        ScannedOffset(adjacentX, adjacentY);
        RevealNeighbour(cellX, cellY, x, y, Scanned(adjacentX, adjacentY), s0, t);
      }
    }

    /** The reveal at (x, y), the k-th neighbour of (cellX, cellY) in scan order, takes the chord one state on. */
    method RevealNeighbour(cellX: int, cellY: int, x: int, y: int, ghost k: nat, ghost s0: (Grid, bool), ghost t: seq<(Grid, bool)>)
      requires k < 8 && (x, y) == (cellX + Offsets[k].0, cellY + Offsets[k].1)
      requires s0.0.Valid() && t == ChordTrace(s0, cellX, cellY)
      requires Shaped() && (grid, gameOver) == t[k]
      modifies `gameOver, state, `grid
      ensures Shaped() && (grid, gameOver) == t[k + 1]
    {
      ChordTraceStep(s0, cellX, cellY, k);
      Reveal(x, y);
    }

    /** CheckSurroundingCells on a revealed Number cell: reveal around it when something is left to open and the flags match the mines. */
    method CheckSurroundingCells(cell: Cell)
      requires Shaped() && grid.Holds(cell) && cell.kind == Number && cell.revealed
      modifies `gameOver, state, `grid
      ensures Shaped() && (grid, gameOver) == Chord(old(grid), old(gameOver), cell.pos.x, cell.pos.y)
    {
      var any := AnyCellsUnrevealed(cell.pos.x, cell.pos.y);
      if !any {
        return;
      }
      var mines := CountMines(cell.pos.x, cell.pos.y);
      var flags := CountFlags(cell.pos.x, cell.pos.y);
      if mines != flags {
        return;
      }
      RevealSurroundingCells(cell.pos.x, cell.pos.y);
    }

    /** AutoFillSurroundingCells on the cell under the mouse, (x, y). */
    method AutoFillSurroundingCells(x: int, y: int)
      requires Shaped()
      modifies `gameOver, state, `grid
      ensures Shaped() && (grid, gameOver) == Chord(old(grid), old(gameOver), x, y)
    {
      var cell := GetCell(x, y);
      if cell.kind != Number || !cell.revealed {
        return;
      }
      CheckSurroundingCells(cell);
    }

    // -------------------------------------------------------------------------
    // One frame of input
    // -------------------------------------------------------------------------

    /**
     * The first left click of a game, after firstClick is cleared: the mines
     * are placed away from the clicked cell (x, y) and the board is numbered.
     * The board then satisfies the invariant of a game in progress, and
     * revealing an on-board, unflagged clicked cell will open it as an Empty
     * cell without an explosion.
     */
    method PlaceMinesAround(x: int, y: int, picks: seq<Pos>)
      requires Shaped() && Invariant(grid, false, true, mineCount)
      requires PicksFit(width, height, mineCount, x, y, picks)
      modifies state, `grid
      ensures Shaped() && Invariant(grid, false, false, mineCount)
      ensures grid == Numbered(WithMines(old(grid), Placements(old(grid), old(grid).Get(x, y), picks)))
      ensures IsValid(x, y) && !old(grid).At(x, y).flagged ==>
        var r := RevealAt(grid, false, x, y).0;
        r.At(x, y).revealed && r.At(x, y).kind == Empty && NoExplosion(r)
    {
      ghost var g := grid;
      FirstClickPicks(g, false, mineCount, x, y, picks);
      var cell := GetCell(x, y);
      GenerateMines(cell, picks);
      GenerateNumbers();
      FirstClickSetup(g, false, mineCount, x, y, picks);
    }

    /**
     * Update: R starts a new game; then, unless the game is over, a right
     * click flags, a left click reveals (placing and numbering the mines
     * first on the first click of a game) and a middle click chords, in that
     * order of precedence.  The game invariant is kept, a finished game
     * ignores clicks, and the first reveal of a game opens the clicked cell.
     */
    method Update(restart: bool, rightDown: bool, leftDown: bool, middleDown: bool, x: int, y: int, picks: seq<Pos>)
      requires Valid()
      requires leftDown && !rightDown && (restart || firstClick) ==> PicksFit(width, height, mineCount, x, y, picks)
      modifies this, state
      ensures Valid()
      ensures old(gameOver) && !restart ==> grid == old(grid) && gameOver && firstClick == old(firstClick)
      ensures leftDown && !rightDown && IsValid(x, y) && (restart || (old(firstClick) && !old(grid).At(x, y).flagged)) ==>
        grid.At(x, y).revealed && grid.At(x, y).kind == Empty && NoExplosion(grid) && !firstClick
    {
      if restart {
        NewGame();
      }
      if !gameOver {
        if rightDown {
          ghost var g := grid;
          Flag(x, y);
          ToggleKeepsInvariant(g, gameOver, firstClick, mineCount, x, y);
        } else if leftDown {
          ghost var opens := firstClick && IsValid(x, y) && !grid.At(x, y).flagged;
          if firstClick {
            firstClick := false;
            PlaceMinesAround(x, y, picks);
          }
          ghost var g := grid;
          ghost var over := gameOver;
          Reveal(x, y);
          RevealKeepsInvariant(g, over, mineCount, x, y);
          assert opens ==> grid.At(x, y).revealed && grid.At(x, y).kind == Empty && NoExplosion(grid);
        } else if middleDown {
          ghost var g := grid;
          ghost var over := gameOver;
          AutoFillSurroundingCells(x, y);
          ChordKeepsInvariant(g, over, firstClick, mineCount, x, y);
        }
      }
    }
  }
}
