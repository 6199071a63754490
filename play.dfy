/**
 * What each move does to the board, as functions from the board before to the
 * board after: the flood over empty regions, the explosion, the win check with
 * its auto-flagging, flag toggling, revealing one cell, and the chord.
 */
module Play {
  import opened Cells
  import opened Grids

  // ---------------------------------------------------------------------------
  // Revealing only ever adds revealed cells
  // ---------------------------------------------------------------------------

  /** Only `revealed` may change, and only from false to true. */
  ghost predicate Grows(g: Grid, r: Grid)
    requires g.Valid() && r.Valid()
  {
    && g.width == r.width && g.height == r.height
    && forall x, y | g.InBounds(x, y) ::
         && r.At(x, y) == g.At(x, y).(revealed := r.At(x, y).revealed)
         && (g.At(x, y).revealed ==> r.At(x, y).revealed)
  }

  lemma GrowsTrans(a: Grid, b: Grid, c: Grid)
    requires a.Valid() && b.Valid() && c.Valid() && Grows(a, b) && Grows(b, c)
    ensures Grows(a, c)
  {
  }

  lemma GrowsHidden(g: Grid, r: Grid)
    requires g.Valid() && r.Valid() && Grows(g, r)
    ensures r.Hidden() <= g.Hidden()
  {
    forall p | p in r.Hidden() ensures p in g.Hidden() {
      var x, y :| 0 <= x < r.width && 0 <= y < r.height && !r.cells[x][y].revealed && p == Pos(x, y);
      assert g.InBounds(x, y) && !g.cells[x][y].revealed;
    }
  }

  lemma GrowsLayout(g: Grid, r: Grid)
    requires g.Valid() && r.Valid() && Grows(g, r)
    ensures SameLayout(g, r)
  {
  }

  /** The grid after the cell is written back with `revealed` set. */
  ghost function Uncover(g: Grid, c: Cell): (r: Grid)
    requires g.Valid() && g.Holds(c) && c.kind != Invalid
    ensures r.Valid() && Grows(g, r) && r.At(c.pos.x, c.pos.y).revealed
    ensures forall p | Newly(g, r, p) :: p == c.pos
  {
    g.Set(c.pos.x, c.pos.y, c.(revealed := true))
  }

  /** Revealing a hidden cell takes it out of the hidden set. */
  lemma RevealShrinksHidden(g: Grid, c: Cell)
    requires g.Valid() && c.kind != Invalid && g.Holds(c) && !c.revealed
    ensures Uncover(g, c).Hidden() < g.Hidden()
  {
    var r := Uncover(g, c);
    assert c.pos in g.Hidden();
    forall p | p in r.Hidden() ensures p in g.Hidden() && p != c.pos {
      assert r.InBounds(p.x, p.y);
    }
  }

  // ---------------------------------------------------------------------------
  // Flood
  // ---------------------------------------------------------------------------

  /** The order of the eight recursive calls: left, right, down, up, then the four diagonals. */
  const FloodOrder: seq<(int, int)> := [(-1, 0), (1, 0), (0, -1), (0, 1), (-1, -1), (1, -1), (-1, 1), (1, 1)]

  /** The call of the flood that handles offset (dx, dy). */
  function FloodIndex(dx: int, dy: int): (m: nat)
    requires -1 <= dx <= 1 && -1 <= dy <= 1 && (dx, dy) != (0, 0)
    ensures m < 8 && FloodOrder[m] == (dx, dy)
  {
    if dy == 0 then (if dx < 0 then 0 else 1)
    else if dx == 0 then (if dy < 0 then 2 else 3)
    else if dy < 0 then (if dx < 0 then 4 else 5)
    else (if dx < 0 then 6 else 7)
  }

  /** Each call of the flood goes to a position adjacent to the centre. */
  lemma FloodOrderAdjacent(x: int, y: int, k: nat)
    requires k < 8
    ensures Adjacent(Pos(x + FloodOrder[k].0, y + FloodOrder[k].1), Pos(x, y))
  {
  }

  /**
   * Flood(cell): nothing for a revealed, Mine or Invalid cell; otherwise reveal
   * it (flagged or not) and, when it is Empty, flood its eight neighbours as
   * GetCell returns them at the moment of each call.
   */
  ghost function Flood(g: Grid, c: Cell): (r: Grid)
    requires g.Valid() && g.Holds(c)
    ensures r.Valid() && Grows(g, r)
    decreases g.Hidden(), 0
  {
    if c.revealed || c.kind == Mine || c.kind == Invalid then g
    else
      var g1 := Uncover(g, c);
      RevealShrinksHidden(g, c);
      if c.kind == Empty then
        var r := FloodAround(g1, c.pos.x, c.pos.y, 0);
        GrowsTrans(g, g1, r);
        r
      else g1
  }

  /** The recursive calls of Flood on the neighbours of (x, y), from the k-th on. */
  ghost function FloodAround(g: Grid, x: int, y: int, k: nat): (r: Grid)
    requires g.Valid() && k <= 8
    ensures r.Valid() && Grows(g, r)
    decreases g.Hidden(), 8 - k
  {
    if k == 8 then g
    else
      var g1 := Flood(g, g.Get(x + FloodOrder[k].0, y + FloodOrder[k].1));
      GrowsHidden(g, g1);
      var r := FloodAround(g1, x, y, k + 1);
      GrowsTrans(g, g1, r);
      r
  }

  /** p was hidden in g and is revealed in r. */
  ghost predicate Newly(g: Grid, r: Grid, p: Pos)
    requires g.Valid() && r.Valid() && Grows(g, r)
  {
    g.InBounds(p.x, p.y) && !g.At(p.x, p.y).revealed && r.At(p.x, p.y).revealed
  }

  /** No newly revealed cell is a mine. */
  ghost predicate SafeNew(g: Grid, r: Grid)
    requires g.Valid() && r.Valid() && Grows(g, r)
  {
    forall p | Newly(g, r, p) :: r.At(p.x, p.y).kind != Mine
  }

  /** Every on-board non-mine neighbour of p is revealed. */
  ghost predicate Surrounded(r: Grid, p: Pos)
    requires r.Valid()
  {
    forall q: Pos | r.InBounds(q.x, q.y) && Adjacent(q, p) && r.At(q.x, q.y).kind != Mine :: r.At(q.x, q.y).revealed
  }

  /** The flood went on from every newly revealed Empty cell: maximality of the opened region. */
  ghost predicate Closed(g: Grid, r: Grid)
    requires g.Valid() && r.Valid() && Grows(g, r)
  {
    forall p | Newly(g, r, p) && r.At(p.x, p.y).kind == Empty :: Surrounded(r, p)
  }

  /** Some neighbour of p is a newly revealed Empty cell: p was reached by the flood through it. */
  ghost predicate FedFrom(g: Grid, r: Grid, p: Pos)
    requires g.Valid() && r.Valid() && Grows(g, r)
  {
    exists q: Pos | Adjacent(q, p) :: Newly(g, r, q) && r.At(q.x, q.y).kind == Empty
  }

  /** Every newly revealed cell is the start s or was reached through a newly revealed Empty cell. */
  ghost predicate Sourced(g: Grid, r: Grid, s: Pos)
    requires g.Valid() && r.Valid() && Grows(g, r)
  {
    forall p | Newly(g, r, p) :: p == s || FedFrom(g, r, p)
  }

  /** As Sourced, for the calls on the neighbours of s. */
  ghost predicate SourcedNear(g: Grid, r: Grid, s: Pos)
    requires g.Valid() && r.Valid() && Grows(g, r)
  {
    forall p | Newly(g, r, p) :: Adjacent(p, s) || FedFrom(g, r, p)
  }

  /** Neighbours k.. of (x, y) in flood order are off the board, mines, or revealed. */
  ghost predicate AroundOpened(r: Grid, x: int, y: int, k: nat)
    requires r.Valid()
  {
    forall m | k <= m < 8 ::
      var i, j := x + FloodOrder[m].0, y + FloodOrder[m].1;
      !r.InBounds(i, j) || r.At(i, j).kind == Mine || r.At(i, j).revealed
  }

  /** A cell newly revealed over two steps was newly revealed in one of them. */
  lemma NewlySplit(a: Grid, b: Grid, c: Grid, p: Pos)
    requires a.Valid() && b.Valid() && c.Valid() && Grows(a, b) && Grows(b, c)
    ensures Grows(a, c)
    ensures Newly(a, c, p) ==> Newly(a, b, p) || Newly(b, c, p)
  {
    GrowsTrans(a, b, c);
  }

  lemma ComposeSafe(a: Grid, b: Grid, c: Grid)
    requires a.Valid() && b.Valid() && c.Valid() && Grows(a, b) && Grows(b, c)
    requires SafeNew(a, b) && SafeNew(b, c)
    ensures Grows(a, c) && SafeNew(a, c)
  {
    GrowsTrans(a, b, c);
    forall p | Newly(a, c, p) ensures c.At(p.x, p.y).kind != Mine {
      NewlySplit(a, b, c, p);
    }
  }

  lemma SurroundedGrows(b: Grid, c: Grid, p: Pos)
    requires b.Valid() && c.Valid() && Grows(b, c) && Surrounded(b, p)
    ensures Surrounded(c, p)
  {
  }

  lemma ComposeClosed(a: Grid, b: Grid, c: Grid)
    requires a.Valid() && b.Valid() && c.Valid() && Grows(a, b) && Grows(b, c)
    requires Closed(a, b) && Closed(b, c)
    ensures Grows(a, c) && Closed(a, c)
  {
    GrowsTrans(a, b, c);
    forall p | Newly(a, c, p) && c.At(p.x, p.y).kind == Empty ensures Surrounded(c, p) {
      NewlySplit(a, b, c, p);
      if Newly(a, b, p) {
        SurroundedGrows(b, c, p);
      }
    }
  }

  lemma FedFromGrows(a: Grid, b: Grid, c: Grid, p: Pos)
    requires a.Valid() && b.Valid() && c.Valid() && Grows(a, b) && Grows(b, c)
    ensures Grows(a, c)
    ensures FedFrom(a, b, p) || FedFrom(b, c, p) ==> FedFrom(a, c, p)
  {
    GrowsTrans(a, b, c);
    if FedFrom(a, b, p) {
      var q: Pos :| Adjacent(q, p) && Newly(a, b, q) && b.At(q.x, q.y).kind == Empty;
      assert Newly(a, c, q);
    } else if FedFrom(b, c, p) {
      var q: Pos :| Adjacent(q, p) && Newly(b, c, q) && c.At(q.x, q.y).kind == Empty;
      assert Newly(a, c, q);
    }
  }

  /** Around a start whose neighbours are all opened or mines, the start is surrounded. */
  lemma AroundOpenedSurrounded(r: Grid, s: Pos)
    requires r.Valid() && AroundOpened(r, s.x, s.y, 0)
    ensures Surrounded(r, s)
  {
    forall q: Pos | r.InBounds(q.x, q.y) && Adjacent(q, s) && r.At(q.x, q.y).kind != Mine
      ensures r.At(q.x, q.y).revealed
    {
      var m := FloodIndex(q.x - s.x, q.y - s.y);
      assert q == Pos(s.x + FloodOrder[m].0, s.y + FloodOrder[m].1);
    }
  }

  lemma FloodStartSafe(g: Grid, c: Cell, r: Grid)
    requires g.Valid() && g.Holds(c) && c.kind == Empty
    requires var g1 := Uncover(g, c); r.Valid() && Grows(g1, r) && SafeNew(g1, r)
    ensures Grows(g, r) && SafeNew(g, r)
  {
    var g1 := Uncover(g, c);
    assert SafeNew(g, g1);
    ComposeSafe(g, g1, r);
  }

  lemma FloodStartClosed(g: Grid, c: Cell, r: Grid)
    requires g.Valid() && g.Holds(c) && c.kind == Empty
    requires var g1 := Uncover(g, c); r.Valid() && Grows(g1, r) && Closed(g1, r)
    requires AroundOpened(r, c.pos.x, c.pos.y, 0)
    ensures Grows(g, r) && Closed(g, r)
  {
    var g1 := Uncover(g, c);
    GrowsTrans(g, g1, r);
    forall p | Newly(g, r, p) && r.At(p.x, p.y).kind == Empty ensures Surrounded(r, p) {
      NewlySplit(g, g1, r, p);
      if p == c.pos {
        AroundOpenedSurrounded(r, c.pos);
      }
    }
  }

  lemma FloodStartSourced(g: Grid, c: Cell, r: Grid)
    requires g.Valid() && g.Holds(c) && c.kind == Empty && !c.revealed
    requires var g1 := Uncover(g, c); r.Valid() && Grows(g1, r) && SourcedNear(g1, r, c.pos)
    ensures Grows(g, r) && Sourced(g, r, c.pos)
  {
    var g1 := Uncover(g, c);
    var s := c.pos;
    GrowsTrans(g, g1, r);
    assert Newly(g, r, s) && r.At(s.x, s.y).kind == Empty;
    forall p | Newly(g, r, p) ensures p == s || FedFrom(g, r, p) {
      NewlySplit(g, g1, r, p);
      FedFromGrows(g, g1, r, p);
      if p != s && Adjacent(p, s) {
        assert Adjacent(s, p);
      }
    }
  }

  /**
   * The flood from a cell taken from the board never reveals a mine, reveals
   * the cell itself unless it is a mine, reaches every newly revealed cell from
   * the start through newly revealed Empty cells (Number cells are leaves), and
   * leaves no hidden non-mine cell next to a newly revealed Empty one, whether
   * flagged or not.
   */
  lemma {:induction false} FloodFacts(g: Grid, c: Cell)
    requires g.Valid() && g.Holds(c)
    ensures var r := Flood(g, c);
      && SafeNew(g, r) && Closed(g, r) && Sourced(g, r, c.pos)
      && (c.kind == Empty || c.kind == Number ==> r.At(c.pos.x, c.pos.y).revealed)
    decreases g.Hidden(), 0
  {
    if c.revealed || c.kind == Mine || c.kind == Invalid {
      return;
    }
    var g1 := Uncover(g, c);
    RevealShrinksHidden(g, c);
    if c.kind != Empty {
      return;
    }
    var s := c.pos;
    var r := FloodAround(g1, s.x, s.y, 0);
    assert r == Flood(g, c);
    FloodAroundFacts(g1, s.x, s.y, 0);
    FloodStartSafe(g, c, r);
    FloodStartClosed(g, c, r);
    FloodStartSourced(g, c, r);
  }

  lemma AroundSourced(g: Grid, g1: Grid, r: Grid, x: int, y: int, n: Cell)
    requires g.Valid() && g1.Valid() && r.Valid() && Grows(g, g1) && Grows(g1, r)
    requires n.kind == Invalid ==> g1 == g
    requires n.kind != Invalid ==> Adjacent(n.pos, Pos(x, y))
    requires Sourced(g, g1, n.pos) && SourcedNear(g1, r, Pos(x, y))
    ensures Grows(g, r) && SourcedNear(g, r, Pos(x, y))
  {
    GrowsTrans(g, g1, r);
    forall p | Newly(g, r, p) ensures Adjacent(p, Pos(x, y)) || FedFrom(g, r, p) {
      NewlySplit(g, g1, r, p);
      FedFromGrows(g, g1, r, p);
    }
  }

  lemma AroundOpenedStep(g: Grid, g1: Grid, r: Grid, x: int, y: int, k: nat)
    requires g.Valid() && g1.Valid() && r.Valid() && Grows(g, g1) && Grows(g1, r) && k < 8
    requires var i, j := x + FloodOrder[k].0, y + FloodOrder[k].1;
      g.InBounds(i, j) && g.At(i, j).kind != Mine ==> g1.At(i, j).revealed
    requires AroundOpened(r, x, y, k + 1)
    ensures AroundOpened(r, x, y, k)
  {
  }

  lemma {:induction false} FloodAroundFacts(g: Grid, x: int, y: int, k: nat)
    requires g.Valid() && k <= 8
    ensures var r := FloodAround(g, x, y, k);
      && SafeNew(g, r) && Closed(g, r) && SourcedNear(g, r, Pos(x, y))
      && AroundOpened(r, x, y, k)
    decreases g.Hidden(), 8 - k
  {
    if k == 8 {
      return;
    }
    var i, j := x + FloodOrder[k].0, y + FloodOrder[k].1;
    var n := g.Get(i, j);
    var g1 := Flood(g, n);
    GrowsHidden(g, g1);
    FloodFacts(g, n);
    FloodAroundFacts(g1, x, y, k + 1);
    var r := FloodAround(g1, x, y, k + 1);
    assert r == FloodAround(g, x, y, k);
    ComposeSafe(g, g1, r);
    ComposeClosed(g, g1, r);
    if n.kind != Invalid {
      FloodOrderAdjacent(x, y, k);
    }
    AroundSourced(g, g1, r, x, y, n);
    AroundOpenedStep(g, g1, r, x, y, k);
  }

  /**
   * The m-th of the eight recursive calls of the flood around (x, y), taken
   * from board s to board t, leaves the calls from m + 1 on to be made.
   */
  lemma FloodCallDone(s: Grid, t: Grid, x: int, y: int, m: nat)
    requires s.Valid() && m < 8
    requires t == Flood(s, s.Get(x + FloodOrder[m].0, y + FloodOrder[m].1))
    ensures t.Valid() && t.Hidden() <= s.Hidden()
    ensures FloodAround(s, x, y, m) == FloodAround(t, x, y, m + 1)
  {
    GrowsHidden(s, t);
  }

  // ---------------------------------------------------------------------------
  // Explode
  // ---------------------------------------------------------------------------

  /** Explode(cell): the hit cell is written back revealed and exploded, then every Mine cell is revealed. */
  ghost function Explode(g: Grid, c: Cell): (r: Grid)
    requires g.Valid() && g.Holds(c) && c.kind != Invalid
    ensures r.Valid() && r.width == g.width && r.height == g.height
  {
    var g1 := g.Set(c.pos.x, c.pos.y, c.(revealed := true, exploded := true));
    Grid(g1.width, g1.height,
      seq(g1.width, x requires 0 <= x < g1.width =>
        seq(g1.height, y requires 0 <= y < g1.height => RevealIfMine(g1.At(x, y)))))
  }

  /** One step of the loop of Explode. */
  function RevealIfMine(d: Cell): (r: Cell)
  {
    if d.kind == Mine then d.(revealed := true) else d
  }

  /** The loop of Explode is the row-major pass of RevealIfMine over the board with the hit cell written back. */
  lemma ExplodeIsPass(g: Grid, c: Cell)
    requires g.Valid() && g.Holds(c) && c.kind != Invalid
    ensures var g1 := g.Set(c.pos.x, c.pos.y, c.(revealed := true, exploded := true));
      KeepsShape(RevealIfMine) && Explode(g, c) == MapBefore(g1, RevealIfMine, g1.width, 0)
  {
    var g1 := g.Set(c.pos.x, c.pos.y, c.(revealed := true, exploded := true));
    GridExt(Explode(g, c), MapBefore(g1, RevealIfMine, g1.width, 0));
  }

  /**
   * Hitting a mine reveals every mine, marks the hit cell and no other as
   * exploded, and leaves every non-mine cell as it was; the layout is kept.
   */
  lemma ExplodeFacts(g: Grid, c: Cell)
    requires g.Valid() && g.Holds(c) && c.kind == Mine
    ensures var r := Explode(g, c);
      && SameLayout(g, r)
      && (forall x, y | g.InBounds(x, y) && g.At(x, y).kind == Mine :: r.At(x, y).revealed)
      && (forall x, y | g.InBounds(x, y) && g.At(x, y).kind != Mine :: r.At(x, y) == g.At(x, y))
      && (forall x, y | g.InBounds(x, y) ::
            r.At(x, y).exploded <==> (g.At(x, y).exploded || Pos(x, y) == c.pos))
      && (forall x, y | g.InBounds(x, y) :: r.At(x, y).flagged == g.At(x, y).flagged)
  {
  }

  // ---------------------------------------------------------------------------
  // The win check
  // ---------------------------------------------------------------------------

  /** Every non-mine cell is revealed. */
  ghost predicate AllSafeRevealed(g: Grid)
    requires g.Valid()
  {
    forall x, y | g.InBounds(x, y) && g.At(x, y).kind != Mine :: g.At(x, y).revealed
  }

  /** Every Mine cell gets its flag. */
  ghost function FlagMines(g: Grid): (r: Grid)
    requires g.Valid()
    ensures r.Valid() && r.width == g.width && r.height == g.height
  {
    Grid(g.width, g.height,
      seq(g.width, x requires 0 <= x < g.width =>
        seq(g.height, y requires 0 <= y < g.height => FlagIfMine(g.At(x, y)))))
  }

  /** One step of the second loop of CheckWinCondition. */
  function FlagIfMine(d: Cell): (r: Cell)
  {
    if d.kind == Mine then d.(flagged := true) else d
  }

  /** The second loop of CheckWinCondition is the row-major pass of FlagIfMine. */
  lemma FlagMinesIsPass(g: Grid)
    requires g.Valid()
    ensures KeepsShape(FlagIfMine) && FlagMines(g) == MapBefore(g, FlagIfMine, g.width, 0)
  {
    GridExt(FlagMines(g), MapBefore(g, FlagIfMine, g.width, 0));
  }

  /** CheckWinCondition: the board and the game-over flag afterwards. */
  ghost function CheckWin(g: Grid, over: bool): (res: (Grid, bool))
    requires g.Valid()
    ensures res.0.Valid() && res.0.width == g.width && res.0.height == g.height
  {
    if AllSafeRevealed(g) then (FlagMines(g), true) else (g, over)
  }

  lemma CheckWinValid(g: Grid, over: bool)
    requires g.Valid()
    ensures CheckWin(g, over).0.Valid() && SameLayout(g, CheckWin(g, over).0)
    ensures forall x, y | g.InBounds(x, y) ::
      CheckWin(g, over).0.At(x, y).revealed == g.At(x, y).revealed &&
      CheckWin(g, over).0.At(x, y).exploded == g.At(x, y).exploded
  {
  }

  /**
   * The check ends the game and flags every mine exactly when every non-mine
   * cell is revealed; otherwise nothing changes.  Nothing but flags of mines
   * changes in either case.
   */
  lemma CheckWinFacts(g: Grid, over: bool)
    requires g.Valid()
    ensures var (r, o) := CheckWin(g, over);
      && r.Valid() && r.width == g.width && r.height == g.height
      && o == (over || AllSafeRevealed(g))
      && (AllSafeRevealed(g) ==> forall x, y | g.InBounds(x, y) && g.At(x, y).kind == Mine :: r.At(x, y).flagged)
      && (!AllSafeRevealed(g) ==> r == g)
      && (forall x, y | g.InBounds(x, y) :: r.At(x, y) == g.At(x, y).(flagged := r.At(x, y).flagged))
      && (forall x, y | g.InBounds(x, y) && g.At(x, y).kind != Mine :: r.At(x, y) == g.At(x, y))
  {
  }

  /** Calling the win check a second time changes nothing. */
  lemma CheckWinIdempotent(g: Grid, over: bool)
    requires g.Valid()
    ensures var (r, o) := CheckWin(g, over); r.Valid() && CheckWin(r, o) == (r, o)
  {
    var (r, o) := CheckWin(g, over);
    if AllSafeRevealed(g) {
      assert AllSafeRevealed(r);
      GridExt(FlagMines(r), r);
    }
  }

  // ---------------------------------------------------------------------------
  // Flag
  // ---------------------------------------------------------------------------

  /** Flag: toggles `flagged` of an on-board hidden cell. */
  ghost function Toggle(g: Grid, x: int, y: int): (r: Grid)
    requires g.Valid()
    ensures r.Valid() && r.width == g.width && r.height == g.height
  {
    var c := g.Get(x, y);
    if c.kind == Invalid || c.revealed then g else g.Set(x, y, c.(flagged := !c.flagged))
  }

  /**
   * On an on-board hidden cell the flag flips and nothing else changes; off
   * the board or on a revealed cell nothing changes at all.
   */
  lemma ToggleFacts(g: Grid, x: int, y: int)
    requires g.Valid()
    ensures var r := Toggle(g, x, y);
      && (!g.InBounds(x, y) || g.At(x, y).revealed ==> r == g)
      && (g.InBounds(x, y) && !g.At(x, y).revealed ==>
            r.At(x, y).flagged == !g.At(x, y).flagged &&
            forall i, j | g.InBounds(i, j) ::
              r.At(i, j) == if (i, j) == (x, y) then g.At(i, j).(flagged := r.At(i, j).flagged) else g.At(i, j))
  {
  }

  /** Flagging twice restores the board. */
  lemma ToggleTwice(g: Grid, x: int, y: int)
    requires g.Valid()
    ensures Toggle(Toggle(g, x, y), x, y) == g
  {
    var r := Toggle(g, x, y);
    if g.InBounds(x, y) && !g.At(x, y).revealed {
      GridExt(Toggle(r, x, y), g);
    }
  }

  // ---------------------------------------------------------------------------
  // Reveal and the chord
  // ---------------------------------------------------------------------------

  /**
   * Reveal on (x, y), and each step of the chord: nothing for an off-board,
   * revealed or flagged cell; a mine explodes (game over); an Empty cell is
   * flooded and a Number cell revealed, each followed by the win check.
   */
  ghost function RevealAt(g: Grid, over: bool, x: int, y: int): (res: (Grid, bool))
    requires g.Valid()
    ensures res.0.Valid() && res.0.width == g.width && res.0.height == g.height
  {
    var c := g.Get(x, y);
    if c.kind == Invalid || c.revealed || c.flagged then (g, over)
    else if c.kind == Mine then (Explode(g, c), true)
    else if c.kind == Empty then CheckWin(Flood(g, c), over)
    else CheckWin(Uncover(g, c), over)
  }

  /** No move changes where the mines are or what the numbers say. */
  lemma RevealAtLayout(g: Grid, over: bool, x: int, y: int)
    requires g.Valid()
    ensures SameLayout(g, RevealAt(g, over, x, y).0)
  {
    var c := g.Get(x, y);
    if c.kind == Invalid || c.revealed || c.flagged {
    } else if c.kind == Mine {
      ExplodeFacts(g, c);
    } else {
      var n := if c.kind == Empty then Flood(g, c) else Uncover(g, c);
      assert RevealAt(g, over, x, y) == CheckWin(n, over);
      GrowsLayout(g, n);
      CheckWinValid(n, over);
      SameLayoutTrans(g, n, CheckWin(n, over).0);
    }
  }

  /** The no-op cases, and a Number cell: only that cell changes before the win check. */
  lemma RevealAtFacts(g: Grid, over: bool, x: int, y: int)
    requires g.Valid()
    ensures var c := g.Get(x, y);
      && (c.kind == Invalid || c.revealed || c.flagged ==> RevealAt(g, over, x, y) == (g, over))
      && (c.kind == Number && !c.revealed && !c.flagged ==>
            RevealAt(g, over, x, y) == CheckWin(Uncover(g, c), over))
      && (c.kind == Mine && !c.revealed && !c.flagged ==>
            RevealAt(g, over, x, y) == (Explode(g, c), true))
  {
  }

  /** A reveal keeps the layout. */
  lemma StepLayout(a: (Grid, bool), b: (Grid, bool), i: int, j: int)
    requires a.0.Valid() && b == RevealAt(a.0, a.1, i, j)
    ensures b.0.Valid() && SameLayout(a.0, b.0)
  {
    RevealAtLayout(a.0, a.1, i, j);
  }

  /** A reveal keeps the explosion invariant. */
  lemma StepKeepsOneExplosion(a: (Grid, bool), b: (Grid, bool), i: int, j: int)
    requires a.0.Valid() && b == RevealAt(a.0, a.1, i, j)
    ensures b.0.Valid() && (OneExplosion(a.0) ==> KeepsExplosions(a.0, a.1, b.0, b.1))
  {
    if OneExplosion(a.0) {
      RevealAtKeepsOneExplosion(a.0, a.1, i, j);
    }
  }

  /** The states a run of steps passes through: s0, then the state after each of the first n steps. */
  ghost function Trace<S>(step: (S, nat) -> S, s0: S, n: nat): (t: seq<S>)
    ensures |t| == n + 1 && t[0] == s0
  {
    if n == 0 then [s0]
    else
      var p := Trace(step, s0, n - 1);
      p + [step(p[n - 1], n - 1)]
  }

  /** Each state of a trace is the step applied to the one before it. */
  lemma {:induction false} TraceStep<S>(step: (S, nat) -> S, s0: S, n: nat, j: nat)
    requires j < n
    ensures Trace(step, s0, n)[j + 1] == step(Trace(step, s0, n)[j], j)
  {
    var t := Trace(step, s0, n);
    var p := Trace(step, s0, n - 1);
    assert t[..n] == p;
    if j < n - 1 {
      TraceStep(step, s0, n - 1, j);
      assert t[j] == p[j] && t[j + 1] == p[j + 1];
    }
  }

  /** The chord's k-th step: the reveal of the k-th neighbour of (x, y) in scan order. */
  ghost function ChordStep(x: int, y: int): (step: ((Grid, bool), nat) -> (Grid, bool))
  {
    (s: (Grid, bool), k: nat) =>
      if s.0.Valid() && k < 8 then RevealAt(s.0, s.1, x + Offsets[k].0, y + Offsets[k].1) else s
  }

  /** A trace of steps that keep a board valid with its dimensions has only such boards. */
  lemma {:induction false} TraceValid(step: ((Grid, bool), nat) -> (Grid, bool), s0: (Grid, bool), n: nat, j: nat)
    requires s0.0.Valid() && j <= n
    requires forall s: (Grid, bool), k: nat | s.0.Valid() && k < n ::
      step(s, k).0.Valid() && step(s, k).0.width == s.0.width && step(s, k).0.height == s.0.height
    ensures Trace(step, s0, n)[j].0.Valid()
    ensures Trace(step, s0, n)[j].0.width == s0.0.width && Trace(step, s0, n)[j].0.height == s0.0.height
  {
    if j > 0 {
      TraceValid(step, s0, n, j - 1);
      TraceStep(step, s0, n, j - 1);
    }
  }

  /** A trace of steps that keep the layout keeps the layout of its first board. */
  lemma {:induction false} TraceLayout(step: ((Grid, bool), nat) -> (Grid, bool), s0: (Grid, bool), n: nat, j: nat)
    requires s0.0.Valid() && j <= n
    requires forall s: (Grid, bool), k: nat | s.0.Valid() && k < n ::
      step(s, k).0.Valid() && SameLayout(s.0, step(s, k).0)
    ensures Trace(step, s0, n)[j].0.Valid() && SameLayout(s0.0, Trace(step, s0, n)[j].0)
  {
    if j > 0 {
      var t := Trace(step, s0, n);
      TraceLayout(step, s0, n, j - 1);
      TraceStep(step, s0, n, j - 1);
      SameLayoutTrans(s0.0, t[j - 1].0, t[j].0);
    }
  }

  /** A trace of steps that keep the explosion invariant keeps it from its first board on. */
  lemma {:induction false} TraceKeepsExplosions(step: ((Grid, bool), nat) -> (Grid, bool), s0: (Grid, bool), n: nat, j: nat)
    requires s0.0.Valid() && OneExplosion(s0.0) && j <= n
    requires forall s: (Grid, bool), k: nat | s.0.Valid() && OneExplosion(s.0) && k < n ::
      step(s, k).0.Valid() && KeepsExplosions(s.0, s.1, step(s, k).0, step(s, k).1)
    ensures Trace(step, s0, n)[j].0.Valid()
    ensures KeepsExplosions(s0.0, s0.1, Trace(step, s0, n)[j].0, Trace(step, s0, n)[j].1)
  {
    if j > 0 {
      var t := Trace(step, s0, n);
      TraceKeepsExplosions(step, s0, n, j - 1);
      TraceStep(step, s0, n, j - 1);
      KeepsExplosionsTrans(s0.0, s0.1, t[j - 1].0, t[j - 1].1, t[j].0, t[j].1);
    }
  }

  /** A chord step from a valid board is a reveal, and keeps the board valid with its dimensions. */
  lemma ChordStepReveal(s: (Grid, bool), x: int, y: int, k: nat)
    requires s.0.Valid() && k < 8
    ensures ChordStep(x, y)(s, k) == RevealAt(s.0, s.1, x + Offsets[k].0, y + Offsets[k].1)
    ensures ChordStep(x, y)(s, k).0.Valid()
    ensures ChordStep(x, y)(s, k).0.width == s.0.width && ChordStep(x, y)(s, k).0.height == s.0.height
  {
  }

  /** A chord step keeps a board valid with its dimensions. */
  lemma ChordStepValid(x: int, y: int)
    ensures forall s: (Grid, bool), k: nat | s.0.Valid() && k < 8 ::
      ChordStep(x, y)(s, k).0.Valid() &&
      ChordStep(x, y)(s, k).0.width == s.0.width && ChordStep(x, y)(s, k).0.height == s.0.height
  {
    forall s: (Grid, bool), k: nat | s.0.Valid() && k < 8
      ensures ChordStep(x, y)(s, k).0.Valid()
      ensures ChordStep(x, y)(s, k).0.width == s.0.width && ChordStep(x, y)(s, k).0.height == s.0.height
    {
      ChordStepReveal(s, x, y, k);
    }
  }

  /** A chord step keeps the layout. */
  lemma ChordStepLayout(x: int, y: int)
    ensures forall s: (Grid, bool), k: nat | s.0.Valid() && k < 8 ::
      ChordStep(x, y)(s, k).0.Valid() && SameLayout(s.0, ChordStep(x, y)(s, k).0)
  {
    forall s: (Grid, bool), k: nat | s.0.Valid() && k < 8
      ensures ChordStep(x, y)(s, k).0.Valid() && SameLayout(s.0, ChordStep(x, y)(s, k).0)
    {
      ChordStepReveal(s, x, y, k);
      StepLayout(s, RevealAt(s.0, s.1, x + Offsets[k].0, y + Offsets[k].1), x + Offsets[k].0, y + Offsets[k].1);
    }
  }

  /** A chord step keeps the explosion invariant. */
  lemma ChordStepKeepsExplosions(x: int, y: int)
    ensures forall s: (Grid, bool), k: nat | s.0.Valid() && OneExplosion(s.0) && k < 8 ::
      ChordStep(x, y)(s, k).0.Valid() && KeepsExplosions(s.0, s.1, ChordStep(x, y)(s, k).0, ChordStep(x, y)(s, k).1)
  {
    forall s: (Grid, bool), k: nat | s.0.Valid() && OneExplosion(s.0) && k < 8
      ensures ChordStep(x, y)(s, k).0.Valid()
      ensures KeepsExplosions(s.0, s.1, ChordStep(x, y)(s, k).0, ChordStep(x, y)(s, k).1)
    {
      ChordStepReveal(s, x, y, k);
      StepKeepsOneExplosion(s, RevealAt(s.0, s.1, x + Offsets[k].0, y + Offsets[k].1), x + Offsets[k].0, y + Offsets[k].1);
    }
  }

  /** Every state of the chord's run from a valid board is valid, with the board's dimensions. */
  lemma ChordStatesValid(s0: (Grid, bool), x: int, y: int, j: nat)
    requires s0.0.Valid() && j <= 8
    ensures var t := Trace(ChordStep(x, y), s0, 8);
      t[j].0.Valid() && t[j].0.width == s0.0.width && t[j].0.height == s0.0.height
  {
    ChordStepValid(x, y);
    TraceValid(ChordStep(x, y), s0, 8, j);
  }

  /** The states the chord passes through: the board before it and after each neighbour. */
  ghost function ChordTrace(s0: (Grid, bool), x: int, y: int): (t: seq<(Grid, bool)>)
    requires s0.0.Valid()
    ensures |t| == 9 && t[0] == s0
    ensures t[8].0.Valid() && t[8].0.width == s0.0.width && t[8].0.height == s0.0.height
  {
    ChordStatesValid(s0, x, y, 8);
    Trace(ChordStep(x, y), s0, 8)
  }

  /** Each state of the chord's trace is valid, and the next is the reveal of the next neighbour. */
  lemma ChordTraceStep(s0: (Grid, bool), x: int, y: int, j: nat)
    requires s0.0.Valid() && j < 8
    ensures ChordTrace(s0, x, y)[j].0.Valid()
    ensures ChordTrace(s0, x, y)[j + 1] ==
      RevealAt(ChordTrace(s0, x, y)[j].0, ChordTrace(s0, x, y)[j].1, x + Offsets[j].0, y + Offsets[j].1)
  {
    ChordStatesValid(s0, x, y, j);
    TraceStep(ChordStep(x, y), s0, 8, j);
    ChordStepReveal(Trace(ChordStep(x, y), s0, 8)[j], x, y, j);
  }

  /** No state of the chord changes where the mines are or what the numbers say. */
  lemma ChordTraceLayout(s0: (Grid, bool), x: int, y: int, j: nat)
    requires s0.0.Valid() && j <= 8
    ensures ChordTrace(s0, x, y)[j].0.Valid() && SameLayout(s0.0, ChordTrace(s0, x, y)[j].0)
  {
    ChordStepLayout(x, y);
    TraceLayout(ChordStep(x, y), s0, 8, j);
  }

  /**
   * AutoFillSurroundingCells: on a revealed Number cell with something left
   * to open around it and as many flags as mines around it, reveal every
   * neighbour in scan order.
   */
  ghost function Chord(g: Grid, over: bool, x: int, y: int): (res: (Grid, bool))
    requires g.Valid()
    ensures res.0.Valid() && res.0.width == g.width && res.0.height == g.height
  {
    var c := g.Get(x, y);
    if c.kind != Number || !c.revealed then (g, over)
    else if !g.AnyOpenableAround(x, y) then (g, over)
    else if g.MinesAround(x, y) != g.FlagsAround(x, y) then (g, over)
    else ChordTrace((g, over), x, y)[8]
  }

  lemma ChordLayout(g: Grid, over: bool, x: int, y: int)
    requires g.Valid()
    ensures SameLayout(g, Chord(g, over, x, y).0)
  {
    ChordTraceLayout((g, over), x, y, 8);
  }

  /** The chord does nothing unless its target is a revealed Number whose mine and flag counts agree. */
  lemma ChordNoop(g: Grid, over: bool, x: int, y: int)
    requires g.Valid()
    requires var c := g.Get(x, y);
      c.kind != Number || !c.revealed || g.MinesAround(x, y) != g.FlagsAround(x, y)
    ensures Chord(g, over, x, y) == (g, over)
  {
  }

  // ---------------------------------------------------------------------------
  // At most one explosion
  // ---------------------------------------------------------------------------

  /**
   * Only mines explode, at most one cell is exploded, and once one is, every
   * mine is revealed.
   */
  ghost predicate OneExplosion(g: Grid)
    requires g.Valid()
  {
    && (forall p: Pos | g.InBounds(p.x, p.y) && g.At(p.x, p.y).exploded :: g.At(p.x, p.y).kind == Mine)
    && (forall p: Pos, q: Pos | g.InBounds(p.x, p.y) && g.InBounds(q.x, q.y) && g.At(p.x, p.y).exploded && g.At(q.x, q.y).exploded :: p == q)
    && (forall p: Pos, q: Pos | g.InBounds(p.x, p.y) && g.InBounds(q.x, q.y) && g.At(p.x, p.y).exploded && g.At(q.x, q.y).kind == Mine :: g.At(q.x, q.y).revealed)
  }

  ghost predicate NoExplosion(g: Grid)
    requires g.Valid()
  {
    forall x, y | g.InBounds(x, y) :: !g.At(x, y).exploded
  }

  /** A board that only gained revealed cells keeps the explosion invariant. */
  lemma GrowsKeepsOneExplosion(g: Grid, r: Grid)
    requires g.Valid() && r.Valid() && Grows(g, r) && OneExplosion(g)
    ensures OneExplosion(r)
  {
  }

  /** While some mine is hidden, nothing has exploded. */
  lemma HiddenMineNoExplosion(g: Grid, p: Pos)
    requires g.Valid() && OneExplosion(g)
    requires g.InBounds(p.x, p.y) && g.At(p.x, p.y).kind == Mine && !g.At(p.x, p.y).revealed
    ensures NoExplosion(g)
  {
  }

  /**
   * What a move does to the explosion state: the invariant holds afterwards,
   * the game never comes back from over, and a move that leaves the game
   * running explodes nothing.
   */
  ghost predicate KeepsExplosions(g: Grid, over: bool, r: Grid, o: bool)
    requires g.Valid() && r.Valid()
  {
    && OneExplosion(r)
    && (over ==> o)
    && (NoExplosion(g) && !o ==> NoExplosion(r))
  }

  lemma KeepsExplosionsTrans(g: Grid, over: bool, m: Grid, om: bool, r: Grid, o: bool)
    requires g.Valid() && m.Valid() && r.Valid()
    requires KeepsExplosions(g, over, m, om) && KeepsExplosions(m, om, r, o)
    ensures KeepsExplosions(g, over, r, o)
  {
  }

  /** A hidden mine can only be hit while nothing has exploded; afterwards it is the one exploded cell. */
  lemma ExplodeKeepsOneExplosion(g: Grid, c: Cell)
    requires g.Valid() && g.Holds(c) && c.kind == Mine && !c.revealed && OneExplosion(g)
    ensures NoExplosion(g) && OneExplosion(Explode(g, c))
  {
    HiddenMineNoExplosion(g, c.pos);
    ExplodeFacts(g, c);
  }

  lemma CheckWinKeepsOneExplosion(g: Grid, over: bool)
    requires g.Valid() && OneExplosion(g)
    ensures CheckWin(g, over).0.Valid() && KeepsExplosions(g, over, CheckWin(g, over).0, CheckWin(g, over).1)
  {
    CheckWinFacts(g, over);
  }

  /**
   * One reveal keeps the explosion invariant, and it only explodes a cell by
   * ending the game: a reveal that leaves the game running adds no explosion.
   */
  lemma RevealAtKeepsOneExplosion(g: Grid, over: bool, x: int, y: int)
    requires g.Valid() && OneExplosion(g)
    ensures RevealAt(g, over, x, y).0.Valid() && KeepsExplosions(g, over, RevealAt(g, over, x, y).0, RevealAt(g, over, x, y).1)
  {
    var c := g.Get(x, y);
    if c.kind == Invalid || c.revealed || c.flagged {
    } else if c.kind == Mine {
      ExplodeKeepsOneExplosion(g, c);
    } else {
      var n := if c.kind == Empty then Flood(g, c) else Uncover(g, c);
      assert RevealAt(g, over, x, y) == CheckWin(n, over);
      GrowsKeepsOneExplosion(g, n);
      CheckWinKeepsOneExplosion(n, over);
    }
  }

  /**
   * The chord keeps the invariant: after a mine explodes every mine is
   * revealed, so no later neighbour can explode a second one.
   */
  lemma ChordTraceKeepsOneExplosion(s0: (Grid, bool), x: int, y: int, j: nat)
    requires s0.0.Valid() && j <= 8 && OneExplosion(s0.0)
    ensures ChordTrace(s0, x, y)[j].0.Valid()
    ensures KeepsExplosions(s0.0, s0.1, ChordTrace(s0, x, y)[j].0, ChordTrace(s0, x, y)[j].1)
  {
    ChordStepKeepsExplosions(x, y);
    TraceKeepsExplosions(ChordStep(x, y), s0, 8, j);
  }

  lemma ChordKeepsOneExplosion(g: Grid, over: bool, x: int, y: int)
    requires g.Valid() && OneExplosion(g)
    ensures Chord(g, over, x, y).0.Valid() && KeepsExplosions(g, over, Chord(g, over, x, y).0, Chord(g, over, x, y).1)
  {
    ChordTraceKeepsOneExplosion((g, over), x, y, 8);
  }
}
