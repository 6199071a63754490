/**
 * Building a board: the fresh grid of a new game, the first-click exclusion
 * zone, the wrapping linear probe that places each mine, and the adjacency
 * numbers computed once the mines are down.
 */
module Setup {
  import opened Cells
  import opened Grids

  /** GenerateCells: every cell Empty, hidden and unflagged, at its own position. */
  function FreshGrid(w: nat, h: nat): (g: Grid)
    ensures g.Valid() && g.width == w && g.height == h
  {
    Grid(w, h, seq(w, x => seq(h, y => Fresh(x, y))))
  }

  /** No mine placed, nothing revealed or exploded, no number: the board before the first click. */
  ghost predicate Pristine(g: Grid)
    requires g.Valid()
  {
    forall x, y | g.InBounds(x, y) ::
      g.At(x, y).kind == Empty && g.At(x, y).number == 0 && !g.At(x, y).revealed && !g.At(x, y).exploded
  }

  lemma FreshGridPristine(w: nat, h: nat)
    ensures Pristine(FreshGrid(w, h)) && FreshGrid(w, h).Mines() == {}
    ensures forall x, y | FreshGrid(w, h).InBounds(x, y) :: !FreshGrid(w, h).At(x, y).flagged
  {
  }

  // ---------------------------------------------------------------------------
  // The first-click exclusion zone
  // ---------------------------------------------------------------------------

  /**
   * The position of the cell GetCell returns for (x, y): the cell's own on the
   * board, the default cell's (0, 0) off it.
   */
  function ReportedPos(g: Grid, x: int, y: int): (p: Pos)
    ensures g.Valid() ==> p == g.Get(x, y).pos
  {
    if g.InBounds(x, y) then Pos(x, y) else Pos(0, 0)
  }

  /**
   * InStartRange: the checked cell's position equals the start cell's position or
   * the position of one of the start cell's 8 neighbours as GetCell returns them,
   * so a neighbour off the board contributes the default position (0, 0).
   */
  function InStartRange(g: Grid, startCell: Cell, checkCell: Cell): (b: bool)
  {
    var s := startCell.pos;
    || checkCell.pos == s
    || checkCell.pos == ReportedPos(g, s.x - 1, s.y)
    || checkCell.pos == ReportedPos(g, s.x + 1, s.y)
    || checkCell.pos == ReportedPos(g, s.x, s.y - 1)
    || checkCell.pos == ReportedPos(g, s.x, s.y + 1)
    || checkCell.pos == ReportedPos(g, s.x + 1, s.y + 1)
    || checkCell.pos == ReportedPos(g, s.x + 1, s.y - 1)
    || checkCell.pos == ReportedPos(g, s.x - 1, s.y + 1)
    || checkCell.pos == ReportedPos(g, s.x - 1, s.y - 1)
  }

  /** The start range looks at positions only. */
  lemma StartRangeByPos(g: Grid, s: Cell, t: Cell, c: Cell, d: Cell)
    requires g.Valid() && s.pos == t.pos && c.pos == d.pos
    ensures InStartRange(g, s, c) == InStartRange(g, t, d)
  {
  }

  /** Some neighbour of s lies off the board. */
  predicate TouchesEdge(g: Grid, s: Pos)
  {
    s.x <= 0 || s.x >= g.width - 1 || s.y <= 0 || s.y >= g.height - 1
  }

  /**
   * The exclusion zone of an on-board cell p is the start position and its
   * on-board neighbours, plus (0, 0) whenever the start touches the edge.
   */
  lemma StartRangeExact(g: Grid, startCell: Cell, x: int, y: int)
    requires g.Valid() && g.InBounds(x, y)
    ensures InStartRange(g, startCell, g.At(x, y)) <==>
      || Pos(x, y) == startCell.pos
      || Adjacent(Pos(x, y), startCell.pos)
      || (Pos(x, y) == Pos(0, 0) && TouchesEdge(g, startCell.pos))
  {
  }

  /** The loop guard of the probe, negated: a cell a mine may go to. */
  predicate Eligible(g: Grid, startCell: Cell, p: Pos)
    requires g.Valid()
  {
    g.InBounds(p.x, p.y) && g.At(p.x, p.y).kind != Mine && !InStartRange(g, startCell, g.At(p.x, p.y))
  }

  ghost function Eligibles(g: Grid, startCell: Cell): (cells: set<Pos>)
    requires g.Valid()
  {
    set x, y | 0 <= x < g.width && 0 <= y < g.height && Eligible(g, startCell, Pos(x, y)) :: Pos(x, y)
  }

  /** A click on the centre of a 3×3 board leaves no eligible cell, so not even one mine can be placed. */
  lemma CentreClickLeavesNoCell()
    ensures FreshGrid(3, 3).Valid() && Eligibles(FreshGrid(3, 3), FreshGrid(3, 3).Get(1, 1)) == {}
  {
  }

  // ---------------------------------------------------------------------------
  // The wrapping probe: x advances first, then y, back to (0, 0) after the last cell
  // ---------------------------------------------------------------------------

  function Index(g: Grid, p: Pos): (i: int)
  {
    p.y * g.width + p.x
  }

  /** Steps the probe takes from `from` to reach `to`. */
  function Dist(g: Grid, from: Pos, to: Pos): (d: int)
  {
    var d := Index(g, to) - Index(g, from);
    if d >= 0 then d else d + g.width * g.height
  }

  /** One step of the probe. */
  function Next(g: Grid, p: Pos): (q: Pos)
  {
    if p.x + 1 < g.width then Pos(p.x + 1, p.y)
    else if p.y + 1 < g.height then Pos(0, p.y + 1)
    else Pos(0, 0)
  }

  lemma MulMono(a: int, b: int, c: nat)
    requires a <= b
    ensures a * c <= b * c
  {
  }

  lemma IndexBounds(g: Grid, p: Pos)
    requires g.InBounds(p.x, p.y)
    ensures 0 <= Index(g, p) < g.width * g.height
  {
    MulMono(0, p.y, g.width);
    MulMono(p.y + 1, g.height, g.width);
  }

  lemma IndexInjective(g: Grid, p: Pos, q: Pos)
    requires g.InBounds(p.x, p.y) && g.InBounds(q.x, q.y) && Index(g, p) == Index(g, q)
    ensures p == q
  {
    if p.y < q.y {
      MulMono(p.y + 1, q.y, g.width);
    } else if q.y < p.y {
      MulMono(q.y + 1, p.y, g.width);
    }
  }

  lemma DistBounds(g: Grid, from: Pos, p: Pos)
    requires g.InBounds(from.x, from.y) && g.InBounds(p.x, p.y)
    ensures 0 <= Dist(g, from, p) < g.width * g.height
    ensures Dist(g, from, p) == 0 <==> p == from
  {
    IndexBounds(g, from);
    IndexBounds(g, p);
    if Dist(g, from, p) == 0 {
      IndexInjective(g, from, p);
    }
  }

  /** Unless the probe is back where it started, each step moves it one further. */
  lemma NextDist(g: Grid, from: Pos, p: Pos)
    requires g.InBounds(from.x, from.y) && g.InBounds(p.x, p.y)
    requires Dist(g, from, p) + 1 < g.width * g.height
    ensures g.InBounds(Next(g, p).x, Next(g, p).y)
    ensures Dist(g, from, Next(g, p)) == Dist(g, from, p) + 1
  {
    IndexBounds(g, from);
    IndexBounds(g, p);
    var n := Next(g, p);
    if p.x + 1 < g.width {
    } else if p.y + 1 < g.height {
      assert Index(g, n) == (p.y + 1) * g.width;
    } else {
      assert Index(g, p) == g.width * g.height - 1 by {
        assert (p.y + 1) * g.width == g.height * g.width;
      }
    }
  }

  /** Distinct cells lie at distinct distances from the probe's start. */
  lemma DistInjective(g: Grid, from: Pos, p: Pos, q: Pos)
    requires g.InBounds(from.x, from.y) && g.InBounds(p.x, p.y) && g.InBounds(q.x, q.y)
    requires Dist(g, from, p) == Dist(g, from, q)
    ensures p == q
  {
    IndexBounds(g, from);
    IndexBounds(g, p);
    IndexBounds(g, q);
    IndexInjective(g, p, q);
  }

  /** No cell the probe started at `from` visits in its first d steps is eligible. */
  ghost predicate NoneBefore(g: Grid, startCell: Cell, from: Pos, d: int)
    requires g.Valid()
  {
    forall q: Pos | g.InBounds(q.x, q.y) && Dist(g, from, q) < d :: !Eligible(g, startCell, q)
  }

  /**
   * p is where the probe started at `from` stops: it is eligible, and every cell
   * the probe passes on its way there is not.
   */
  ghost predicate ProbeHit(g: Grid, startCell: Cell, from: Pos, p: Pos)
    requires g.Valid()
  {
    Eligible(g, startCell, p) && NoneBefore(g, startCell, from, Dist(g, from, p))
  }

  /**
   * The probe at p with at most `fuel` further steps: it stops at p when p is
   * eligible and otherwise moves on to the next cell in probe order.
   */
  function ProbeFrom(g: Grid, startCell: Cell, p: Pos, fuel: nat): (hit: Pos)
    requires g.Valid()
    decreases fuel
  {
    if Eligible(g, startCell, p) || fuel == 0 then p else ProbeFrom(g, startCell, Next(g, p), fuel - 1)
  }

  /** The steps a probe may take: one fewer than the number of cells. */
  function ProbeFuel(g: Grid): (fuel: nat)
  {
    if g.width * g.height > 0 then g.width * g.height - 1 else 0
  }

  /** Where the probe started at `from` stops; it visits each cell of the board at most once. */
  function Probe(g: Grid, startCell: Cell, from: Pos): (hit: Pos)
    requires g.Valid()
  {
    ProbeFrom(g, startCell, from, ProbeFuel(g))
  }

  /** The probe has not passed any cell yet. */
  lemma NoneBeforeStart(g: Grid, startCell: Cell, from: Pos)
    requires g.Valid() && g.InBounds(from.x, from.y)
    ensures Dist(g, from, from) == 0 && NoneBefore(g, startCell, from, 0)
  {
    forall q: Pos | g.InBounds(q.x, q.y) ensures Dist(g, from, q) >= 0 {
      DistBounds(g, from, q);
    }
  }

  /** Passing an ineligible cell p, the probe moves on to Next(p) one step further, still on the board. */
  lemma NoneBeforeNext(g: Grid, startCell: Cell, from: Pos, p: Pos)
    requires g.Valid() && g.InBounds(from.x, from.y) && g.InBounds(p.x, p.y)
    requires NoneBefore(g, startCell, from, Dist(g, from, p)) && !Eligible(g, startCell, p)
    requires Eligibles(g, startCell) != {}
    ensures Dist(g, from, p) + 1 < g.width * g.height
    ensures g.InBounds(Next(g, p).x, Next(g, p).y) && Dist(g, from, Next(g, p)) == Dist(g, from, p) + 1
    ensures NoneBefore(g, startCell, from, Dist(g, from, p) + 1)
  {
    var e :| e in Eligibles(g, startCell);
    DistBounds(g, from, e);
    assert Dist(g, from, p) < Dist(g, from, e) by {
      if Dist(g, from, p) == Dist(g, from, e) {
        DistInjective(g, from, p, e);
      }
    }
    NextDist(g, from, p);
    forall q: Pos | g.InBounds(q.x, q.y) && Dist(g, from, q) < Dist(g, from, p) + 1
      ensures !Eligible(g, startCell, q)
    {
      if Dist(g, from, q) == Dist(g, from, p) {
        DistInjective(g, from, q, p);
      }
    }
  }

  /**
   * A probe at p that has passed only ineligible cells, on a board with some
   * eligible cell, stops at the first eligible cell in probe order.
   */
  lemma {:induction false} ProbeFromHit(g: Grid, startCell: Cell, from: Pos, p: Pos, fuel: nat)
    requires g.Valid() && g.InBounds(from.x, from.y) && g.InBounds(p.x, p.y)
    requires Dist(g, from, p) + fuel == g.width * g.height - 1
    requires NoneBefore(g, startCell, from, Dist(g, from, p))
    requires Eligibles(g, startCell) != {}
    ensures ProbeHit(g, startCell, from, ProbeFrom(g, startCell, p, fuel))
    decreases fuel
  {
    if Eligible(g, startCell, p) {
      assert ProbeFrom(g, startCell, p, fuel) == p;
    } else {
      NoneBeforeNext(g, startCell, from, p);
      ProbeFromHit(g, startCell, from, Next(g, p), fuel - 1);
      assert ProbeFrom(g, startCell, p, fuel) == ProbeFrom(g, startCell, Next(g, p), fuel - 1);
    }
  }

  /** On a board with an eligible cell, the probe stops at the first one in probe order. */
  lemma ProbeHits(g: Grid, startCell: Cell, from: Pos)
    requires g.Valid() && g.InBounds(from.x, from.y) && Eligibles(g, startCell) != {}
    ensures ProbeHit(g, startCell, from, Probe(g, startCell, from))
  {
    IndexBounds(g, from);
    NoneBeforeStart(g, startCell, from);
    ProbeFromHit(g, startCell, from, from, ProbeFuel(g));
  }

  lemma ProbeEligible(g: Grid, startCell: Cell, from: Pos)
    requires g.Valid() && g.InBounds(from.x, from.y) && Eligibles(g, startCell) != {}
    ensures Eligible(g, startCell, Probe(g, startCell, from))
  {
    ProbeHits(g, startCell, from);
  }

  // ---------------------------------------------------------------------------
  // Placing mines
  // ---------------------------------------------------------------------------

  /** `state[x, y].type = Mine`: only the type changes (the probe only ever stops on the board). */
  function SetMine(g: Grid, p: Pos): (r: Grid)
    requires g.Valid()
    ensures r.Valid() && r.width == g.width && r.height == g.height
  {
    if g.InBounds(p.x, p.y) then g.Set(p.x, p.y, g.At(p.x, p.y).(kind := Mine)) else g
  }

  /** The grid after SetMine at each of ps, in order. */
  function WithMines(g: Grid, ps: seq<Pos>): (r: Grid)
    requires g.Valid()
    ensures r.Valid() && r.width == g.width && r.height == g.height
    ensures forall x, y {:trigger r.At(x, y)} | g.InBounds(x, y) ::
      r.At(x, y) == g.At(x, y) || r.At(x, y) == g.At(x, y).(kind := Mine)
  {
    if ps == [] then g else SetMine(WithMines(g, ps[..|ps| - 1]), ps[|ps| - 1])
  }

  /** The start range depends on positions only, which every valid grid of one size agrees on. */
  lemma StartRangeSizeOnly(g: Grid, r: Grid, startCell: Cell, checkCell: Cell)
    requires g.Valid() && r.Valid() && g.width == r.width && g.height == r.height
    ensures InStartRange(g, startCell, checkCell) == InStartRange(r, startCell, checkCell)
  {
  }

  lemma SetMineMines(g: Grid, p: Pos)
    requires g.Valid() && g.InBounds(p.x, p.y) && g.At(p.x, p.y).kind != Mine
    ensures p !in g.Mines() && SetMine(g, p).Mines() == g.Mines() + {p}
  {
    var r := SetMine(g, p);
    forall q: Pos ensures q in r.Mines() <==> q in g.Mines() + {p} {
      if q in r.Mines() || q in g.Mines() {
        assert g.InBounds(q.x, q.y);
      }
    }
  }

  /** A mine placed on an eligible cell takes exactly that cell out of the eligible set. */
  lemma EligiblesSetMine(g: Grid, startCell: Cell, p: Pos)
    requires g.Valid() && Eligible(g, startCell, p)
    ensures Eligibles(SetMine(g, p), startCell) == Eligibles(g, startCell) - {p}
  {
    var r := SetMine(g, p);
    forall q: Pos ensures q in Eligibles(r, startCell) <==> q in Eligibles(g, startCell) - {p} {
      if q in Eligibles(r, startCell) || q in Eligibles(g, startCell) {
        assert g.InBounds(q.x, q.y);
        StartRangeSizeOnly(g, r, startCell, g.At(q.x, q.y));
      }
    }
  }

  /** GenerateMines: the i-th mine goes where the probe started at picks[i] stops on the board left by the mines before it. */
  function Placements(g: Grid, startCell: Cell, picks: seq<Pos>): (ps: seq<Pos>)
    requires g.Valid()
    ensures |ps| == |picks|
  {
    if picks == [] then []
    else
      var front := Placements(g, startCell, picks[..|picks| - 1]);
      front + [Probe(WithMines(g, front), startCell, picks[|picks| - 1])]
  }

  /** Each chosen cell was eligible when its turn came. */
  ghost predicate PlacedInTurn(g: Grid, startCell: Cell, ps: seq<Pos>)
    requires g.Valid()
  {
    ps == [] ||
      var front, last := ps[..|ps| - 1], ps[|ps| - 1];
      PlacedInTurn(g, startCell, front) && Eligible(WithMines(g, front), startCell, last)
  }

  /**
   * Placing mines one after another, each at a cell eligible at that moment,
   * adds exactly |ps| mines.
   */
  lemma {:induction false} WithMinesCount(g: Grid, startCell: Cell, ps: seq<Pos>)
    requires g.Valid()
    requires PlacedInTurn(g, startCell, ps)
    ensures |WithMines(g, ps).Mines()| == |g.Mines()| + |ps|
  {
    if ps != [] {
      var front := ps[..|ps| - 1];
      WithMinesCount(g, startCell, front);
      SetMineMines(WithMines(g, front), ps[|ps| - 1]);
    }
  }

  /**
   * With at least as many eligible cells as picks, every mine lands on a cell
   * that is eligible in its turn, so each one uses up one eligible cell.
   */
  lemma {:induction false} PlacementsInTurn(g: Grid, startCell: Cell, picks: seq<Pos>)
    requires g.Valid() && |picks| <= |Eligibles(g, startCell)|
    requires forall i | 0 <= i < |picks| :: g.InBounds(picks[i].x, picks[i].y)
    ensures PlacedInTurn(g, startCell, Placements(g, startCell, picks))
    ensures |Eligibles(WithMines(g, Placements(g, startCell, picks)), startCell)| == |Eligibles(g, startCell)| - |picks|
  {
    if picks != [] {
      var front := picks[..|picks| - 1];
      PlacementsInTurn(g, startCell, front);
      var fp := Placements(g, startCell, front);
      var cur := WithMines(g, fp);
      var hit := Probe(cur, startCell, picks[|picks| - 1]);
      ProbeEligible(cur, startCell, picks[|picks| - 1]);
      assert Placements(g, startCell, picks) == fp + [hit];
      PlacedStep(g, startCell, fp, hit);
    }
  }

  /** One more mine on a cell eligible in its turn keeps PlacedInTurn and uses up that cell. */
  lemma PlacedStep(g: Grid, startCell: Cell, fp: seq<Pos>, hit: Pos)
    requires g.Valid() && PlacedInTurn(g, startCell, fp) && Eligible(WithMines(g, fp), startCell, hit)
    requires |Eligibles(WithMines(g, fp), startCell)| == |Eligibles(g, startCell)| - |fp|
    ensures PlacedInTurn(g, startCell, fp + [hit])
    ensures |Eligibles(WithMines(g, fp + [hit]), startCell)| == |Eligibles(g, startCell)| - |fp| - 1
  {
    var ps := fp + [hit];
    assert ps[..|ps| - 1] == fp;
    EligiblesSetMine(WithMines(g, fp), startCell, hit);
    assert hit in Eligibles(WithMines(g, fp), startCell);
  }

  /** Each mine lands where its probe first meets an eligible cell. */
  lemma PlacementHit(g: Grid, startCell: Cell, picks: seq<Pos>, i: nat)
    requires g.Valid() && |picks| <= |Eligibles(g, startCell)| && i < |picks|
    requires forall k | 0 <= k < |picks| :: g.InBounds(picks[k].x, picks[k].y)
    ensures var ps := Placements(g, startCell, picks);
      ProbeHit(WithMines(g, ps[..i]), startCell, picks[i], ps[i])
  {
    PlacementAt(g, startCell, picks, i);
    PlacementRoom(g, startCell, picks, i);
    ProbeHits(WithMines(g, Placements(g, startCell, picks[..i])), startCell, picks[i]);
  }

  /** Before the i-th mine, with i below the number of eligible cells, an eligible cell is left. */
  lemma PlacementRoom(g: Grid, startCell: Cell, picks: seq<Pos>, i: nat)
    requires g.Valid() && |picks| <= |Eligibles(g, startCell)| && i < |picks|
    requires forall k | 0 <= k < |picks| :: g.InBounds(picks[k].x, picks[k].y)
    ensures Eligibles(WithMines(g, Placements(g, startCell, picks[..i])), startCell) != {}
  {
    PlacementsInTurn(g, startCell, picks[..i]);
  }

  /** The i-th placement is the probe from picks[i] on the board the earlier picks left. */
  lemma PlacementAt(g: Grid, startCell: Cell, picks: seq<Pos>, i: nat)
    requires g.Valid() && i < |picks|
    ensures var ps := Placements(g, startCell, picks);
      ps[..i] == Placements(g, startCell, picks[..i]) &&
      ps[i] == Probe(WithMines(g, ps[..i]), startCell, picks[i])
  {
    var ps := Placements(g, startCell, picks);
    var fp := Placements(g, startCell, picks[..i]);
    PlacementsPrefix(g, startCell, picks, i);
    PlacementsPrefix(g, startCell, picks, i + 1);
    assert picks[..i + 1][..i] == picks[..i];
    assert ps[i] == ps[..i + 1][i];
  }

  /** The first i placements depend on the first i picks only. */
  lemma {:induction false} PlacementsPrefix(g: Grid, startCell: Cell, picks: seq<Pos>, i: nat)
    requires g.Valid() && i <= |picks|
    ensures Placements(g, startCell, picks)[..i] == Placements(g, startCell, picks[..i])
    decreases |picks|
  {
    if i < |picks| {
      var front := picks[..|picks| - 1];
      PlacementsPrefix(g, startCell, front, i);
      assert front[..i] == picks[..i];
    } else {
      assert picks[..i] == picks;
    }
  }

  /** No mine lands in the start range: its cells keep their type. */
  lemma {:induction false} WithMinesSpareStart(g: Grid, startCell: Cell, ps: seq<Pos>)
    requires g.Valid()
    requires PlacedInTurn(g, startCell, ps)
    ensures forall x, y | g.InBounds(x, y) && InStartRange(g, startCell, g.At(x, y)) ::
      WithMines(g, ps).At(x, y).kind == g.At(x, y).kind
  {
    if ps != [] {
      var front := ps[..|ps| - 1];
      var last := ps[|ps| - 1];
      WithMinesSpareStart(g, startCell, front);
      var prev := WithMines(g, front);
      assert WithMines(g, ps) == SetMine(prev, last);
      forall x, y | g.InBounds(x, y) && InStartRange(g, startCell, g.At(x, y))
        ensures WithMines(g, ps).At(x, y).kind == g.At(x, y).kind
      {
        SetMineSparesStart(g, prev, startCell, last, x, y);
      }
    }
  }

  /** A mine set on an eligible cell leaves every cell of the start range as it was. */
  lemma SetMineSparesStart(g: Grid, prev: Grid, startCell: Cell, last: Pos, x: int, y: int)
    requires g.Valid() && prev.Valid() && g.width == prev.width && g.height == prev.height
    requires Eligible(prev, startCell, last) && g.InBounds(x, y) && InStartRange(g, startCell, g.At(x, y))
    ensures SetMine(prev, last).At(x, y).kind == prev.At(x, y).kind
  {
    var c := prev.At(x, y);
    StartRangeSizeOnly(g, prev, startCell, c);
    StartRangeByPos(g, startCell, startCell, g.At(x, y), c);
    assert Pos(x, y) != last;
  }

  // ---------------------------------------------------------------------------
  // Adjacency numbers
  // ---------------------------------------------------------------------------

  /** GenerateNumbers on one cell: mines are skipped, others get their count and become Number when it is positive. */
  function NumberedCell(g: Grid, x: int, y: int): (c: Cell)
    requires g.Valid() && g.InBounds(x, y)
    ensures c.pos == Pos(x, y) && c.kind != Invalid && (c.kind == Mine <==> g.At(x, y).kind == Mine)
  {
    var c := g.At(x, y);
    if c.kind == Mine then c
    else
      var n := g.MinesAround(x, y);
      c.(number := n, kind := if n > 0 then Number else c.kind)
  }

  function Numbered(g: Grid): (r: Grid)
    requires g.Valid()
    ensures r.Valid() && r.width == g.width && r.height == g.height
    ensures forall x, y | g.InBounds(x, y) :: r.At(x, y) == NumberedCell(g, x, y)
  {
    Grid(g.width, g.height,
      seq(g.width, x requires 0 <= x < g.width =>
        seq(g.height, y requires 0 <= y < g.height => NumberedCell(g, x, y))))
  }

  /** Cell (i, j) once GenerateNumbers has handled every cell before (x, y), column by column. */
  function PartCell(g: Grid, x: int, y: int, i: int, j: int): (c: Cell)
    requires g.Valid() && g.InBounds(i, j)
    ensures c.pos == Pos(i, j) && c.kind != Invalid && (c.kind == Mine <==> g.At(i, j).kind == Mine)
  {
    if i < x || (i == x && j < y) then NumberedCell(g, i, j) else g.At(i, j)
  }

  /** The board once GenerateNumbers has handled every cell before (x, y). */
  function NumberedBefore(g: Grid, x: int, y: int): (r: Grid)
    requires g.Valid()
    ensures r.Valid() && r.width == g.width && r.height == g.height
    ensures forall i, j | g.InBounds(i, j) :: r.At(i, j) == PartCell(g, x, y, i, j)
  {
    Grid(g.width, g.height,
      seq(g.width, i requires 0 <= i < g.width =>
        seq(g.height, j requires 0 <= j < g.height => PartCell(g, x, y, i, j))))
  }

  /** Numbering keeps every cell's mine status, so the partly numbered board has the original counts. */
  lemma NumberedBeforeCounts(g: Grid, x: int, y: int)
    requires g.Valid()
    ensures forall i, j :: NumberedBefore(g, x, y).MinesAround(i, j) == g.MinesAround(i, j)
  {
    SameMinePattern(g, NumberedBefore(g, x, y));
  }

  /** Handling cell (x, y): it becomes its numbered form, whatever its type. */
  lemma NumberedBeforeStep(g: Grid, x: int, y: int)
    requires g.Valid() && g.InBounds(x, y)
    ensures NumberedBefore(g, x, y + 1) == NumberedBefore(g, x, y).Set(x, y, NumberedCell(g, x, y))
  {
    GridExt(NumberedBefore(g, x, y + 1), NumberedBefore(g, x, y).Set(x, y, NumberedCell(g, x, y)));
  }

  /** A mine is its own numbered form: skipping it changes nothing. */
  lemma NumberedBeforeMine(g: Grid, x: int, y: int)
    requires g.Valid() && g.InBounds(x, y) && g.At(x, y).kind == Mine
    ensures NumberedBefore(g, x, y + 1) == NumberedBefore(g, x, y)
  {
    GridExt(NumberedBefore(g, x, y + 1), NumberedBefore(g, x, y));
  }

  /** Before the scan nothing is numbered. */
  lemma NumberedBeforeStart(g: Grid)
    requires g.Valid()
    ensures NumberedBefore(g, 0, 0) == g
  {
    GridExt(NumberedBefore(g, 0, 0), g);
  }

  /** The end of column x is the start of column x + 1. */
  lemma NumberedBeforeColumn(g: Grid, x: int)
    requires g.Valid()
    ensures NumberedBefore(g, x, g.height) == NumberedBefore(g, x + 1, 0)
  {
    GridExt(NumberedBefore(g, x, g.height), NumberedBefore(g, x + 1, 0));
  }

  /** After the last column every cell is numbered. */
  lemma NumberedBeforeEnd(g: Grid)
    requires g.Valid()
    ensures NumberedBefore(g, g.width, 0) == Numbered(g)
  {
    GridExt(NumberedBefore(g, g.width, 0), Numbered(g));
  }

  /** Every non-mine cell carries the number of mines around it, and is a Number cell exactly when that is positive. */
  ghost predicate Annotated(g: Grid)
    requires g.Valid()
  {
    forall x, y {:trigger g.MinesAround(x, y)} | g.InBounds(x, y) && g.At(x, y).kind != Mine ::
      && g.At(x, y).number == g.MinesAround(x, y)
      && (g.At(x, y).kind == Number <==> g.At(x, y).number > 0)
  }

  /**
   * On a board whose non-mine cells are all Empty, numbering leaves the mine
   * cells exactly as they were and annotates every other cell with its count
   * in the numbered board itself; only type and number change.
   */
  lemma NumberedAnnotated(g: Grid)
    requires g.Valid()
    requires forall x, y | g.InBounds(x, y) :: g.At(x, y).kind in {Empty, Mine}
    ensures var r := Numbered(g);
      && Annotated(r)
      && r.Mines() == g.Mines()
      && (forall x, y | g.InBounds(x, y) :: r.At(x, y).kind == Mine <==> g.At(x, y).kind == Mine)
      && (forall x, y | g.InBounds(x, y) && g.At(x, y).kind == Mine :: r.At(x, y) == g.At(x, y))
      && (forall x, y | g.InBounds(x, y) ::
            r.At(x, y) == g.At(x, y).(kind := r.At(x, y).kind, number := r.At(x, y).number))
  {
    var r := Numbered(g);
    forall x, y | g.InBounds(x, y) ensures r.At(x, y).kind == Mine <==> g.At(x, y).kind == Mine {
    }
    SameMinePattern(g, r);
  }

  /** Grids that agree on where the mines are agree on every adjacency count. */
  lemma SameMinePattern(g: Grid, r: Grid)
    requires g.Valid() && r.Valid() && g.width == r.width && g.height == r.height
    requires forall x, y | g.InBounds(x, y) :: r.At(x, y).kind == Mine <==> g.At(x, y).kind == Mine
    ensures r.Mines() == g.Mines()
    ensures forall x, y :: r.MinesAround(x, y) == g.MinesAround(x, y)
  {
    forall x, y ensures r.MinesAround(x, y) == g.MinesAround(x, y) {
      var a, b := g.Neighbours(x, y), r.Neighbours(x, y);
      forall k | 0 <= k < 8 ensures (a[k].kind == Mine) == (b[k].kind == Mine) {
        assert a[k] == g.Get(x + Offsets[k].0, y + Offsets[k].1);
        assert b[k] == r.Get(x + Offsets[k].0, y + Offsets[k].1);
      }
      MinesInAgree(a, b);
    }
    forall p ensures p in r.Mines() <==> p in g.Mines() {
      if p in r.Mines() || p in g.Mines() {
        assert g.InBounds(p.x, p.y);
      }
    }
  }

  /** Moves that keep the layout keep the annotation and the mine set. */
  lemma AnnotatedLayout(g: Grid, r: Grid)
    requires g.Valid() && r.Valid() && SameLayout(g, r) && Annotated(g)
    ensures Annotated(r) && r.Mines() == g.Mines()
  {
    SameLayoutSameMines(g, r);
  }

  /** The clicked cell and its on-board neighbours stay Empty while mines are placed. */
  lemma StartNeighbourSpared(g: Grid, x: int, y: int, ps: seq<Pos>, i: int, j: int)
    requires g.Valid() && Pristine(g) && g.InBounds(x, y)
    requires PlacedInTurn(g, g.At(x, y), ps)
    requires g.InBounds(i, j) && (Pos(i, j) == Pos(x, y) || Adjacent(Pos(i, j), Pos(x, y)))
    ensures WithMines(g, ps).At(i, j).kind == Empty
  {
    StartRangeExact(g, g.At(x, y), i, j);
    WithMinesSpareStart(g, g.At(x, y), ps);
  }

  /**
   * The first click is safe: when it lands on the board, no mine is placed on
   * the clicked cell or next to it, so after numbering that cell is Empty with
   * number 0.
   */
  lemma FirstClickEmpty(g: Grid, x: int, y: int, ps: seq<Pos>)
    requires g.Valid() && Pristine(g) && g.InBounds(x, y)
    requires PlacedInTurn(g, g.At(x, y), ps)
    ensures Numbered(WithMines(g, ps)).At(x, y).kind == Empty
    ensures Numbered(WithMines(g, ps)).At(x, y).number == 0
  {
    var m := WithMines(g, ps);
    StartNeighbourSpared(g, x, y, ps, x, y);
    forall i, j | m.InBounds(i, j) && Adjacent(Pos(i, j), Pos(x, y)) ensures m.At(i, j).kind != Mine {
      StartNeighbourSpared(g, x, y, ps, i, j);
    }
    MinesAroundPositive(m, x, y);
  }
}
