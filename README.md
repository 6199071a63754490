# Minesweeper board engine

This is a Dafny model of the board engine of a Unity Minesweeper game, together with the
proofs about it. It covers two source files:

- `GameManager.cs` holds the board, a `Cell[width, height]` array, plus two flags:
  `gameOver`, and `firstClick` (no mines placed yet). It does the following:
  - starts a new game with every cell Empty;
  - on the first left click, places the mines away from the clicked cell and
    numbers every other cell with its adjacent-mine count;
  - reveals cells, flooding out from Empty ones;
  - ends the game on a mine (`Explode`), or when every safe cell is revealed
    (`CheckWinCondition`, which also flags every mine);
  - toggles flags;
  - does the middle-click "chord" around a revealed number.
- `Board.cs` chooses the tile each cell is drawn with.

Layout:

- `cells.dfy` (`Cells`): the `Cell` record, the `CellType` variants and the
  default cell that an out-of-bounds lookup returns (type Invalid, position (0, 0)).
- `grids.dfy` (`Grids`): the board as a value, `Grid`, indexed `cells[x][y]` like the
  array. It also holds the bounds-checked lookup and the 8-neighbour scans. Their fixed
  order is dx outer, dy inner, each from -1 to 1, skipping (0, 0).
- `setup.dfy` (`Setup`): the fresh board, the first-click exclusion zone, the wrapping
  linear probe that places each mine, and the adjacency numbering.
- `play.dfy` (`Play`): each move as a function from the board before to the board after:
  flood, explode, win check, flag toggle, reveal and chord. It also proves the facts
  about those moves.
- `game_manager.dfy` (`Engine`): the class `GameManager`, which owns `state: array2<Cell>`,
  `gameOver` and `firstClick`. Each method updates the array in place, as the engine does.
  Each one is proved to leave the board that the matching `Setup`/`Play` function
  computes from the old board. The game invariant says:
  - at most one cell, a mine, is exploded, and once one is, every mine is shown;
  - a running game has no explosion;
  - before the first click there are no mines;
  - after the first click there are exactly `mineCount` mines, and every other cell
    carries its count.

  Every handler keeps this invariant.
- `tiles.dfy` (`Tiles`): `Board.cs`'s tile selection as a pure function returning an
  optional tile. `None` is the source's error path (`Debug.LogError`, then `null`).

Deviations from the engine's interface:

- The mouse position is replaced by integer `(x, y)` parameters.
- `Random.Range` is replaced by `picks`, a sequence with one start coordinate per mine.
- `Update` takes the key and button states as booleans.

Source behaviour the model keeps:

- The code has no Won/Lost phase, only `gameOver`.
- `NewGame` does not reject a bad mine count. The editor clamps it, so the model takes
  `mines <= w * h` as a precondition.
- Mine placement does not detect exhaustion. With no eligible cell left, the probe loops
  forever. For example, on a 3×3 board a click on the centre leaves no eligible cell, so
  even one mine is never placed (`Setup.CentreClickLeavesNoCell`). The model therefore
  requires at least `mineCount` eligible cells (`PicksFit`).
- `Flood` reveals flagged cells.
- After each Empty or Number neighbour it opens, the chord re-runs the win check. It does
  not after a mine or a skipped neighbour, and it goes on to the remaining neighbours after
  an explosion.
- A first left click off the board still sets the game up. `GetCell` gives the default
  Invalid cell at (0, 0), so `firstClick` is cleared, the mines are placed around (0, 0),
  which stays free of mines, and the reveal does nothing (`Engine.OffBoardClickSparesOrigin`).
- `InStartRange` compares positions. An off-board neighbour of the start cell reports the
  default position (0, 0), so a start cell on the border also keeps (0, 0) free of mines.
  `Setup.StartRangeExact` states this.
- For the same reason, every border cell has "something left to open" for the chord
  (`Grids.BorderLooksOpenable`).

## Model

| member | source | states |
|---|---|---|
| `Cells.Fresh` | projectCode/Minesweeper/Assets/Scripts/GameManager.cs:301-304 | a new cell sits at its own position, is Empty, hidden, unflagged and not exploded |
| `Engine.GameManager.GetCell` | projectCode/Minesweeper/Assets/Scripts/GameManager.cs:455-470 | the stored cell on the board; the default cell off it; the result is Invalid exactly when the coordinate is out of bounds |
| `Engine.GameManager.InStartRange` | projectCode/Minesweeper/Assets/Scripts/GameManager.cs:336-352 | the check against the start cell and its 8 neighbours as the lookup reports their positions |
| `Setup.StartRangeExact` | projectCode/Minesweeper/Assets/Scripts/GameManager.cs:336-352 | an on-board cell is in the start range iff it is the start, adjacent to it, or (0, 0) when the start touches the edge |
| `Engine.GameManager.CountMines` | projectCode/Minesweeper/Assets/Scripts/GameManager.cs:379-403 | the count of Mine cells among the 8 neighbours in scan order |
| `Grids.MinesAroundPositive` | projectCode/Minesweeper/Assets/Scripts/GameManager.cs:379-403 | the mine count is positive iff some on-board adjacent cell is a mine (off-board defaults never count) |
| `Engine.GameManager.CountFlags` | projectCode/Minesweeper/Assets/Scripts/GameManager.cs:405-429 | the count of flagged cells among the 8 neighbours |
| `Engine.GameManager.AnyCellsUnrevealed` | projectCode/Minesweeper/Assets/Scripts/GameManager.cs:431-453 | true iff some neighbour (off-board defaults included) is neither revealed nor flagged |
| `Grids.BorderLooksOpenable` | projectCode/Minesweeper/Assets/Scripts/GameManager.cs:445 | every on-board cell of the border has something to open around it |
| `Engine.GameManager.constructor` | projectCode/Minesweeper/Assets/Scripts/GameManager.cs:25-38 | with at most `w*h` mines, the game starts with a fresh board, not over, awaiting the first click, and the invariant holds |
| `Engine.GameManager.NewGame` | projectCode/Minesweeper/Assets/Scripts/GameManager.cs:273-287 | a new array holding the fresh board; `gameOver` cleared, `firstClick` set; the invariant holds |
| `Engine.GameManager.GenerateCells` | projectCode/Minesweeper/Assets/Scripts/GameManager.cs:295-307 | the array holds the fresh board |
| `Setup.FreshGridPristine` | projectCode/Minesweeper/Assets/Scripts/GameManager.cs:295-307 | the fresh board has no mine, nothing revealed, flagged or exploded, and no number |
| `Engine.GameManager.GenerateMines` | projectCode/Minesweeper/Assets/Scripts/GameManager.cs:309-334 | with at least `mineCount` eligible cells, the board gets a mine at each placement the probe from each pick finds, in turn |
| `Engine.GameManager.PlaceMine` | projectCode/Minesweeper/Assets/Scripts/GameManager.cs:313-332 | one turn: the cell where the probe stops becomes a mine, nothing else changes |
| `Engine.GameManager.FindFree` | projectCode/Minesweeper/Assets/Scripts/GameManager.cs:316-330 | the row-major wrapping probe stops at the first cell, from the pick on, that is neither a mine nor in the start range |
| `Setup.CentreClickLeavesNoCell` | projectCode/Minesweeper/Assets/Scripts/GameManager.cs:316-352 | a click on the centre of a 3×3 board puts every cell in the start range, so the probe has no cell to stop on |
| `Setup.ProbeHits` | projectCode/Minesweeper/Assets/Scripts/GameManager.cs:316-330 | on a board with an eligible cell the probe stops on an eligible cell and every cell it passes before is ineligible |
| `Setup.PlacementHit` | projectCode/Minesweeper/Assets/Scripts/GameManager.cs:311-332 | the i-th mine lands where the probe from the i-th pick first meets an eligible cell, given the mines before it |
| `Setup.PlacementsInTurn` | projectCode/Minesweeper/Assets/Scripts/GameManager.cs:311-333 | each mine is placed on a cell eligible in its turn, so the eligible cells shrink by exactly one per mine |
| `Setup.WithMinesCount` | projectCode/Minesweeper/Assets/Scripts/GameManager.cs:311-333 | mines placed in turn on eligible cells add exactly one mine each |
| `Engine.FirstClickMineCount` | projectCode/Minesweeper/Assets/Scripts/GameManager.cs:309-334 | after placing and numbering, the board holds exactly as many mines as picks |
| `Setup.WithMinesSpareStart` | projectCode/Minesweeper/Assets/Scripts/GameManager.cs:316 | no cell of the start range changes type while mines are placed |
| `Setup.FirstClickEmpty` | projectCode/Minesweeper/Assets/Scripts/GameManager.cs:55-65 | after the setup the clicked on-board cell is Empty with number 0 |
| `Engine.GameManager.GenerateNumbers` | projectCode/Minesweeper/Assets/Scripts/GameManager.cs:354-377 | each non-mine cell gets its adjacency count and becomes Number when it is positive; mines are skipped |
| `Setup.NumberedAnnotated` | projectCode/Minesweeper/Assets/Scripts/GameManager.cs:354-377 | after numbering, every non-mine cell's number is its adjacent-mine count and it is Number iff that is positive; mine cells are unchanged, and elsewhere only type and number change |
| `Engine.GameManager.Explode` | projectCode/Minesweeper/Assets/Scripts/GameManager.cs:218-239 | the game is over and the board is the hit cell written back revealed and exploded, then every mine revealed |
| `Play.ExplodeFacts` | projectCode/Minesweeper/Assets/Scripts/GameManager.cs:218-239 | every mine revealed, non-mine cells untouched, only the hit cell newly exploded, flags and layout kept |
| `Engine.GameManager.CheckWinCondition` | projectCode/Minesweeper/Assets/Scripts/GameManager.cs:241-271 | board and flag become those of the win check on the old board |
| `Play.CheckWinFacts` | projectCode/Minesweeper/Assets/Scripts/GameManager.cs:241-271 | the game ends and every mine is flagged iff every non-mine cell is revealed; otherwise nothing changes; only mine flags ever change |
| `Play.CheckWinIdempotent` | projectCode/Minesweeper/Assets/Scripts/GameManager.cs:241-271 | a second win check changes nothing |
| `Engine.GameManager.Flag` | projectCode/Minesweeper/Assets/Scripts/GameManager.cs:148-162 | the board becomes the toggled board |
| `Play.ToggleFacts` | projectCode/Minesweeper/Assets/Scripts/GameManager.cs:148-162 | on an on-board hidden cell only its flag flips; off the board or on a revealed cell nothing changes |
| `Play.ToggleTwice` | projectCode/Minesweeper/Assets/Scripts/GameManager.cs:148-162 | toggling twice restores the board |
| `Engine.GameManager.Reveal` | projectCode/Minesweeper/Assets/Scripts/GameManager.cs:164-192 | board and flag become those of the reveal function on the old board |
| `Play.RevealAtFacts` | projectCode/Minesweeper/Assets/Scripts/GameManager.cs:170-188 | no-op on an Invalid, revealed or flagged cell; a Number cell alone is revealed before the win check; a mine explodes and ends the game |
| `Play.RevealAtLayout` | projectCode/Minesweeper/Assets/Scripts/GameManager.cs:164-192 | a reveal never changes where the mines are or what the numbers say |
| `Engine.GameManager.Flood` | projectCode/Minesweeper/Assets/Scripts/GameManager.cs:194-216 | the recursive flood in place yields the flood function's board; it terminates because each reveal shrinks the hidden set |
| `Engine.GameManager.FloodAroundCell` | projectCode/Minesweeper/Assets/Scripts/GameManager.cs:204-215 | the eight recursive calls in the source's order |
| `Play.RevealShrinksHidden` | projectCode/Minesweeper/Assets/Scripts/GameManager.cs:201-202 | revealing a hidden cell takes it out of the hidden set (the flood's termination measure) |
| `Play.FloodFacts` | projectCode/Minesweeper/Assets/Scripts/GameManager.cs:194-216 | only `revealed` changes, false to true; no mine is revealed; the start is revealed when Empty or Number; every newly revealed cell is the start or next to a newly revealed Empty cell; every newly revealed Empty cell has all its non-mine neighbours revealed, flagged or not |
| `Play.FloodAroundFacts` | projectCode/Minesweeper/Assets/Scripts/GameManager.cs:204-215 | after the eight calls every on-board non-mine neighbour is revealed, with the same safety and sourcing facts |
| `Engine.GameManager.AutoFillSurroundingCells` | projectCode/Minesweeper/Assets/Scripts/GameManager.cs:76-88 | board and flag become those of the chord function on the old board |
| `Engine.GameManager.CheckSurroundingCells` | projectCode/Minesweeper/Assets/Scripts/GameManager.cs:90-103 | the same for a revealed Number cell: nothing unless something is left to open and mines equal flags |
| `Engine.GameManager.RevealSurroundingCells` | projectCode/Minesweeper/Assets/Scripts/GameManager.cs:105-146 | each of the 8 neighbours in dx-outer/dy-inner order gets the reveal step, win check included |
| `Engine.GameManager.RevealColumn` | projectCode/Minesweeper/Assets/Scripts/GameManager.cs:109-143 | the inner loop: the neighbours of one column, top to bottom, take the board from the chord's state before that column to its state after it |
| `Engine.GameManager.RevealNeighbour` | projectCode/Minesweeper/Assets/Scripts/GameManager.cs:116-142 | revealing the k-th neighbour takes the board from the chord's k-th state to the next one |
| `Play.ChordTraceStep` | projectCode/Minesweeper/Assets/Scripts/GameManager.cs:107-144 | every state of the chord is the reveal of the next neighbour in scan order applied to the state before it |
| `Play.ChordTraceKeepsOneExplosion` | projectCode/Minesweeper/Assets/Scripts/GameManager.cs:107-144 | every intermediate state of the chord, not only the last, keeps the explosion invariant: once a mine has exploded no later neighbour explodes another |
| `Play.ChordNoop` | projectCode/Minesweeper/Assets/Scripts/GameManager.cs:82-100 | the chord does nothing unless its target is a revealed Number whose mine and flag counts agree |
| `Play.ChordKeepsOneExplosion` | projectCode/Minesweeper/Assets/Scripts/GameManager.cs:105-146 | after the chord at most one (mine) cell is exploded and all mines are then shown; a game never comes back from over |
| `Play.ChordLayout` | projectCode/Minesweeper/Assets/Scripts/GameManager.cs:105-146 | the chord never changes types or numbers |
| `Engine.ToggleKeepsInvariant` | projectCode/Minesweeper/Assets/Scripts/GameManager.cs:148-162 | flagging keeps the game invariant |
| `Engine.RevealKeepsInvariant` | projectCode/Minesweeper/Assets/Scripts/GameManager.cs:164-192 | a reveal after the first click keeps the game invariant |
| `Engine.ChordKeepsInvariant` | projectCode/Minesweeper/Assets/Scripts/GameManager.cs:76-146 | the chord keeps the game invariant, and before the first click it leaves the board and the flag unchanged |
| `Engine.OffBoardClickSparesOrigin` | projectCode/Minesweeper/Assets/Scripts/GameManager.cs:55-67 | a first click off the board places the mines around the default cell at (0, 0), leaves (0, 0) without a mine, and its reveal changes nothing |
| `Engine.FirstClickSetup` | projectCode/Minesweeper/Assets/Scripts/GameManager.cs:55-67 | the first click's setup establishes the invariant with `mineCount` mines, and its reveal opens the clicked cell as Empty without an explosion |
| `Engine.GameManager.PlaceMinesAround` | projectCode/Minesweeper/Assets/Scripts/GameManager.cs:55-65 | places and numbers the mines for the first click; the invariant of a running game then holds |
| `Engine.GameManager.Update` | projectCode/Minesweeper/Assets/Scripts/GameManager.cs:40-74 | keeps the invariant; a finished game ignores clicks; the first reveal of a game opens the clicked cell |
| `Tiles.GetNumberTile` | projectCode/Minesweeper/Assets/Scripts/Board.cs:89-113 | tile n for a count n from 1 to 8, no tile otherwise |
| `Tiles.GetRevealedTile` | projectCode/Minesweeper/Assets/Scripts/Board.cs:73-87 | Empty to the empty tile, Mine to the exploded or plain mine tile by `exploded`, Number to its number tile, Invalid to no tile |
| `Tiles.GetTile` | projectCode/Minesweeper/Assets/Scripts/Board.cs:57-71 | a hidden cell shows the flag or the unknown tile; no tile exactly for a revealed Invalid cell or a revealed Number outside 1..8 |
| `Tiles.RevealedIgnoresFlag` | projectCode/Minesweeper/Assets/Scripts/Board.cs:57-62 | a revealed cell's tile does not depend on `flagged` |
| `Tiles.TileMeaning` | projectCode/Minesweeper/Assets/Scripts/Board.cs:57-113 | each tile is shown for exactly one visible state, so the tile determines it |
| `Tiles.EngineBoardDrawable` | projectCode/Minesweeper/Assets/Scripts/Board.cs:42-55 | every cell of a board satisfying the game invariant has a tile: drawing it never reaches the error path |

## Left out

- The mouse-to-cell conversion (`Camera.main.ScreenToWorldPoint`, `tilemap.WorldToCell`)
  and input polling are device I/O. The handlers take `(x, y)`, and `Update` takes the key
  and button states.
- `Random.Range` is foreign randomness. Each mine's start coordinate comes from `picks`.
- The camera placement and `SetupBackground` are floating-point rendering transforms.
- `OnValidate`'s clamp is an editor hook. The constructor requires `mines <= w * h` instead, and the class invariant `Valid()` (hence `NewGame`) carries that bound.
- `Board.Draw`, `Awake`, `tilemap.SetTile` and `Debug.LogError` are Unity rendering and
  logging. The `board.Draw(state)` calls inside the handlers are left out for the same
  reason. Only the tile choice is modelled.
- `MenuManager.cs` is panel toggling and scene loading. It is not part of this model.
- C#'s 32-bit `int` is modelled as an unbounded integer. The counts never exceed 8, and
  coordinates near the `int` limits are not modelled.
- `Cell.cs` is not part of this model. Its fields are inferred from their use.
- Stack depth of the recursive `Flood` is not modelled; the recursion is proved to
  terminate.
- Engine.GameManager.GenerateMines: requires at least `mineCount` eligible cells, because
  the source's probe never ends otherwise.
- Engine.GameManager.Update: states the invariant, the finished-game no-op and the opening
  of the first reveal, not the whole new board. The handler methods it calls state that.
