# Territory game rules engine, modelled in Dafny

This project models `GameStat`, the rules engine of a two-player territory
game played on a grid of M x N cells. Players take turns placing markers on
the (M+1) x (N+1) lattice points around the cells.

- The first marker may go anywhere.
- Every later marker must go on an empty point next to a marker already
  placed. The adjacency test has a quirk: the neighbour with the larger row
  index is consulted only when `m < M - 1`, and the neighbour with the
  larger column index only when `n < N - 1`.
- A cell is claimed once all four of its corners hold a marker. It goes to
  the player who placed the latest of the four.
- A player's score is the number of cells it has claimed.

`game.dfy` (module `Game`) holds the class `GameStat`:

- two 2-D arrays: `chesses` holds the markers and `occupation` holds the
  cell owners, with -1 meaning unclaimed;
- the move history `moves`;
- the placement counter `count`;
- the two-entry `score` array;
- `currentPlayer`.

The class's methods mirror the source: `CalcOccupation`, `CalcScore`,
`AddMove` and `Move`. `IsEmpty` and `IsValidPos` are functions. The three
`reduce` calls of the source are left folds: `FoldAnd`, `FoldOr` and
`Latest`.

The engine's invariant is `Valid()`. Every accepted placement keeps it, and
it states the following:

- the history numbers its markers 0, 1, 2, … and alternates players;
- the lattice holds exactly the markers of the history;
- every cell is claimed exactly when its four corners are filled, and then
  by the player of its latest corner;
- each score counts the cells of its player;
- the turn is `count % 2`.

`scenarios.dfy` (module `GameScenarios`) plays concrete 5 x 5 games through
`Move`.

## Model

| member | source | states |
|---|---|---|
| Game.FoldAnd | src/game.js:162 | the `&&` fold of the four corner slots is empty exactly when some slot is empty |
| Game.FoldOr | src/game.js:240 | the `\|\|` fold of the neighbour slots holds a marker exactly when some slot does |
| Game.Latest | src/game.js:165-167 | the fold picks one of the markers, and no marker in the sequence has a larger placement number |
| Game.LatestIsNewest | src/game.js:165-167 | when one marker's number exceeds all others, the fold picks that marker, so no tie-breaking is involved |
| Game.NewestCornerWins | src/game.js:156-169 | filling the empty corner of a cell with a marker newer than its other corners keeps the cell's entry consistent: the cell goes to that marker's player when it becomes complete, and stays unclaimed otherwise |
| Game.NothingCounted | src/game.js:171-181 | the scan counts no cell for a value that no entry holds |
| Game.ClaimedInRows | src/game.js:171-181 | when every cell is resolved, the cells counted for player 0 plus those counted for player 1 are exactly the fully cornered cells |
| Game.GameStat.constructor | src/game.js:131-150 | a fresh M x N game satisfies the invariant: empty lattice, all cells unclaimed, empty history, scores 0, player 0 to move |
| Game.GameStat.IsEmpty | src/game.js:152-154 | a point is empty exactly when no move of the history was made there |
| Game.GameStat.IsValidPos | src/game.js:228-241 | a placement is adjacent exactly when it is the first move or one of the inspected neighbours holds a marker, where the larger-index neighbours are inspected only below M - 1 and N - 1 |
| Game.GameStat.AdjacentByHistory | src/game.js:228-241 | after the first move, the adjacency test holds exactly when some earlier move sits on an inspected neighbour (`Inspected`, the single statement of which neighbours are looked at) |
| Game.GameStat.AcceptsByHistory | src/game.js:215-222 | `move` accepts an attempt exactly when it is in bounds, no earlier move was made there, and it is the first move or touches an earlier one |
| Game.GameStat.CalcOccupation | src/game.js:156-169 | only cell (m, n) may change; it becomes the player of its latest corner when all four corners are filled, and is left alone otherwise |
| Game.GameStat.CalcScore | src/game.js:171-181 | the new score array holds, for each player, the number of cells the occupation table gives to that player |
| Game.GameStat.ResolveAround | src/game.js:198-210 | exactly the cells that have (m, n) as a corner and lie on the grid are re-resolved; every other cell is unchanged |
| Game.GameStat.MarkerAppended | src/game.js:188-196 | appending a marker numbered by the old count to the history and putting it on its empty point keeps history and lattice in agreement |
| Game.GameStat.OccupationResolved | src/game.js:198-210 | after the re-resolution, every cell is again claimed exactly when filled; a claimed cell keeps its owner; a newly claimed cell goes to the player of the new marker |
| Game.GameStat.AddMove | src/game.js:183-213 | a refused placement changes nothing; an accepted one appends the numbered marker, places it, re-resolves only the cells around it without changing an owner, and the scores again count each player's cells |
| Game.GameStat.Move | src/game.js:215-225 | an attempt out of bounds, on a taken point or not adjacent changes nothing, including count and turn; an accepted one places a marker of the player to move, flips the turn and keeps the invariant |
| Game.GameStat.ScoresCoverFilledCells | src/game.js:171-181 | in every reachable state the two scores add up to the number of cells whose four corners are filled |
| Game.GameStat.NumbersUnique | src/game.js:188-196 | no two markers on the lattice share a placement number |
| GameScenarios.Place | src/game.js:215-225 | an attempt that the history-level rule accepts extends the history by a marker of the player to move |
| GameScenarios.Refuse | src/game.js:219-222 | an attempt that touches no earlier move, once the first move has been made, leaves the game as it was |
| GameScenarios.FirstCellOwned | src/game.js:156-169 | a cell cornered by moves 0 to 3 belongs to the player of move 3 |
| GameScenarios.Opening | src/game.js:228-232 | the first move may go anywhere; a move at (3, 3) touching nothing is refused; a move at (0, 1) next to (0, 0) is accepted |
| GameScenarios.FirstCellScores | src/game.js:171-181 | with moves 0 to 3 on the corners of cell (0, 0), every other cell is unclaimed, so player 1 scores 1 and player 0 scores 0 |
| GameScenarios.FirstCellScenario | src/game.js:215-225 | placements at (0, 0), (0, 1), (1, 0) and (1, 1) give cell (0, 0) to player 1, with four moves made, player 0 to move, and scores 0 for player 0 and 1 for player 1 |
| GameScenarios.FarEdgeScenario | src/game.js:236 | on a 5 x 5 board with a single marker at (5, 0), an attempt at (4, 0) is refused, so one move is made and player 1 is still to move |

## Left out

- The `Board` class, the canvas `fillCircle` patch and the `draw`, `animate` and `resizeCanvas` functions are not part of this model. They only render the state and handle browser events.
- The `boundary` field and the commented-out boundary search have no behaviour and are not modelled.
- Game.GameStat.constructor: boards with M <= 1 and N <= 1 are excluded by a precondition. On them, an attempt at (0, 0) after the first move makes `isValidPos` fold an empty list and throw a TypeError. The precondition excludes these boards as a whole, including 0 x 0, where that attempt never reaches the test.
- Game.GameStat.AddMove: requires in-bounds coordinates, because the source does no bounds check of its own and relies on `move`, its only caller. It also requires `player` to be the player to move, as in that call.
- Game.GameStat.AddMove: ensures only the part of the invariant that does not mention the turn. `move` flips the turn right after the call, and `Move` re-establishes the whole invariant.
- Game.GameStat.ResolveAround: the four guarded `calcOccupation` calls are written inline in the source's `addMove`. The model gives them a method of their own.
- Game.GameStat.CalcScore: requires every occupation entry to be -1, 0 or 1. With any other value the source would index `score` out of range, which JavaScript's dynamic arrays allow; the invariant rules that out.
- Player numbers are the integers 0 and 1, and coordinates are integers. JavaScript's dynamic typing is not modelled: a `player` of any other value, or a fractional coordinate such as `move(2.5, 0)`, which passes the bounds test and then throws when `isEmpty` indexes the lattice.
