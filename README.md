# Three-in-a-row: the turn engine

This project models the game logic of a browser match-3 puzzle. The puzzle is an
8 x 8 grid of coloured balls, stored column-major (`grid[x][y]`: column x, row y).
Clicking a ball collects its group: every ball reachable from it through
orthogonally adjacent balls of the same colour. When the group has at least three
balls, they are removed. Every column then falls toward row index 7: its remaining
balls keep their order and form one block at the highest row indices. The rows
left free are then refilled with balls of random palette colours.

Modules:

- `Grid` holds the cells (`Empty` or `Occupied(colour)`, colour being an index
  into the five-colour palette), the constants, the board snapshot `Cells(grid)`
  of the `array2` grid, and the start-up population `NewGrid`.
- `GroupFinder` holds the recursive flood fill over the grid and a `visited`
  matrix (`FindGroup`, with one neighbour step in `Visit`). Its result is proved
  equal to the set of cells reachable over a same-colour path (`Group`).
- `Gravity` holds the per-column fall (`CompactColumn`, the `emptyRow` scan) and
  refill (`RefillColumn`). Each is proved against pure functions on a column
  (`Compact`, `Settle`), and the lemmas about those functions state stability,
  packing and ball conservation.
- `MatchResolver` holds the click handler (`HandleClick`), proved equal to the
  pure turn `Turn`, and the lemmas about whole turns.

Randomness is a parameter: `pick: nat -> nat` gives the palette index of the
k-th ball drawn by one operation. `NewGrid` and every `HandleClick` each read
their own stream from index 0: at start-up the ball of cell (x, y) takes draw
`x * 8 + y`; in a turn the draws are used column by column, and within a column
from the highest free row down, which is the order in which the game calls its
random source. A game of several turns passes each turn the game's stream
shifted past the draws already used (64 at start-up, then `TotalGaps` of each
cleared board, see `MatchResolver.TurnDrawsGroupSize`). `ValidDraws(pick)` says
every draw is a palette index.

## Model

| member | source | states |
|---|---|---|
| Grid.NewGrid | script.js:18-34 | the new grid is 8 x 8 and full; cell (x, y) holds the ball of draw x * 8 + y; with palette draws every ball has a palette colour |
| GroupFinder.FindGroup | script.js:45-68 | an empty or already-visited start adds nothing; otherwise the start is pushed first; the pushed cells are distinct, were not visited before and are reachable from the start over same-colour cells; `visited` grows by exactly the pushed cells; every same-colour in-board neighbour of a pushed cell ends up visited |
| GroupFinder.Visit | script.js:60-66 | one direction of the neighbour loop: the same guarantees as FindGroup, and the neighbour in that direction is visited afterwards whenever it is inside the grid and has the start's colour |
| GroupFinder.CollectGroup | script.js:94-97 | from an all-false `visited` and an empty list, the list holds every cell of the clicked ball's group exactly once and nothing else (soundness, completeness, no duplicates) |
| GroupFinder.GroupMember | script.js:60-66 | a cell is in the group exactly when a same-colour walk of orthogonal steps leads to it from the start |
| GroupFinder.GroupSound | script.js:64 | every member of a group lies inside the board and has the start's colour |
| GroupFinder.ReachableStep | script.js:64-65 | following an in-board same-colour neighbour keeps everything reachable from it reachable from the start |
| GroupFinder.ReachableSymmetric | script.js:60-66 | same-colour reachability runs both ways |
| GroupFinder.ReachableTransitive | script.js:60-66 | same-colour reachability composes |
| GroupFinder.GroupOfMember | script.js:45-68 | clicking any member of a group gives the same group |
| GroupFinder.ClosedContainsWalk | script.js:52-66 | a cell set closed under same-colour neighbours contains every walk that starts in it, which is what makes the flood fill complete |
| GroupFinder.OneColourReachable | script.js:60-66 | on a rectangular board of one colour every cell reaches every other |
| GroupFinder.OneColourIsOneGroup | script.js:45-68 | on a rectangular board of one colour the group of any cell is the whole board |
| GroupFinder.DistinctCard | script.js:99 | the length of a list without repeats is the size of its set, so `group.length` counts the group's cells |
| Gravity.SurvivorsAppend | script.js:108-120 | the balls kept by a column split over any division of it into lower and upper rows, which lets the scan go row by row |
| Gravity.SurvivorsOfFull | script.js:109-119 | a column with no free row keeps all its balls, in place |
| Gravity.SurvivorsKeepBalls | script.js:110-118 | gravity keeps every ball: per colour the kept balls are as many as before, and they include no free cell |
| Gravity.GapsCountEmptyRows | script.js:118-122 | the rows refilled in a column are as many as its free rows before gravity |
| Gravity.CompactStable | script.js:106-120 | the fallen column keeps its height, has all free rows below all balls, holds the same balls in the same order, and falling again changes nothing |
| Gravity.CompactExample | script.js:106-120 | a four-row column with balls at rows 0 and 2 ends with them at rows 2 and 3, in order, and two free rows |
| Gravity.SettleFull | script.js:122-136 | after gravity and refill a column has its height and no free cell |
| Gravity.SettleInPalette | script.js:123 | with palette draws and palette balls, every ball after refill has a palette colour |
| Gravity.SettleUntouched | script.js:109-122 | a column with no free row gets no refills (its free-row count is 0) and comes out of gravity and refill unchanged; with `Gravity.CompactColumn`'s returned `emptyRow` (free rows minus one) its marker ends at -1 |
| Gravity.ScanFull | script.js:109-118 | in a column with no free row, `row == emptyRow` at every step of the scan, so the move branch is never taken |
| Gravity.ScanHead | script.js:109-111 | the scanned row is still untouched, and the balls of the rows from it upward are its own ball (if any) followed by those above it |
| Gravity.ScanMove | script.js:111-117 | a ball below the marker moves to `emptyRow` and the marker drops: the scan invariant holds one row lower (rows up to `row` untouched, rows from `row + 1` to `emptyRow` free, the balls found so far above `emptyRow` in order) |
| Gravity.ScanKeep | script.js:111-117 | a ball already at `emptyRow` stays and the marker drops: the scan invariant holds one row lower |
| Gravity.ScanSkip | script.js:109-111 | a free row is passed over with the marker unchanged: the scan invariant holds one row lower |
| Gravity.ScanDone | script.js:107-120 | once the scan is done, `emptyRow` is the number of free rows minus one, and the column is the fallen column |
| Gravity.MoveBall | script.js:113-114 | the ball moves to row `to`, row `from` becomes free, and no other column changes |
| Gravity.CompactColumn | script.js:107-120 | the column becomes the fallen column (stable, packed toward the highest row index), the returned `emptyRow` is the number of free rows minus one, and no other column changes |
| Gravity.RefillColumn | script.js:122-136 | rows `emptyRow` down to 0 take draws k, k + 1, ... in that order; rows above and other columns are unchanged; the next draw index is returned |
| MatchResolver.ClearGroup | script.js:100-103 | exactly the group's cells become free; every other cell keeps its ball |
| MatchResolver.SettleColumn | script.js:107-136 | one column falls and is refilled with draws from k, using one draw per free row; other columns are unchanged |
| MatchResolver.SettleAfterCompact | script.js:122-136 | refilling the free rows of the fallen column gives the settled column |
| MatchResolver.SettleColumns | script.js:106-137 | every column falls and is refilled, column 0 first, each column's draws continuing after those of the columns before it |
| MatchResolver.HandleClick | script.js:94-137 | the grid after a click is the pure turn of the grid before it; a group smaller than the threshold leaves the grid unchanged |
| MatchResolver.TurnKeepsGridFull | script.js:122-136 | a turn on a full board of palette balls, with palette draws, leaves a full board of palette balls of the same shape |
| MatchResolver.TurnUntouchedColumn | script.js:109-122 | on a full board, a column with no cell in the clicked group comes out of the turn unchanged |
| MatchResolver.TurnRefillsRemoved | script.js:100-135 | in a clearing turn on a full board, a column gets as many new balls as the group took from it; the new balls sit below and its remaining balls sit above, in their order |
| MatchResolver.ClearedRows | script.js:100-103 | on a full board, the free rows of a cleared column are exactly the rows the group took from it |
| MatchResolver.TurnDrawsGroupSize | script.js:99-135 | a clearing turn on a full board makes exactly one draw per removed ball |
| MatchResolver.ExactlyThreeClears | script.js:99-103 | the threshold is inclusive: a group of exactly three balls is cleared and the board settled, and on a full board the turn draws exactly three new balls |
| MatchResolver.ClearedPrefix | script.js:100-135 | on a full board, the free rows of the first n cleared columns are as many as the group's cells in those columns |
| MatchResolver.RowsCard | script.js:100-103 | the cells of one column are as many as their rows |
| MatchResolver.ColumnCount | script.js:100-103 | the group's cells in one column are as many as the rows the group takes in that column |

## Left out

- Scene, camera, renderer, lighting, sphere creation, sphere removal and sphere positions (script.js:1-8, 23-31, 36-41, 101, 116, 125-133) are left out. They are calls into the rendering library and floating-point layout with no effect on the grid logic. The model keeps the logical cell and its colour only.
- Ray picking and the rounding of a world position to grid indices (script.js:70-91) are left out. They are floating-point geometry in a foreign library. `HandleClick` takes an in-board `(x, y)` as a `requires`, because the game itself never checks the bounds: an out-of-bounds click would make it throw reading `grid[x][y].color` (script.js:46).
- `Math.random` (script.js:21, 123) is replaced by the injected draw stream `pick`.
- The animation loop and the resize handler (script.js:143-154) are event and rendering plumbing and are left out.
- GroupFinder.FindGroup: on an empty start or an empty neighbour the game would fail reading `.color` of `null`. The model adds nothing instead, which is the intent of the `!color` guard. This cannot happen in play: every click is on a full board (`MatchResolver.TurnKeepsGridFull`, `Grid.NewGrid`).
- Colours are palette indices, not the palette's hex values. The entries are distinct and non-zero, so `===` on colours is equality of indices and `!color` is false for every ball.
- Gravity.CompactColumn and Gravity.RefillColumn: the game does both in one loop body per column. The model makes them two methods called in turn by `MatchResolver.SettleColumn`, with the same statements in the same order.
- The grid's dimensions are generic in the turn methods. Only `Grid.NewGrid` fixes them at 8 x 8.
