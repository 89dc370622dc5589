# Tile puzzle: a verified model of the TileGame state machine

The site's tile puzzle is a "Lights Out" game on a 3 by 3 grid of light and
dark tiles. Clicking a tile inverts it and its up, down, left and right
neighbours that lie inside the grid. Every accepted click counts as a move; a click on a finished game is ignored. The game is
won, and ends, when all tiles share one colour, whichever colour that is. On a
win the move count becomes the persisted best score when no best score is
stored yet or when it beats the stored one. "New game" resets the board,
scrambles it with five random clicks during which the win test is switched off,
and then sets the move counter back to zero.

The model has two modules:

- `Board` (board.dfy) holds the pure grid logic. It has the grid as
  `seq<seq<bool>>`, the plus-shaped toggle `Toggled`, and the win predicate
  `IsWin`, written as the nested `every` of `isWinState`. It also has
  `GetGridPosition`, which maps canvas pixels to a cell. It proves which cells
  a click flips and how many, that a second click on the same cell undoes the
  first, and that the win predicate means "all cells equal". It also proves
  that a click on a square `drawGrid` paints selects that square's cell.
- `Game` (game.dfy) holds the state machine. First it is a value: `State`,
  with the transitions `Step` (toggleTiles) and `NewGameState` (newGame), and
  lemmas about both. Then it is the `TileGame` class. The class keeps the grid
  in an `array2<bool>` that its methods update in place, as the source does.
  Its fields are `moves`, `isGameOver` and `bestScore`. It also holds a
  `BestScoreStore` object that stands for the browser's local storage. Each
  method is proved to follow `Step` or `NewGameState`.

Behaviour of the code worth knowing:

- The constructor leaves an all-light grid and does not scramble it.
  All-light is already a winning pattern, but the game is not over.
- A new game is never re-rolled, so it can start on a winning pattern that is
  not over (`NewGameMayStartWon`). So "over" and "uniform" agree in one
  direction only: a finished game shows a uniform grid (`Consistent`, which
  holds initially, after every click and after every new game).
- `toggleTiles` returns nothing. A win or a new best score shows only in the
  message text, which is not modelled. A click on a finished game is silently
  ignored.
- Clicks in the 10-pixel gaps between squares, and in the 10-pixel band right
  of the last column or below the last row, also select a cell, though nothing
  is painted there.
- The win test compares the move count with the value in the store, not with
  the in-memory `bestScore`.

In the "worse score" test (assets/js/game.test.js:127-151), clicking the
centre of the test's grid does not win. Only the centre ends up dark
(`WorseScoreTestScenario`). So that test never reaches the best-score
comparison. `WorseScoreScenario` states the comparison the test
evidently means, on a grid where the click does win.

## Model

| member | source | states |
|---|---|---|
| `Board.Uniform` | assets/js/game.js:113 | a fresh grid is 3 by 3 with every cell set to the given value |
| `Board.AdjacentIsNear` | assets/js/game.js:215-220 | the clicked cell and its four listed neighbours (up, down, left, right) are exactly the cells at Manhattan distance at most 1 |
| `Board.AffectedIsNear` | assets/js/game.js:211-226 | the cells toggleTiles flips are exactly the in-grid cells at distance at most 1 from the click; nothing wraps around |
| `Board.FlipCount` | assets/js/game.js:211-226 | the cells a click changes are exactly those it flips, and there are 3 of them in a corner, 4 on an edge and 5 in the interior |
| `Board.ToggleTwiceRestores` | assets/js/game.js:211-226 | clicking the same cell twice gives back the original grid |
| `Board.ApplyAllParity` | assets/js/game.js:298-302 | after any clicks, a cell is inverted exactly when an odd number of the clicks were near it, whatever their order |
| `Board.UndoByReversal` | assets/js/game.js:298-302 | clicking the scramble's cells again in reverse order gives back the grid the scramble started from, so every scrambled board is solvable |
| `Board.CornersAndCentreDarkenAll` | assets/js/game.js:298-302 | the four corners plus the centre, clicked on an all-light grid, darken every cell |
| `Board.IsWinIff` | assets/js/game.js:255-260 | the nested `every` holds exactly when every cell equals the top-left cell |
| `Board.UniformWins` | assets/js/game.js:255-260 | an all-light and an all-dark grid are both wins, and inverting any one cell of either is not a win |
| `Board.GetGridPosition` | assets/js/game.js:262-275 | a click gives a cell exactly when its offset from the grid's corner lies in [0, 270) on both axes; the cell is the one whose 90-pixel slot holds the click, and it lies inside the grid |
| `Board.ClickOnDrawnCell` | assets/js/game.js:150-151 | a click anywhere on the square drawGrid paints for a cell selects that cell |
| `Board.GridPositionExamples` | assets/js/game.test.js:173-186 | (150, 150) selects (1, 1) and (1000, 1000) selects nothing |
| `Game.GameOverIgnoresClicks` | assets/js/game.js:209 | once the game is over a click changes nothing: grid, moves, game-over flag, in-memory and stored best score |
| `Game.ClickCountsOneMove` | assets/js/game.js:211-229 | an accepted click toggles the plus around the cell, adds exactly one move and keeps the grid 3 by 3 |
| `Game.GameOverIffWin` | assets/js/game.js:232-234 | after an accepted click the game is over exactly when the new grid is a win, never while the win test is suppressed, and best scores change only on a win |
| `Game.WinArbitratesBestScore` | assets/js/game.js:235-245 | on a win the stored and the in-memory best both become the move count when the stored value is unset or larger; otherwise both stay |
| `Game.StoredBestNeverIncreases` | assets/js/game.js:235-240 | a recorded best score never goes up and is never cleared by a click |
| `Game.ClickKeepsConsistent` | assets/js/game.js:233-240 | every click keeps "a finished game shows a uniform grid" and "the in-memory best equals the stored best" |
| `Game.InitialConsistent` | assets/js/game.js:112-117 | a freshly constructed game is consistent: not over, and the in-memory best equals the stored best |
| `Game.NewGameKeepsConsistent` | assets/js/game.js:284-311 | a new game started from a consistent state is consistent |
| `Game.WinStepIsBestAfter` | assets/js/game.js:235-240 | the stored best after a winning click is exactly the one-game case of `BestAfter`, so the lemmas about `BestAfter` speak about the game's own arbitration |
| `Game.ClickTwice` | assets/js/game.js:211-229 | two clicks on the same cell with no win between restore the grid but count two moves |
| `Game.BestIsMinimum` | assets/js/game.js:235-240 | after a sequence of won games the stored best is the fewest moves among them and the earlier stored value; it is unset only if it was unset and nothing was won |
| `Game.BestNonIncreasing` | assets/js/game.js:235-240 | over a sequence of won games, the stored best after more games is never above an earlier nonzero value |
| `Game.SetupAppliesEveryClick` | assets/js/game.js:294-302 | with the win test suppressed, every scrambling click is applied and counted, and the game-over flag and both best scores are untouched |
| `Game.NewGameResets` | assets/js/game.js:284-311 | whatever the picks, a new game has zero moves, is not over, keeps both best scores, and its grid is the all-light grid with every pick clicked |
| `Game.NewGameSolvable` | assets/js/game.js:284-311 | a new game is solved back to all-light by clicking the picks in reverse order |
| `Game.NewGameMayStartWon` | assets/js/game.js:298-308 | a scramble is not re-rolled: some picks give a winning grid, and that game is not over |
| `Game.TileGame.constructor` | assets/js/game.js:112-117 | a new game object has a fresh all-light 3 by 3 grid, no moves, is not over, and its best score is the stored one |
| `Game.TileGame.IsWinState` | assets/js/game.js:255-260 | true exactly when every cell of the grid array equals cell (0, 0) |
| `Game.TileGame.FlipTiles` | assets/js/game.js:211-226 | the in-place flips on the grid array give exactly the toggled grid |
| `Game.TileGame.Toggle` | assets/js/game.js:208-253 | the object's grid, counters and store change exactly as `Step` says, with the win test optionally suppressed; the grid array is the same object |
| `Game.TileGame.ToggleTiles` | assets/js/game.js:208-253 | a player's click changes the object exactly as `Step` says, with the win test on |
| `Game.TileGame.NewGame` | assets/js/game.js:284-311 | a new grid array is allocated and the object ends exactly in `NewGameState` for the given picks |
| `Game.CentreClickScenario` | assets/js/game.test.js:49-79 | clicking the centre of an all-light grid darkens the centre and its four neighbours only, counts one move and does not win |
| `Game.BetterScoreScenario` | assets/js/game.test.js:97-125 | winning in 6 moves against a stored best of 10 records 6 in the store and in memory |
| `Game.WorseScoreTestScenario` | assets/js/game.test.js:127-151 | on the test's own grid the click does not win: moves become 11, nothing is written, and the best stays 5 |
| `Game.WorseScoreScenario` | assets/js/game.js:235-245 | winning in 11 moves against a stored best of 5 ends the game and writes nothing |

## Left out

- DOM construction, styles, the confetti script and `celebrateWin`: presentation and an external library.
- `initCanvas`, `drawGrid` and all `textContent` updates, including `updateBestScore`'s dash for an unset best: rendering. Only the state they display is modelled.
- `handleClick`, the event listeners and the hash and popstate navigation: browser wiring.
- Local storage is a `BestScoreStore` holding a natural number, with 0 for a missing entry. Its string form and `parseInt` are not modelled, so neither are non-numeric or negative stored strings.
- `Math.random` is not modelled. `NewGame` takes the five drawn cells as `picks`, and its requires states the range that `Math.floor(Math.random() * GRID_SIZE)` guarantees.
- `getBoundingClientRect` and floating-point pixels: click and canvas coordinates are integers.
- Game.TileGame.Toggle: requires an in-grid cell. Every caller passes one. In JavaScript, an out-of-range row throws. With an in-range row and a column of 3 or -1, the stray write grows the row or adds a property, and the neighbour loop still flips the in-grid cell beside it, counts a move and may end the game. That behaviour is not modelled.
- `FlipCount` and the scenario lemmas use the fixed grid size of 3. Other sizes are not modelled, because the source never uses one.
- The source keeps the grid, moves, game-over flag and best score in a nested `gameState` record. The model has them as fields of `TileGame`.
