# Minesweeper game engine in Dafny

This project models the game engine of a small Minesweeper web service: the `MinesweeperService` class in
`Minesweeper/MinesweeperService.cs` and the `Game` state class in `Minesweeper/Models/Game.cs`.
The engine keeps a store of games keyed by id. `CreateGame` validates the board size and the
mine count, lays the mines, blanks the display and files the new game. `MakeTurn` rejects a
move in a fixed order (unknown game, cell off the board, game completed, cell already revealed).
Otherwise it reveals the cell:
- a mine shows `X` and ends the game;
- a safe cell shows the number of mines around it;
- a cell with no mine around it floods into its neighbours.

A game whose safe cells are all revealed is won. A completed game shows its mines as `M`.

Layout:
- `Board.dfy` (module `Board`): the geometry of the board and the counting of mines around a cell,
  with `AdjacentMines` as a row-by-row scan and `Neighbourhood` as the set it must count. It also
  holds the decimal text of a count (`NatToString`) and the display texts `" "`, `"X"` and `"M"`.
- `Game.dfy` (module `Models`): the `Game` class and the `GameInfoResponse` snapshot. The grids
  are `array2`s written in place. `Game.Valid()` is the invariant the engine keeps between turns:
  - exactly `MinesCount` mines;
  - revealed cells are safe and labelled with their count;
  - a revealed cell with count zero has all its neighbours revealed;
  - hidden safe cells are blank;
  - mines are blank while the game runs and show `M` (or `X` for the hit mine) once it is
    completed;
  - a game whose safe cells are all revealed is completed.
- `MinesweeperService.dfy` (module `Service`): the engine's routines as methods with loops, the
  recursive reveal, and the `MinesweeperService` class with its store `games: map<Guid, Game>`.
- `AsWritten.dfy` (module `AsWritten`): the loops whose code differs from what the engine
  evidently means, modelled as written, with the inputs that show the difference (see Findings).

## Model

| member | source | states |
|---|---|---|
| Models.Game.constructor | Minesweeper/Models/Game.cs:3-20 | Every property holds the value passed in; the mine set is the true cells of the mines grid. Width, Height, MinesCount, GameId and the three grids are never reassigned afterwards (they are `const`). |
| Service.MinesweeperService.constructor | Minesweeper/MinesweeperService.cs:13 | The store starts empty and satisfies the store invariant. |
| Service.MinesweeperService.CreateGame | Minesweeper/MinesweeperService.cs:15-39 | A size outside 1..30 fails with "Invalid field size". A mine count outside [1, width*height) fails with "Invalid number of mines". Neither failure changes the store. Otherwise exactly one entry is added, under an id no stored game had. Existing games are untouched. The new game has the given size and mine count, is not completed, and has every cell hidden and blank. The result describes it. The store invariant is kept. |
| Service.NewGame | Minesweeper/MinesweeperService.cs:23-34 | The new game's grids are fresh. It has the given id, size and mine count, is not completed, has every cell hidden and blank, and is Valid, including exactly MinesCount mines. |
| Service.PlaceMines | Minesweeper/MinesweeperService.cs:65-81 | On a board with no mines, lays mines until there are exactly MinesCount of them. The mine set always matches the grid. |
| Service.InitializeField | Minesweeper/MinesweeperService.cs:83-92 | Every cell of the display shows `" "`. |
| Service.MinesweeperService.MakeTurn | Minesweeper/MinesweeperService.cs:41-63 | An unknown id fails with "Invalid game ID". Otherwise the first of TurnError's rejections applies, and on a rejection the game is unchanged. An accepted move leaves no cell unrevealed that was revealed before. A mine shows Hit and completes the game without revealing anything. A safe cell is revealed, and the game is completed exactly when every safe cell is revealed. A completed game shows Hit on the hit mine and Mine on every other mine. The move reveals nothing beyond its flood: every newly revealed cell is reached from the played cell by a chain of touching newly revealed cells, each but the last with no mine around it (`Game.FloodReaches`). If the played cell has a mine around it, no other cell changes its Revealed flag. The result describes the game, and the store invariant is kept. |
| Service.PlayTurn | Minesweeper/MinesweeperService.cs:55-60 | Keeps Game.Valid and gives the accepted-move outcomes of MakeTurn for one game: Revealed only grows; a mine shows Hit and completes the game; a safe cell is revealed and the game is completed exactly when every safe cell is revealed; a completed game shows its mines. The move reveals nothing beyond its flood: every newly revealed cell is reached from the played cell by a chain of touching newly revealed cells, each but the last with no mine around it (`Game.FloodReaches`). If the played cell has a mine around it, no other cell changes its Revealed flag. |
| Service.Reveal | Minesweeper/MinesweeperService.cs:55 | The outermost reveal of a move on a running game. A mine shows Hit, completes the game and changes nothing else. A safe cell is revealed, the game stays safe, labelled and fully flooded, and only newly revealed cells change their text. The newly revealed cells are reached from the played cell as in PlayTurn, and a cell with a mine around it reveals only itself. |
| Service.FinishTurn | Minesweeper/MinesweeperService.cs:57-60 | The game ends completed exactly when it was completed already or every safe cell is revealed. A completed game's cells then show MineShown of their old text, and a running game's cells are unchanged. The win check of lines 121-125 is made here, once. |
| Service.MinesweeperService.Play | Minesweeper/MinesweeperService.cs:55-60 | Plays an accepted move on the stored game under gameId. It keeps the store invariant (the other games share no object with it) and passes on PlayTurn's outcomes, the bound on what the flood reveals included. |
| Service.MinesweeperService.File | Minesweeper/MinesweeperService.cs:36 | Filing a valid game whose objects the store does not hold maps its id to it and keeps the store invariant. |
| Service.RevealCellRecursive | Minesweeper/MinesweeperService.cs:94-119 | A mine cell shows Hit and completes the game, with Revealed unchanged and no other cell changed. A safe cell is revealed, Completed is left alone, and the game stays safe, labelled and flooded (except the cells whose calls are still running). Revealed only grows, and a cell's text changes only when the cell is newly revealed. The call extends the turn's flood log, first with (row, col) when it is safe. Every revealed cell was already revealed when the turn began or is on the extended log, and each logged cell after the first touches an earlier logged cell with no mine around it. So the flood reveals no cell it cannot reach. The recursion ends because the set of unrevealed cells shrinks. |
| Service.RevealNeighbours | Minesweeper/MinesweeperService.cs:107-119 | After a zero-count cell, every cell of its clipped 3x3 block is revealed, so the cell is no longer pending, and the invariants hold. Every revealed cell was revealed when the turn began or is on the extended flood log. |
| Service.RevealNeighboursInRow | Minesweeper/MinesweeperService.cs:111-117 | Every cell of one row of the block is revealed. Only cells without a mine are revealed (NoMineNextToZero). Every revealed cell was revealed when the turn began or is on the extended flood log. |
| Service.FloodCoversTurn | Minesweeper/MinesweeperService.cs:94-119 | Suppose the revealed cells were closed under the flood before the move and are closed after it, and every newly revealed cell is on a flood log from the played cell. Then the flood reaches the newly revealed cells through newly revealed cells. If the played cell has a mine around it, it is the only newly revealed cell. |
| Service.LoggedCellRevealed | Minesweeper/MinesweeperService.cs:107-117 | Once the revealed cells are closed under the flood, every cell of a flood log that starts at a revealed cell is revealed. |
| Service.FloodStopsAtCount | Minesweeper/MinesweeperService.cs:107 | A flood from a cell with a mine around it reaches only that cell. |
| Service.FloodLogStart | Minesweeper/MinesweeperService.cs:107 | A flood log of two or more cells starts at a cell with no mine around it. |
| Service.FloodLogExtends | Minesweeper/MinesweeperService.cs:113 | Appending an on-board cell that touches a logged zero-count cell keeps a flood log a flood log, and extends it. |
| Service.NoMineNextToZero | Minesweeper/MinesweeperService.cs:107-113 | A cell touching a cell whose count is zero holds no mine, so the flood never reveals a mine. |
| Service.FloodClosesCell | Minesweeper/MinesweeperService.cs:107-118 | Once the block around a zero-count cell is revealed, that cell needs no further flooding. |
| Service.CountAdjacentMines | Minesweeper/MinesweeperService.cs:128-143 | The loop's count equals AdjacentMines over the game's mines. |
| Board.AdjacentMinesCountsNeighbourhood | Minesweeper/MinesweeperService.cs:131-140 | The row-by-row scan of the clipped block counts exactly the mines among the on-board cells that touch the cell. |
| Board.RectCountIsCardinality | Minesweeper/MinesweeperService.cs:131-140 | Scanning a rectangle row by row counts each of its cells of the set once. |
| Board.RowCountIsCardinality | Minesweeper/MinesweeperService.cs:133-139 | Scanning one row counts each of its cells of the set once. |
| Board.NeighbourhoodIsClippedBlock | Minesweeper/MinesweeperService.cs:109 | The cells touching (row, col) on the board are the block from the larger of 0 and row-1 to the smaller of Height-1 and row+1, and likewise for columns. |
| Board.AdjacentMinesAtMostEight | Minesweeper/MinesweeperService.cs:103-104 | A safe cell has at most 8 mines around it. |
| Board.NoAdjacentMines | Minesweeper/MinesweeperService.cs:107 | The count is zero exactly when no cell around holds a mine (both directions). |
| Board.NatToString | Minesweeper/MinesweeperService.cs:104 | The text of a count is a non-empty string of decimal digits. |
| Board.DecimalRoundTrip | Minesweeper/MinesweeperService.cs:104 | Reading a count's text back gives the count. |
| Board.CountTextIsOneDigit | Minesweeper/MinesweeperService.cs:104 | A count of at most 8 is one digit, which is none of `" "`, `"X"` and `"M"`. |
| Board.FreeCellExists | Minesweeper/MinesweeperService.cs:70-80 | While fewer mines than cells are laid, some cell has no mine, so each round of mine laying can succeed. |
| Board.CellsCardinality | Minesweeper/MinesweeperService.cs:20 | A height-by-width board has height*width cells. |
| Board.MineShown | Minesweeper/MinesweeperService.cs:161-173 | Once the mines are revealed, a mine shows Mine or Hit and every other cell keeps its text. |
| Board.MineShownIdempotent | Minesweeper/MinesweeperService.cs:57-59 | Revealing the mines twice, as at lines 124 and 59, is the same as revealing them once. |
| Service.RevealMines | Minesweeper/MinesweeperService.cs:161-173 | Each cell ends showing MineShown of its mine flag and its old text: every mine but the hit one shows Mine, and nothing else changes. |
| Service.CheckWinCondition | Minesweeper/MinesweeperService.cs:145-159 | Returns true exactly when every cell without a mine is revealed. |
| Service.ToGameInfoResponse | Minesweeper/MinesweeperService.cs:175-198 | The snapshot has the game's id, size, mine count and Completed. It has Height rows of Width strings, and entry [r][c] is the text of cell (r, c). |
| Service.FreshIdExists | Minesweeper/MinesweeperService.cs:24 | However many ids are taken, some id is free, so a new game always has an id of its own. |
| Service.IdBound | Minesweeper/MinesweeperService.cs:24 | Some id exceeds every taken id. |
| Models.TrueCells | Minesweeper/Models/Game.cs:20 | A cell is in the set exactly when it is on the grid and its entry is true. |
| AsWritten.BlockRowScanOverruns | Minesweeper/MinesweeperService.cs:111 | As written, the inner loop on a row r < Width, started at a column of at least r-1, reads column Width. |
| AsWritten.BlockRowScanSkips | Minesweeper/MinesweeperService.cs:111 | As written, the inner loop on row r, started at a column c with c + 1 < r, never runs, so that row of the block is skipped. |
| AsWritten.SafeCountNeverZero | Minesweeper/MinesweeperService.cs:135 | As written, the count of non-mines plus the mine count is the neighbourhood's size, and a safe cell's count is at least 1. |
| AsWritten.RowLoopNeverFinishes | Minesweeper/MinesweeperService.cs:149 | As written, the inner loop on a row below Width ends only by leaving the method or by reading column Width. |
| AsWritten.WinCheckNeverWins | Minesweeper/MinesweeperService.cs:145-159 | As written, the win check never returns true. With no hidden safe cell it reads outside the grid. |
| AsWritten.MineTextMissesMines | Minesweeper/MinesweeperService.cs:167-169 | As written, a hidden mine stays blank and a safe cell shows Mine. |

## Left out

- Mine placement: the source draws random cells until it finds one without a mine. The model lays each mine on some cell without one, chosen by `:|`. It does not model randomness, uniformity or the termination of rejection sampling. Only the outcome is modelled: exactly MinesCount distinct mines.
- `Guid.NewGuid()` becomes the choice of an id no stored game has. `Guid` is modelled as `nat`.
- Concurrency: the store is a singleton dictionary shared by web requests, and the model is sequential.
- The HTTP controller, host bootstrap and Swagger setup are not part of this model. Neither is the mapping of exceptions to HTTP responses.
- Exceptions: they are a `Result` value carrying the exception type and message.
- The win check: the source runs it at the end of every recursive reveal. The model runs it once, after the whole flood fill has finished (`FinishTurn`). The final state is the same. Once an inner call finds every safe cell revealed, the outer calls reveal nothing more and their own checks succeed again. Revealing the mines again changes nothing (`Board.MineShownIdempotent`).
- Property setters: the source's properties are settable, but the engine writes only `Completed` and the grids' cells. So the other properties are `const`, and no Dafny code can reassign them.
- `new string[h, w]` starts with `null` entries. The model leaves those entries arbitrary until `InitializeField` writes them.
- The flood fill's two nested loops are two methods, `RevealNeighbours` and `RevealNeighboursInRow`.
- The engine's loops are modelled as the code evidently means them (see Findings). The literal index-out-of-range behaviour appears only in module `AsWritten`.
- Service.PlaceMines: requires a board with no mines yet, which is how its only caller, CreateGame, uses it. It does not model laying mines on a board that already has some.
- Service.MinesweeperService.MakeTurn: it says nothing about the other stored games. Its `modifies` clause names only the played game's objects, so the others cannot change.

## Findings

| source | as written | input that shows it | evidently intended | confidence | as-written member | corrected member |
|---|---|---|---|---|---|---|
| Minesweeper/MinesweeperService.cs:111 | The inner loop's guard is `r <= Min(Width - 1, c + 1)`. It tests the row and bounds by `c + 1`. On a row r < Width with r <= Max(0, col - 1) + 1 the loop runs past the last column. On a row r > Max(0, col - 1) + 1 it never runs. Lines 133 and 111 share it. | A safe move on cell (0, 0) of any board: counting its mines reads Mines[0, Width] (IndexOutOfRangeException). On cell (5, 0) of a 10x10 board the loop never runs, for any of rows 4 to 6. As written the loop of line 111 is reached only when the count of line 133 returns 0, so it skips the same rows. | `c <= Min(Width - 1, col + 1)` | high (not executed) | AsWritten.BlockRowScanOverruns, AsWritten.BlockRowScanSkips | Service.CountAdjacentMines, Service.RevealNeighboursInRow |
| Minesweeper/MinesweeperService.cs:135 | Counts the cells around the cell that hold no mine, the cell itself included. | With the loop bounds corrected, a safe cell in a corner of a 2x2 board with one mine shows 3, not 1. No safe cell ever shows 0, so the flood never starts. | Count the cells that hold a mine. | high (not executed) | AsWritten.SafeCountNeverZero | Board.AdjacentMinesCountsNeighbourhood |
| Minesweeper/MinesweeperService.cs:149 | The inner loop's guard is `row < Width`, which never changes inside the loop. | Any board whose safe cells are all revealed: the win check reads Mines[0, Width] instead of reporting a win. | `col < Width` | high (not executed) | AsWritten.WinCheckNeverWins | Service.CheckWinCondition |
| Minesweeper/MinesweeperService.cs:165 | The inner loop's guard is `row < Width`, and the body never leaves the loop. | Any call of RevealMines (for example, stepping on a mine) reads Mines[0, Width], in the test of line 167. | `col < Width` | high (not executed) | AsWritten.RowLoopNeverFinishes | Service.RevealMines |
| Minesweeper/MinesweeperService.cs:167-169 | Writes to the cells without a mine. Because Completed is always true at these calls, it writes "M". | As written, row 0's safe cells show "M" and then the read of Mines[0, Width] at line 167 throws (see line 165). With the loop guard of line 165 corrected, after any completed game hidden mines stay " " and every safe cell, including revealed counts, shows "M". | Write to the mine cells: "M" on every mine except the hit one, which keeps "X". | medium (not executed) | AsWritten.MineTextMissesMines | Service.RevealMines |
