# Tetris 2048: a verified model of the grid state machine

Tetris 2048 drops tetromino-shaped groups of numbered tiles into a grid.
When a piece lands, four things happen to the board:

- the piece's tiles are **placed** (`update_grid`);
- full candidate rows are **cleared** (`rowCheck`);
- equal tiles stacked in a candidate column **merge** into one tile of twice the number (`sumCheck`);
- **gravity** settles every column (`applyGravity`).

The score grows by each merged tile's new number and by the numbers of each cleared row.

This project models that core in Dafny and proves what each step does to the board, the score and the game-over flag. It also models three further pieces:

- the game driver's helpers that choose the candidate rows and columns;
- the ghost piece's drop distance;
- the order of the landing steps.

Finally, it models the achievement tracker that the driver reports to.

Modules, one per file:

- `Tiles` (tiles.dfy) defines a tile as its number plus its `(x, y)` position, and a piece as a matrix of optional tiles.
- `Columns` (columns.dfy) works on one column as a sequence of cells, bottom first:
  - gravity on a column (`Settle`);
  - the merge scan (`FirstPair`, `MergeAt`) and the merge loop (`Resolve`).
- `Boards` (boards.dfy) works on a whole board, a sequence of rows:
  - columns of a board;
  - board gravity (`Gravity`);
  - merging of candidate columns, and the outcome of `sumCheck`.
- `Placement` (placement.dfy) models `update_grid` as a fold of single-tile placements in the scan order of the source.
- `RowClearing` (rows.dfy) models the `rowCheck` pass over the sorted candidate rows.
- `GameGrids` (game_grid.dfy) holds the class `GameGrid`:
  - its fields are `cells: array2<Option<Tile>>`, `score` and `gameOver`;
  - its methods do the source's in-place loops cell by cell;
  - each method is proved against the functions above through `Numbers()`, the numbers the matrix shows.
  - `Valid()` states that every tile records the slot it sits in.
- `Achievements` (achievements.dfy) models `report_event`:
  - as a fold over the definitions (`Report`);
  - as the class `AchievementManager`, whose `ReportEvent` loop is proved equal to that fold.
- `Game` (game.dfy) holds `rowsToCheck`/`columnsToCheck`, the ghost drop loop, and the landing sequence.

The score, tile numbers and coordinates are Python integers, so they are unbounded here too.

Two points of order:

- **Landing order.** The driver calls `rowCheck` before `sumCheck` (Tetris_2048.py:187-193), so full rows are cleared before columns are merged; `Game.Land` does the same.
- **Column order in `sumCheck`.** Candidate columns are visited in Python set order. The model lets `SumCheck` take them in any order, and the outcome (`Boards.SumCheckOutcome`) does not depend on it.

## Model

| member | source | states |
|---|---|---|
| GameGrids.GameGrid.constructor | game_grid.py:8-24 | A new grid has the given height and width, no tile on any cell, score 0, and the game not over. |
| GameGrids.GameGrid.IsInside | game_grid.py:62-64 | True exactly when `0 <= row < height` and `0 <= col < width`. |
| GameGrids.GameGrid.IsOccupied | game_grid.py:66-70 | False outside the board; inside, true exactly when the cell holds a tile. |
| GameGrids.GameGrid.PlaceTile | game_grid.py:83-94 | One tile. If it is off the board or its cell is occupied, the board is unchanged and the game is over. Otherwise its number is stored at its own position and the flag is unchanged. |
| GameGrids.GameGrid.PlaceColumn | game_grid.py:81-94 | The inner loop of `update_grid` places the tiles of one piece column, first row first. |
| GameGrids.GameGrid.UpdateGrid | game_grid.py:72-95 | The board after the call is every tile placed in the source's scan order. The result and `gameOver` both say whether any tile failed; `gameOver` is first reset. The score is unchanged. |
| Placement.PlaceColumnsScan | game_grid.py:80-94 | Placing column after column is one placement of the piece's tiles in scan order. |
| Placement.ScanOrderTiles | game_grid.py:79-83 | The scan visits exactly the tiles of the piece's first `len(tiles[0])` columns. |
| Placement.PlaceOver | game_grid.py:78-95 | A placement ends the game iff some tile is blocked. A tile is blocked when it is off the board, when its cell was occupied, or when an earlier tile of the same call took the cell. |
| Placement.PlaceCell | game_grid.py:84-94 | An occupied cell is never overwritten. A cell no tile aims at is unchanged. The first tile aimed at an empty cell is stored there, and later failures roll nothing back. |
| Placement.PlaceAboveTop | game_grid.py:86-87 | A tile just above the top row ends the game, wherever it comes in the scan. |
| Placement.PlaceSameCell | game_grid.py:89-91 | Two tiles of one piece aimed at the same cell end the game. |
| Placement.PlaceAppend | game_grid.py:80-94 | Placing two runs of tiles is one placement whose flag is set if either run failed: no roll-back between them. |
| Columns.FirstPairFrom | game_grid.py:106-109 | Finds the lowest row at or above `from` whose tile equals the tile above it, or reports that no such row exists. |
| Columns.MergeAtFacts | game_grid.py:109-122 | A merge at row `y` keeps the column's height and puts old lower + old upper into row `y`. It leaves the rows below unchanged and moves each cell above down one row, gaps included. The top cell becomes empty. One tile fewer, same total. |
| Columns.MergeAtIsDrop | game_grid.py:111-122 | A merge is the lower tile doubled and the upper tile emptied, followed by the downward shift of everything above. |
| GameGrids.GameGrid.MergePair | game_grid.py:109-115 | Doubles the lower tile in its column, empties the upper cell, and raises the score by the new number. |
| GameGrids.GameGrid.ShiftCells | game_grid.py:117-122 | Every cell above the emptied one moves down exactly one row, the top cell becomes empty, and the other columns and lower rows are unchanged. |
| GameGrids.GameGrid.ShiftColumnDown | game_grid.py:116-122 | The column after the shift is `Drop` of the old column at the emptied cell; other columns are unchanged. |
| Boards.MergeByShift | game_grid.py:111-122 | On a board, doubling, emptying and shifting one column gives that column's `MergeAt`. |
| GameGrids.GameGrid.MergeStep | game_grid.py:109-123 | One merge on the board: that column becomes `MergeAt` of itself, and the score rises by twice the lower number. |
| GameGrids.GameGrid.MergeFirstPair | game_grid.py:105-124 | One bottom-to-top scan merges iff the column has a pair, and then exactly at the lowest pair. Otherwise nothing changes. |
| Columns.Resolve | game_grid.py:103-124 | The merge loop ends with a column of the same height in which no two adjacent tiles are equal. It terminates because each merge removes one tile. |
| Columns.ResolveFacts | game_grid.py:103-124 | Resolving keeps the column's total and never adds tiles. A column without pairs is returned unchanged with no score, and only such a column. |
| Columns.ResolveTwoTwoFour | game_grid.py:103-124 | The column 2, 2, 4 (bottom up) becomes a single 8 and earns 4 + 8. |
| GameGrids.GameGrid.ResolveColumn | game_grid.py:103-124 | The merge loop of one column leaves that column as `Resolve` of it and every other column unchanged. The score rises by the merges' gain. |
| Boards.MergeColumnsSpec | game_grid.py:102-124 | After merging the candidate columns, a non-candidate column is unchanged. A candidate column is resolved and has no adjacent equal tiles. Every column keeps its total. |
| Boards.MergeColumnsStep | game_grid.py:102-124 | Resolving one more candidate column extends the merged board and its gain by that column alone. Hence the visiting order does not matter. |
| GameGrids.GameGrid.SumCheck | game_grid.py:97-126 | The board becomes gravity applied to the merged candidate columns. The score rises by exactly the merges' gain. The game-over flag is unchanged. |
| RowClearing.SortedRows | game_grid.py:133 | The in-range candidate rows, each once, in ascending order, and only those. |
| RowClearing.ClearRowShape | game_grid.py:138-148 | Clearing row `y` keeps the rows below, moves each row above down one, and leaves an empty top row. |
| RowClearing.ClearRowConserves | game_grid.py:138-148 | Clearing a full row moves exactly its numbers from the board to the score and removes `width` tiles. |
| RowClearing.RowPassFacts | game_grid.py:134-148 | After the pass over the candidates, board total + score earned = the starting total. Each cleared row took `width` tiles off the board, and no more rows were cleared than visited. |
| RowClearing.ClearSingleFullRow | game_grid.py:134-148 | A one-row board 2, 2 is cleared and earns 4. |
| RowClearing.TwoCandidatesInOrder | game_grid.py:133 | Candidates {0, 1} are visited as 0 then 1. |
| RowClearing.ShiftedFullRowStays | game_grid.py:133-148 | A full row that slides into an index already visited is not cleared. |
| GameGrids.GameGrid.RowIsFull | game_grid.py:135 | True exactly when every cell of the row holds a tile. |
| GameGrids.GameGrid.ClearCells | game_grid.py:138-140 | Empties every cell of the full row and adds the row's numbers to the score; other rows are unchanged. |
| GameGrids.GameGrid.ShiftRowDown | game_grid.py:143-148 | Every tile of one row moves down into the empty row beneath it; other rows are unchanged. |
| GameGrids.GameGrid.DropRowsAbove | game_grid.py:142-148 | Rows below the cleared one are unchanged, every row above moves down exactly one row, and the top row ends empty. |
| GameGrids.GameGrid.ClearFullRow | game_grid.py:137-148 | The board becomes `ClearRow` of the old board and the score rises by the row's sum. |
| GameGrids.GameGrid.RowCheck | game_grid.py:128-150 | The board becomes gravity applied to the clearing pass over the sorted in-range candidates. The score rises by the cleared rows' numbers. It returns how many rows were cleared, and the game-over flag is unchanged. |
| Columns.SettleSpec | game_grid.py:156-165 | Gravity keeps a column's height and its tiles in bottom-to-top order, and leaves no tile above an empty cell. |
| Columns.SettledIsFixed | game_grid.py:157-159 | Gravity leaves a column with no floating tile exactly as it is. |
| Columns.SettleFixpoint | game_grid.py:152-165 | Gravity leaves a column unchanged exactly when it is settled. A second gravity pass moves nothing. |
| Columns.SettleExample | game_grid.py:156-165 | Empty, 4, empty, 2 settles to 4, 2, empty, empty. |
| Boards.GravityColumns | game_grid.py:152-165 | Every column of the board after gravity is that column settled: no floating tile, and the same tiles in the same order. |
| Boards.GravityIdempotent | game_grid.py:152-165 | A second gravity pass moves nothing. Gravity changes a board exactly when some tile floats. |
| GameGrids.GameGrid.MoveDown | game_grid.py:161-165 | One slot move: the tile goes to the empty cell below it, and its old cell becomes empty. |
| GameGrids.GameGrid.DropTile | game_grid.py:158-165 | Dropping one tile keeps the cells below it settled and in order, and changes nothing above it or in other columns. |
| GameGrids.GameGrid.SettleColumn | game_grid.py:157-165 | The loop for one column leaves that column settled and every other column unchanged. |
| GameGrids.GameGrid.ApplyGravity | game_grid.py:152-165 | The board becomes `Gravity` of the old board, and every tile still records its own slot. |
| Game.Collect | Tetris_2048.py:43-55 | The nested loop returns exactly the set of the chosen coordinate of the piece's tiles. |
| Game.RowsToCheck | Tetris_2048.py:43-48 | Exactly the `y` positions of the piece's tiles. |
| Game.ColumnsToCheck | Tetris_2048.py:50-55 | Exactly the `x` positions of the piece's tiles. |
| Game.NoTilesNoCandidates | Tetris_2048.py:43-55 | A piece matrix without tiles gives no candidate rows and no candidate columns. |
| Game.CandidateColumnsInRange | Tetris_2048.py:192-193 | When every tile lies within the board's width, so do all candidate columns. |
| Game.Fall | Tetris_2048.py:120-124 | A tile's fall distance is positive only while the cells beneath it are on the board, and never exceeds the board height. |
| Game.FallOpen | Tetris_2048.py:121-124 | Every cell a tile falls through is on the board and empty. |
| Game.FallStops | Tetris_2048.py:121-124 | The cell just below the end of the fall is off the board or occupied. |
| Game.DropDistance | Tetris_2048.py:120-124 | The inner `while` loop returns the tile's fall distance, and it terminates. |
| Game.GhostDrop | Tetris_2048.py:116-125 | The result lies in `[0, height]`, is at most every tile's fall distance, and is the height or some tile's fall distance. |
| Game.MinDropOpen | Tetris_2048.py:116-125 | For every tile and every `k` in `1..min_drop`, the cell `k` rows below the tile is on the board and empty. |
| Game.MinDropMaximal | Tetris_2048.py:119-125 | A piece with a tile cannot drop one row further: some tile's next cell is off the board or occupied. |
| Game.MinDropUnique | Tetris_2048.py:116-125 | The drop distance is determined by the board and the piece. |
| Game.Land | Tetris_2048.py:184-197 | A landing in the driver's order: place, clear the piece's rows, report the number of those rows, merge the piece's columns, then report the score. The board, score and game-over flag are those of the three grid outcomes composed in that order, and the result is the placement's flag. |
| Game.FirstRowWithoutClear | Tetris_2048.py:187-190 | With the row count as written, a landing that clears no row unlocks `first_row`. |
| Game.LandCounted | Tetris_2048.py:184-197 | The landing with the row event carrying the number of rows actually cleared, sent only when positive. |
| Game.FirstRowIffCleared | Tetris_2048.py:187-190 | With counted reports, `first_row` is unlocked after a landing iff it already was or the landing cleared a row. |
| Achievements.Definitions | achievements.py:9-31 | The three definitions: `first_row`/`row_cleared`/1, `merge_2048`/`tile_merged`/2048 and `score_1000`/`score_update`/1000, with distinct ids. |
| Achievements.AchievementManager.constructor | achievements.py:6-45 | The manager starts with the saved unlocked set, empty progress and no notifications. |
| Achievements.AchievementManager.Unlock | achievements.py:64-67 | The id joins the unlocked set and is notified once; progress is unchanged. |
| Achievements.AchievementManager.ReportEvent | achievements.py:47-62 | The loop over the definitions leaves exactly the state of `Report`. |
| Achievements.ReportAt | achievements.py:47-62 | With distinct ids, a whole report does to one definition's id exactly what visiting that definition alone does. |
| Achievements.ReportSkips | achievements.py:48-51 | A definition already unlocked, or listening to another event, keeps its unlock status and progress. |
| Achievements.ReportScore | achievements.py:53-56 | On `score_update`, a score achievement is unlocked afterwards iff it already was or `value >= threshold`. |
| Achievements.ScoreKeepsProgress | achievements.py:53-56 | A `score_update` report leaves the progress map exactly as it was. |
| Achievements.ReportAccumulates | achievements.py:57-62 | Any other event sets the progress of a locked, listening achievement to its previous value (default 0) plus `value`. It unlocks iff that new total reaches the threshold. |
| Achievements.ReportUnknown | achievements.py:48-51 | An event no definition listens to changes nothing. |
| Achievements.ReportGrows | achievements.py:47-65 | Unlocked ids are never removed and notifications are only appended. Every newly unlocked id belongs to a definition listening to the event. |
| Achievements.ReportConsistent | achievements.py:47-67 | A report keeps every notified id unlocked, never notifies an id unlocked at start, and notifies no id twice. |
| Achievements.UnlockedAtMostOnce | achievements.py:47-67 | Over any sequence of events from a fresh manager, each id is unlocked at most once, and ids saved as unlocked never. |

## Left out

- Drawing is not modelled:
  - `display`, `draw_grid` and `draw_boundaries`;
  - the piece and ghost rendering in the driver;
  - the menu, sidebar and scoreboard;
  - stddraw.py and picture.py.
  All of it is screen and file I/O.
- The background-music thread and its external player process are not modelled: they are concurrency and a foreign process.
- The random choice of the next piece is not modelled.
- `Tetromino` movement is not part of this model. A piece is its matrix of tiles.
- Tile internals are not modelled. A tile is its number and position, and the tile's colour (`background_color`, `color_generator`) is left out.
- `GameGrid.current_tetromino` and the second parameter of `sumCheck` are not modelled: they only serve drawing.
- Tile identity is not modelled. The piece's matrix and the grid share tile objects in the source, and a merge doubles a tile object in place. The model tracks numbers and recorded positions as values.
- `SumCheck` requires every candidate column to be a column of the board. For a column at or past the width the source would index outside the matrix, and a negative one would wrap around.
- `Game.Land` and `Game.LandCounted` require every tile of the piece to lie within the board's width, which the piece's own movement keeps. Other tiles may still be off the board vertically, or collide.
- In the driver, `columnsToCheck` runs after `rowCheck` has moved tiles of the piece down. Only rows change in those moves, so `Game.Land` computes the columns from the piece as it landed.
- UpdateGrid, Game.Land: these, like `PlaceColumn`, `Game.LandCounted` and `Game.RowsCleared`, require a non-empty piece matrix with no row shorter than the first (`WellShaped`). On an empty matrix or a shorter row the source raises `IndexError` (game_grid.py:79, 82). A tetromino's tile matrix has rows of one length and is never empty, so it meets this; tetromino.py is not part of this model.
- `Game.Land` models one landing; the driver's `break` on game over is its boolean result.
- Achievement names and descriptions are left out, because they are only printed.
- Loading the saved unlocked ids from JSON is not modelled; they are a constructor parameter.
- `_save`, the file write, is not modelled.
- `_notify`, the console message, is recorded as the sequence `notified` of announced ids.

## Findings

| source | as written | input that shows it | evidently intended | confidence | as-written member | corrected member |
|---|---|---|---|---|---|---|
| Tetris_2048.py:187-190 | The driver reports `row_cleared` with `len(rows)`, the number of rows the landed piece spans, whether or not any row was cleared. `first_row` ("clear your first row", threshold 1) therefore unlocks on the first landing. | A single 2 tile landing in the bottom-left cell of an empty 2 × 2 board clears no row, yet `first_row` unlocks. | Report the number of rows `rowCheck` actually cleared, and only when it is positive. | high, not executed | Game.FirstRowWithoutClear | Game.FirstRowIffCleared |
