# 2048 game engine — a verified Dafny model

This project models the game engine of the 2048 puzzle, `src/Game.java`. The engine holds two things:

- a 4×4 board of integer tiles, where 0 is an empty cell;
- a running score.

It changes them in place through these operations:

- four moves (left, right, up, down), each a compress-then-merge pass over every row or column;
- `addRandomTile`, which puts a 2 or a 4 into an empty cell;
- `getEmptyCells`, which lists the empty cells;
- `resetGame`, which starts a game on a cleared board with two tiles;
- the read accessors `getBoard`, `getScore` and `getBoardSize`;
- the unfinished checks `hasWon` and `isGameOver`.

The model has three modules.

- `Lines` (lines.dfy) is the reference for one line: `SlideLeft` and `SlideRight` compress the non-zero tiles toward the move direction, merge equal neighbours once each, and refill with zeros. It proves the row-level properties: worked examples, packing, conservation of the tile sum, score bounds, the no-op rule, the left/right mirror, and that tile values stay powers of two.
- `Grids` (grids.dfy) lifts the line rule to the whole board (`MoveLeftGrid` … `MoveDownGrid`), lists the empty cells, and defines where a spawn puts its tile (`Spawned`). It proves the board-level properties: columns moved independently, the empty-cell list exact and in row-major order, a spawn filling exactly one empty cell, and a new game holding exactly two tiles.
- `Engine` (engine.dfy) is the class `Game`, with the board as an `array2<int>` and the score, `hasWon` and `gameOver` as fields. Every Java method except `printBoard` is a Dafny method that mirrors its loops: the counting compress loop, the merge loop with its inner shifting ("scooch") loop over a `temp` array, the cell-by-cell change test, and the write-back. Each is proved to leave exactly the board and score that `Grids` defines, and to spawn a tile exactly when its change test fires.

Randomness is a parameter. A `Draw` holds three numbers:

- `fraction`, the value of `Math.random()`, in [0, 1);
- two rolls of `random.nextInt(10)`, each in [0, 10).

The spawned cell is the empty cell at index `(int)(fraction * count)`. Each roll gives 2 when it is below 9 and 4 otherwise. Both writes of `addRandomTile` are modelled, so only the second roll decides the tile.

The model follows the code where the code and its doc-comments disagree:

- `moveRight` as written does not detect every change (see Findings). `Engine.Game.MoveRight` models it as written. `Engine.Game.MoveRightIntended` is the evidently intended version.
- `hasWon` and `isGameOver` are stubs that always return false. The model returns false and changes nothing. Their documented conditions exist only as the ghost predicates `Grids.ReachedWinValue` and `Grids.NoMovesLeft`. `Grids.NewGameNotWon` and `Grids.SpawnKeepsWin` state facts about the first, and `Grids.NoMovesLeftIff` relates the second to the moves.

The slide of a move, before its spawn, keeps each line's tile sum: a merge of two tiles of value v leaves one tile of value 2v (`Lines.SlideLeftKeepsSum`, `Lines.SlideRightKeepsSum`). A move that reports a change then adds the spawned 2 or 4; moveRight as written can change the board without reporting it (see Findings).

## Model

| member | source | states |
|---|---|---|
| Lines.Tiles | src/Game.java:113-116 | the compress step: the row's non-zero entries in order, at most as many as the row has and none of them 0 (Lines.SumTiles, Lines.TilesOfTiles give its sum and its fixed points) |
| Lines.MergeLeft | src/Game.java:119-132 | the merge from the front: an equal pair becomes one doubled tile scoring its value, and the scan resumes after it; the result is no longer than the input and has no 0 when the input has none |
| Lines.MergeRight | src/Game.java:171-184 | the same merge scanning from the back; no longer than the input, no 0 when the input has none (Lines.MergeRightMirrorsLeft relates it to MergeLeft) |
| Lines.SlideLeft | src/Game.java:110-132 | one row of moveLeft: compress, merge from the front, refill with zeros at the end; the result is as long as the row |
| Lines.SlideRight | src/Game.java:162-184 | one row of moveRight: compress toward the end, merge from the back, refill with zeros at the front; the result is as long as the row |
| Lines.SlideLeftFourTwos | src/Game.java:113-132 | the row [2,2,2,2] moved left becomes [4,4,0,0] and earns 8 points |
| Lines.SlideLeftMergesOnce | src/Game.java:119-132 | the row [4,4,8,0] moved left becomes [8,8,0,0] and earns 8: the 8 made by a merge does not merge again in the same move |
| Lines.SlideRightFourTwos | src/Game.java:165-184 | the row [2,2,2,2] moved right becomes [0,0,4,4] and earns 8 points |
| Lines.SlideLeftPacks | src/Game.java:113-131 | after a left slide all non-zero tiles come first with only zeros after them, and they are exactly the merged list of the row's tiles |
| Lines.SlideRightPacks | src/Game.java:165-183 | after a right slide only zeros come first, then exactly the merged list of the row's tiles |
| Lines.SlideLeftKeepsSum | src/Game.java:113-131 | a left slide keeps the row's total tile value |
| Lines.SlideRightKeepsSum | src/Game.java:165-183 | a right slide keeps the row's total tile value |
| Lines.MergeLeftGain | src/Game.java:119-132 | on positive tiles, the points earned lie between 0 and the tiles' sum, and are 0 exactly when no pair merged (the merged list is as long as the input) |
| Lines.MergeLeftKeepingAll | src/Game.java:119-132 | a merge pass that removes no tile returns its input unchanged, earns nothing, and the input has no equal neighbours |
| Lines.MergeLeftNoPairs | src/Game.java:119-132 | a tile list with no equal neighbours passes through the merge unchanged and earns nothing |
| Lines.SlideLeftGainBounds | src/Game.java:121-124 | on a row of legal tiles a left slide earns between 0 and the row's sum |
| Lines.SlideRightGainBounds | src/Game.java:173-176 | on a row of legal tiles a right slide earns between 0 and the row's sum |
| Lines.SlideLeftFixedIff | src/Game.java:113-141 | a left move leaves a row as it was exactly when the row is packed to the left and has no two equal neighbouring tiles |
| Lines.SlideLeftUnchangedScoresNothing | src/Game.java:121-124 | a row that a left move leaves as it was earns no points (the 0 == 0 "merges" add 0) |
| Lines.SlideRightUnchangedScoresNothing | src/Game.java:173-176 | a row that a right move leaves as it was earns no points |
| Lines.MergeRightMirrorsLeft | src/Game.java:171-184 | merging from the back equals reversing, merging from the front and reversing back, with the same points |
| Lines.SlideRightMirrorsLeft | src/Game.java:159-184 | moveRight's row result is the reverse of moveLeft's result on the reversed row, with the same score increase |
| Lines.SlideLeftKeepsTiles | src/Game.java:121-124 | a left slide turns a row of 0s and powers of two ≥ 2 into another such row (a merge doubles a power of two) |
| Lines.SlideRightKeepsTiles | src/Game.java:173-176 | the same for a right slide |
| Lines.MergeLeftKeepsTiles | src/Game.java:121-122 | merging powers of two yields only powers of two |
| Lines.TilesReverse | src/Game.java:165-168 | compressing toward the right end keeps the same tiles as compressing the reversed row |
| Lines.SumTiles | src/Game.java:113-116 | the compress step keeps the row's sum |
| Lines.PackedSplit | src/Game.java:113-116 | a packed row is its non-zero tiles followed by zeros |
| Grids.MoveLeftGrid | src/Game.java:108-142 | moveLeft's board before the spawn: every row replaced by its left slide, with LeftGains as the points; a 4×4 board (Grids.MovesKeepTiles: legal tiles stay legal) |
| Grids.MoveRightGrid | src/Game.java:159-195 | moveRight's board before the spawn: every row replaced by its right slide, with RightGains as the points; a 4×4 board |
| Grids.MoveUpGrid | src/Game.java:213-255 | moveUp's board before the spawn: the left move of the transposed board, transposed back; a 4×4 board (Grids.MoveUpByColumn: each column slides alone) |
| Grids.MoveDownGrid | src/Game.java:273-315 | moveDown's board before the spawn: the right move of the transposed board, transposed back; a 4×4 board (Grids.MoveDownByColumn) |
| Grids.LeftGainsNonNegative | src/Game.java:124 | LeftGains, the points moveLeft (and moveUp, on the columns) adds to the score summed over the lines, is never negative on lines of legal tiles |
| Grids.RightGainsNonNegative | src/Game.java:176 | RightGains, the points moveRight (and moveDown) adds summed over the lines, is never negative on lines of legal tiles |
| Grids.MoveUpByColumn | src/Game.java:213-255 | column c after an up move is the left-slide of column c alone |
| Grids.MoveDownByColumn | src/Game.java:273-315 | column c after a down move is the right-slide of column c alone |
| Grids.SetColumn | src/Game.java:250-252 | writing temp into column col sets exactly that column and keeps every other cell |
| Grids.UnchangedLeftScoresNothing | src/Game.java:135-144 | if moveLeft would leave the board as it was, its merges earned 0 points |
| Grids.UnchangedRightScoresNothing | src/Game.java:187-198 | the same for moveRight |
| Grids.UnchangedUpScoresNothing | src/Game.java:241-258 | the same for moveUp |
| Grids.UnchangedDownScoresNothing | src/Game.java:301-318 | the same for moveDown |
| Grids.MovesKeepTiles | src/Game.java:121-124 | each of the four moves turns a board of legal tiles into a board of legal tiles and earns a non-negative number of points |
| Grids.EmptyCells | src/Game.java:78-87 | every listed cell is on the board and holds 0 |
| Grids.EmptyCellsExact | src/Game.java:78-87 | a cell is listed exactly when it is on the board and holds 0, and the list is strictly increasing in row-major order (so each cell appears once) |
| Grids.EmptyInRowsSound | src/Game.java:81-85 | the cells listed after the first r rows are empty, lie in those rows, and are in strictly increasing row-major order |
| Grids.EmptyInRowsComplete | src/Game.java:81-85 | every empty cell in the first r rows is listed |
| Grids.TileFor | src/Game.java:63-67 | a roll of nextInt(10) gives a tile of 2 or 4, a legal tile value |
| Grids.Spawned | src/Game.java:50-69 | addRandomTile's board: unchanged when no cell is empty, otherwise the picked empty cell gets the first roll's tile and then the second's; a 4×4 board (Grids.SpawnFillsOneEmptyCell, Grids.SpawnUsesOneEmptyCell) |
| Grids.Pick | src/Game.java:60 | (int)(Math.random() * size) is a valid index into the empty-cell list |
| Grids.NoEmptyCellsIffFull | src/Game.java:53-54 | the empty-cell list is empty exactly when every cell is non-zero |
| Grids.SpawnOnFullBoard | src/Game.java:53-54 | on a board without an empty cell addRandomTile changes nothing |
| Grids.SpawnFillsOneEmptyCell | src/Game.java:59-67 | otherwise one previously empty cell now holds 2 or 4 and every other cell is unchanged |
| Grids.SpawnUsesOneEmptyCell | src/Game.java:59-67 | a spawn on a board with an empty cell leaves exactly one empty cell fewer |
| Grids.SpawnKeepsTiles | src/Game.java:63-67 | a spawn keeps every cell a legal tile value |
| Grids.NewGame | src/Game.java:30-39 | resetGame's board: two spawns on the all-zero board; a 4×4 board (Grids.NewGameHasTwoTiles: 14 empty cells, only 0, 2 or 4) |
| Grids.DealtOnCleared | src/Game.java:30-39 | two spawns on any all-zero board give the new-game board |
| Grids.NewGameHasTwoTiles | src/Game.java:30-39 | two spawns on the cleared board leave exactly 14 empty cells, and every cell holds 0, 2 or 4 |
| Grids.NewGameNotWon | src/Game.java:321-333 | hasWon's documented condition (a tile of at least WIN_VALUE, line 11) does not hold on the board resetGame deals |
| Grids.SpawnKeepsWin | src/Game.java:50-69 | a board that meets hasWon's documented condition still meets it after addRandomTile, which writes only an empty cell |
| Grids.FullRowsFixedIff | src/Game.java:335-344 | on a full board, the left and right moves each change nothing exactly when no row has equal neighbours |
| Grids.ColumnMovesFixedIff | src/Game.java:209-319 | up and down change a board exactly when left and right change its transpose |
| Grids.NoMovesLeftIff | src/Game.java:335-344 | on a full board, isGameOver's documented condition holds exactly when none of the four moves would change a cell |
| Engine.CloseGapLeft | src/Game.java:126-130 | the scooch loop removes temp[from], shifts the rest one place toward the front, and puts a 0 last |
| Engine.CloseGapRight | src/Game.java:178-182 | the mirrored scooch removes temp[gap], shifts the front part one place toward the back, and puts a 0 first |
| Engine.CompressLeft | src/Game.java:110-116 | the counting copy fills a fresh temp with the row's non-zero tiles, in order, followed by zeros |
| Engine.CompressRight | src/Game.java:162-168 | the counting copy from the back fills a fresh temp with zeros followed by the row's non-zero tiles, in order |
| Engine.MergeAtLeft | src/Game.java:121-131 | one doubling step (or a 0 == 0 "merge") settles one more cell of temp and earns exactly that step's share of the row's merge points |
| Engine.MergeLeftStep | src/Game.java:119-132 | one pass of the merge loop keeps temp on its way to the left-slide result, with the points earned so far |
| Engine.MergeLeftInPlace | src/Game.java:119-132 | the merge loop, run on the compressed temp, leaves the left-slide result in temp and returns exactly the points of its merges |
| Engine.MergeAtRight | src/Game.java:173-183 | the mirrored doubling step |
| Engine.MergeRightStep | src/Game.java:171-184 | one pass of moveRight's merge loop |
| Engine.MergeRightInPlace | src/Game.java:171-184 | moveRight's merge loop leaves the right-slide result in temp and returns exactly its merge points |
| Engine.PackMergeLeft | src/Game.java:110-132 | compress plus merge of one row computes exactly SlideLeft of that row |
| Engine.PackMergeRight | src/Game.java:162-184 | compress plus merge of one row computes exactly SlideRight of that row |
| Engine.SlideRightSample | src/Game.java:165-184 | the row [2,2,0,4] moved right becomes [0,0,4,4] and earns 4 |
| Engine.MoveRightMissesChange | src/Game.java:188-194 | on the board whose first row is [2,2,0,4] and other rows are empty, moving right changes the board and earns 4 but leaves the last column as it was, so moveRight as written reports no change |
| Engine.TransposeDiffers | src/Game.java:241-247 | two boards differ exactly when their columns, taken as lines, differ |
| Engine.Game.constructor | src/Game.java:22-25 | a new game has a fresh board, score 0, both flags false, and the board resetGame deals: 14 empty cells, every cell 0, 2 or 4 |
| Engine.Game.ResetGame | src/Game.java:30-39 | a fresh board, score 0, both flags false, the cleared board with two spawns on it, exactly 14 empty cells, and every cell 0, 2 or 4 |
| Engine.Game.DealTwo | src/Game.java:37-38 | the two addRandomTile calls on the cleared board give the new-game board with 14 empty cells and only 0, 2 or 4 |
| Engine.Game.AddRandomTile | src/Game.java:50-69 | the board becomes Spawned of the old board: unchanged when full, otherwise the chosen empty cell holds the second roll's tile |
| Engine.Game.GetEmptyCells | src/Game.java:78-87 | the nested loop returns exactly the empty-cell list of the current board |
| Engine.Game.ScanRow | src/Game.java:82-84 | the inner loop appends exactly the empty cells of one row, left to right |
| Engine.Game.ReplaceRow | src/Game.java:139 | row `row` takes temp's values; every other cell is unchanged |
| Engine.Game.ReplaceRowOnDifference | src/Game.java:136-141 | the change flag is set exactly when temp differs from the row, and the row then holds temp |
| Engine.Game.ReplaceRowEachStep | src/Game.java:188-194 | moveRight's compare loop: the flag is set exactly when temp differs from the row in the last column, and the row holds temp afterwards |
| Engine.Game.ColumnDiffers | src/Game.java:242-247 | the flag is set exactly when temp differs from the column |
| Engine.Game.ReplaceColumn | src/Game.java:250-252 | column `col` takes temp's values; every other cell is unchanged |
| Engine.Game.MoveRowLeft | src/Game.java:108-141 | one row of moveLeft: the row becomes its left slide, the score rises by that slide's points, and the flag says whether the row changed |
| Engine.Game.NextRowLeft | src/Game.java:108-141 | one pass of moveLeft's row loop, stated over the board before the move and the board after it |
| Engine.Game.SlideRowsLeft | src/Game.java:108-142 | moveLeft's row loop leaves the left-moved board, adds all rows' merge points to the score, and reports whether any cell changed |
| Engine.Game.MoveLeft | src/Game.java:104-145 | moveLeft returns whether the board changed; the score rises by the merge points; the board is the left-moved board, with one spawn exactly when it changed; an unchanged board leaves board and score untouched; legal tiles stay legal and the score never falls |
| Engine.Game.MoveRowRight | src/Game.java:159-194 | one row of moveRight as written: the row becomes its right slide, the score rises by its points, but the flag only compares the last column |
| Engine.Game.NextRowRight | src/Game.java:159-194 | one pass of moveRight's row loop as written |
| Engine.Game.SlideRowsRight | src/Game.java:159-195 | moveRight's row loop as written leaves the right-moved board and its points, and reports a change exactly when the last column changed |
| Engine.Game.MoveRight | src/Game.java:155-199 | moveRight as written: the right-moved board and its points, a spawn exactly when the last column changed, a reported change only when the board changed, an unchanged board left with its score untouched and false returned, and legal tiles with a non-decreasing score |
| Engine.Game.MoveRowRightIntended | src/Game.java:159-184 | one row of moveRight with moveLeft's change test (src/Game.java:136-141) |
| Engine.Game.NextRowRightIntended | src/Game.java:159-184 | one pass of the intended moveRight's row loop |
| Engine.Game.SlideRowsRightIntended | src/Game.java:159-184 | the intended row loop reports a change exactly when some cell changed |
| Engine.Game.MoveRightIntended | src/Game.java:155-199 | moveRight as intended: like moveLeft, a change is reported and a tile spawned exactly when the board changed, and an unchanged board keeps board and score |
| Engine.Game.MoveColumnUp | src/Game.java:213-253 | one column of moveUp: the column becomes its left slide (toward row 0), the score rises by its points, and the flag accumulates whether any column so far changed |
| Engine.Game.NextColumnUp | src/Game.java:213-255 | one pass of moveUp's column loop, stated over the board before and after the move |
| Engine.Game.SlideColumnsUp | src/Game.java:213-255 | moveUp's column loop leaves the up-moved board, adds every column's merge points, and reports whether any cell changed |
| Engine.Game.MoveUp | src/Game.java:209-259 | moveUp: the up-moved board and points, one spawn exactly when the board changed, board and score untouched otherwise, legal tiles and a non-decreasing score |
| Engine.Game.MoveColumnDown | src/Game.java:273-313 | one column of moveDown: the column becomes its right slide (toward row 3) |
| Engine.Game.NextColumnDown | src/Game.java:273-315 | one pass of moveDown's column loop |
| Engine.Game.SlideColumnsDown | src/Game.java:273-315 | moveDown's column loop leaves the down-moved board and its points and reports whether any cell changed |
| Engine.Game.MoveDown | src/Game.java:268-319 | moveDown: the down-moved board and points, one spawn exactly when the board changed, board and score untouched otherwise, legal tiles and a non-decreasing score |
| Engine.Game.GetBoard | src/Game.java:356-364 | a fresh 4×4 array equal cell by cell to the board |
| Engine.Game.GetScore | src/Game.java:369-371 | the current score |
| Engine.Game.GetBoardSize | src/Game.java:376-378 | BOARD_SIZE, 4 |
| Engine.Game.HasWon | src/Game.java:329-333 | the stub returns false on every board and changes nothing |
| Engine.Game.IsGameOver | src/Game.java:345-349 | the stub returns false on every board and changes nothing |

## Left out

- `printBoard` (src/Game.java:383-393) is console output only.
- The probabilities (90% for a 2, uniform choice of cell) are not modelled. The random numbers are parameters of each spawn (`Draw`), constrained to their ranges.
- The product `Math.random() * size` is modelled as an exact real product, not a double-precision one. The double product can round up to the next integer (for some sizes between 3 and 15 and fractions just below a multiple of 1/size), so a given fraction may pick the neighbouring cell in Java. The Java index is still below the size, so the cells the model can choose are the same cells.
- Quiz.java is not part of this model. It is unrelated to the game and does not compile.
- Java `int` overflow is not modelled; reachable tile values and scores are far below 2^31.
- `board[row] = temp` in moveLeft and moveRight replaces a row object. The model copies the cells instead. The board's values are the same, but row aliasing between `temp` and the board is not represented.
- The Java `Random` object created in the constructor is not modelled, because the random values are parameters.
- Engine.Game.HasWon and Engine.Game.IsGameOver do not update the `hasWon`/`gameOver` fields or check the documented conditions, because the source stubs do not either. Those conditions are stated only as ghost predicates.
- Engine.Game.MoveRight: on a board that the move changes but whose last column stays the same, it reports false and spawns nothing, as the code does (see Findings). It does not promise moveLeft's rule that a change is always reported; `Engine.Game.MoveRightIntended` carries that guarantee.

## Findings

| source | as written | input that shows it | evidently intended | confidence | as-written member | corrected member |
|---|---|---|---|---|---|---|
| src/Game.java:188-194 | `board[row] = temp` runs inside the compare loop, after the comparison of column 3, so later comparisons see temp against itself and only the last column is ever compared | a board whose first row is [2,2,0,4] and whose other rows are empty: moving right gives [0,0,4,4] and adds 4 points, but returns false and spawns no tile | compare every column first and replace the row on a difference, as moveLeft does (src/Game.java:136-141), so a changed board reports true and spawns | high (proved; not executed) | Engine.Game.MoveRight, Engine.MoveRightMissesChange | Engine.Game.MoveRightIntended |
