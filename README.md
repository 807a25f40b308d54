# 2048 rules engine, modelled in Dafny

This project models the rules engine of a console 2048 game. The repository
implements the engine twice:

- The game library's `GameGrid` (`src/GameLibrary2048/GameGrid.cs`) walks
  each line of a move. At each cell it pulls values toward the cell with
  the recursive `MoveFill`, then merges the cell with its neighbour in
  `MoveMerge`.
- The console's `GameGrid` (`src/GameConsole2048/GameGrid.cs`) does the same
  work in `Action`. It uses nested loops over a copied slice of cells. A
  write cursor `z` packs the rest of the line, then the merge code runs.

Both grids extend the `GameModel` record (`src/GameLibrary2048/GameModel.cs`):
the 16 values, the goal, the move count, the score, the win flag and the
play time. The console adds `GameStat`
(`src/GameConsole2048/GameStat.cs`), which tracks the best score.

Each move is modelled in the imperative form its source has. Each is proved
against one reference rule, `LineRules.SlideMergeLine`: the values other
than 0 are packed to the front in their order, equal neighbours are merged
once from front to back, and the line is padded with 0.

- `LibraryGrid.GameGrid.Move` and `ConsoleGrid.GameGrid.Action` both leave
  the cells equal to `Board.MoveBoard`, the reference rule applied to every
  line of the move.
- Both report the same score, the same win flag and the same "moved"
  result.

So the two implementations are proved to be equivalent.

How the model is laid out:

- Cells are one `array<int>` of 16 values in row-major order.
- The N/E/W/S links between `GameCell` objects become index arithmetic
  (module `GameCell`), and the wiring properties are proved about it.
- The game model the C# grids inherit from is a `GameModels.GameModel`
  object that each grid holds as `model`.
- The source's nested loops are split into methods, one level each:
  - library: `MoveCell` is one cell of a line, `MoveSlice` one line, and
    `MoveLines` all four lines;
  - console: `CompactCell` is one read position of the `k` loop,
    `CompactSlice` the whole `k` loop, `MergeSlice` the merge block,
    `ActionStep` one `j` iteration, `ActionSlice` the `j` loop and
    `ActionLines` the `i` loop.
- Exceptions become `Result` failures:
  - `GameMove.None` gives `NotImplemented` in the library and
    `InvalidArgument` in the console, before anything changes;
  - a move on a grid whose cells were discarded by `End` gives
    `OutOfRange`, because the source reads a row or a column of an empty
    span;
  - loading fewer than 16 values gives `OutOfRange` after the values that
    are there have been copied.
- The random choices of `Fill` are left open: the contracts hold for every
  choice of empty cell and of value 2 or 4.
- The clock reading `DateTime.Now` is a parameter `now`, in ticks of
  100 ns. A `StartTime` of 0 stands for `default(DateTime)`.

## Model

| member | source | states |
|---|---|---|
| GameCell.At | src/GameLibrary2048/GameGrid.cs:32-35 | the cell at a row and a column has exactly that row and column |
| GameCell.N | src/GameLibrary2048/GameGrid.cs:43 | the north link is absent exactly on the top row; otherwise it is the cell directly above |
| GameCell.E | src/GameLibrary2048/GameGrid.cs:44 | the east link is absent exactly on the rightmost column; otherwise it is the next cell in the row |
| GameCell.W | src/GameLibrary2048/GameGrid.cs:45 | the west link is absent exactly on the leftmost column; otherwise it is the previous cell in the row |
| GameCell.S | src/GameLibrary2048/GameGrid.cs:46 | the south link is absent exactly on the bottom row; otherwise it is the cell directly below |
| GameCell.LinksSymmetric | src/GameLibrary2048/GameGrid.cs:43-46 | A.E is B exactly when B.W is A, and A.S is B exactly when B.N is A |
| GameCell.LinksAreAdjacency | src/GameLibrary2048/GameGrid.cs:43-46 | the four links of a cell reach exactly the cells that share an edge with it |
| GameModels.GameModel.constructor | src/GameLibrary2048/GameModel.cs:11-41 | a new model has 16 values, all 0, and goal 2048, 0 moves, score 0, not won, game time 0 |
| GameModels.GameModel.EmptyValues | src/GameLibrary2048/GameModel.cs:46 | every value becomes 0, in the same array of the same length; nothing else changes |
| Clock.TruncateToSecond | src/GameLibrary2048/GameGrid.cs:344 | a timestamp loses only its part below one second: the result is a whole second at most the timestamp and within one second of it |
| Clock.StoppedGameTime | src/GameLibrary2048/GameGrid.cs:342-348 | without a start time the game time stays; otherwise a whole number of seconds is added, within one second of the elapsed ticks |
| LineRules.SweepIsSlideMerge | src/GameLibrary2048/GameGrid.cs:168-175 | the per-position algorithm of both grids gives the line, the score and the win flag of the reference rule |
| LineRules.SweepMovedIffChanged | src/GameLibrary2048/GameGrid.cs:172-173 | the "moved" flag the algorithm raises is true exactly when the reference rule changes the line |
| LineRules.SlideMergeNonZeros | src/GameLibrary2048/GameGrid.cs:190-253 | the result line is packed, and its values other than 0 are the merged values other than 0 of the input, in order |
| LineRules.MergePairsShrinks | src/GameLibrary2048/GameGrid.cs:238-248 | merging shortens the list of values exactly when two neighbours are equal |
| LineRules.CompactIsPacked | src/GameLibrary2048/GameGrid.cs:190-217 | packing a line leaves no value behind a 0 and keeps the values other than 0 in order |
| LineRules.PackedIffCompactFixed | src/GameLibrary2048/GameGrid.cs:190-217 | a line is packed exactly when packing does not change it |
| LineRules.UnchangedLineScoresNothing | src/GameLibrary2048/GameGrid.cs:176-181 | a line the rule leaves as it is scores nothing and reaches no goal |
| LineRules.BlockedLineStays | src/GameLibrary2048/GameGrid.cs:310-337 | a line with no 0 and no two equal neighbours is left as it is, with no score and no win |
| LineSteps.CompactFromPull | src/GameLibrary2048/GameGrid.cs:198-206 | when a cell is 0 and its neighbour is not, moving the neighbour's value in and packing what is behind packs the line from that cell |
| LineSteps.CompactFromKeep | src/GameLibrary2048/GameGrid.cs:209-213 | when a cell holds a value, packing from it is packing from the next cell |
| LineSteps.CompactFromZeroHead | src/GameLibrary2048/GameGrid.cs:198-201 | when a cell and everything packed behind it are 0, the line is already packed from that cell |
| LineSteps.SweepStepAt | src/GameLibrary2048/GameGrid.cs:170-173 | packing from position p and merging at p is one step of the algorithm: the rest of its result follows from position p + 1 |
| LineSteps.SweptOneMore | src/GameLibrary2048/GameGrid.cs:170-173 | one more position processed keeps the line, score, win flag and "moved" flag on track toward the algorithm's result |
| LineSteps.SweptAll | src/GameLibrary2048/GameGrid.cs:168-175 | when every position is processed, the line, score, win flag and "moved" flag are the algorithm's result |
| LineSteps.CompactingStart | src/GameConsole2048/GameGrid.cs:190 | before the `k` loop nothing is packed yet and nothing has moved |
| LineSteps.CompactingStep | src/GameConsole2048/GameGrid.cs:191-202 | each iteration of the `k` loop keeps the write cursor behind the packed values and flags a move exactly when a value lands in a lower position |
| LineSteps.CompactingDone | src/GameConsole2048/GameGrid.cs:189-202 | after the `k` loop the line is packed from `j` on, and `moved` is set exactly when that changed the line |
| Board.SliceCell | src/GameLibrary2048/GameGrid.cs:263-271 | line i of a move is column i top-down for Up, bottom-up for Down, row i left to right for Left, and right to left for Right |
| Board.Slice | src/GameConsole2048/GameGrid.cs:178-186 | the slice of line i holds those four cells, in that order |
| Board.PosOf | src/GameLibrary2048/GameGrid.cs:263-271 | every cell lies on exactly one line of a move, at one position |
| Board.NeighborForMove | src/GameLibrary2048/GameGrid.cs:280-288 | the neighbour for a move (S, W, E or N) is the next cell of the line; it is absent at the far end |
| Board.MoveBoardLines | src/GameLibrary2048/GameGrid.cs:168-175 | each line of the moved grid is the reference rule applied to that line |
| Board.MoveBoardChanged | src/GameLibrary2048/GameGrid.cs:168-181 | a move changes the grid exactly when it changes one of its four lines |
| Board.UnchangedMoveScoresNothing | src/GameLibrary2048/GameGrid.cs:176-181 | a move that changes no line scores nothing and reaches no goal |
| Board.GameOverBlocksMoves | src/GameLibrary2048/GameGrid.cs:310-337 | on a grid that is over, a move in any of the four directions changes nothing |
| Board.FillShrinksZeroSet | src/GameLibrary2048/GameGrid.cs:105-125 | after a fill the empty cells are the empty cells before, minus the ones filled |
| Board.PackFromPullCase | src/GameLibrary2048/GameGrid.cs:198-206 | on the grid, the pull branch of MoveFill packs the line from the cell, and it changes the grid |
| Board.WithLineMerge | src/GameLibrary2048/GameGrid.cs:240-247 | doubling a cell of a line on the grid and emptying the next one is the same merge done at that position of the line |
| Board.MergeOnGrid | src/GameLibrary2048/GameGrid.cs:229-253 | on the grid, a cell merges with the next one of its line exactly when the line merges at that position, and the grid after the merge is the line after it |
| Board.CellStepOnGrid | src/GameLibrary2048/GameGrid.cs:170-173 | packing from a cell and then merging it, on the grid, is one step of the line algorithm, with that merge's score, win and change |
| Board.SweptLineReplaces | src/GameLibrary2048/GameGrid.cs:168-175 | processing line n of a partly moved grid gives the grid with one more line moved, and that line's reference score and win flag |
| CellArray.ListZeroes | src/GameLibrary2048/GameGrid.cs:107-112 | lists exactly the empty cells, once each, in row-major order |
| CellArray.FillCells | src/GameLibrary2048/GameGrid.cs:113-123 | exactly min(count, number of empty cells) distinct empty cells become 2 or 4, and every other cell stays |
| CellArray.ScanGameOver | src/GameLibrary2048/GameGrid.cs:310-334 | the scan reports game over exactly when no cell is 0 and no two neighbouring cells are equal |
| CellArray.AllStuckIsGameOver | src/GameLibrary2048/GameGrid.cs:313-333 | every cell being blocked through its N, E, W and S links means exactly that the grid is over |
| CellArray.CopyValues | src/GameLibrary2048/GameGrid.cs:141-148 | the model's values become the cell values, in row-major order |
| LibraryGrid.MoveFill | src/GameLibrary2048/GameGrid.cs:190-217 | the line is packed from the cell on, and the method reports true exactly when a cell changed; without a cell nothing changes |
| LibraryGrid.GameGrid.constructor | src/GameLibrary2048/GameGrid.cs:24 | a new grid has 16 cells all 0, synced values, goal 2048, 0 moves, score 0, not won, game time 0 and no start time |
| LibraryGrid.GameGrid.Initialize | src/GameLibrary2048/GameGrid.cs:29-57 | the cells and the values are all 0, the grid has cells again, and the counters and the clock are reset |
| LibraryGrid.GameGrid.Start | src/GameLibrary2048/GameGrid.cs:62-66 | two empty cells get 2 or 4, with the counters kept; a grid without cells is initialized first |
| LibraryGrid.GameGrid.Fill | src/GameLibrary2048/GameGrid.cs:105-125 | min(count, number of empty cells) empty cells get 2 or 4 and the values are synced; a grid without cells changes nothing |
| LibraryGrid.GameGrid.SyncValues | src/GameLibrary2048/GameGrid.cs:141-148 | the model's values repeat the cells; a grid without cells copies nothing |
| LibraryGrid.GameGrid.GetGameCell | src/GameLibrary2048/GameGrid.cs:156 | the cell at row and column on the grid; absent once the grid has no cells; an error off the grid |
| LibraryGrid.GameGrid.Load | src/GameLibrary2048/GameGrid.cs:77-93 | cell k and value k become values[k], and the counters are set as given; with fewer than 16 values the copy stops with an error and the counters stay; a grid without cells is initialized first |
| LibraryGrid.GameGrid.LoadModel | src/GameLibrary2048/GameGrid.cs:99 | loads the values and the counters of a game model, as Load does |
| LibraryGrid.GameGrid.Continue | src/GameLibrary2048/GameGrid.cs:293-300 | a won game doubles its goal and is no longer won; otherwise nothing changes |
| LibraryGrid.GameGrid.CalculateGameTime | src/GameLibrary2048/GameGrid.cs:342-348 | the open play period, in whole seconds, joins the game time and the start time is cleared |
| LibraryGrid.GameGrid.GameOver | src/GameLibrary2048/GameGrid.cs:310-337 | true exactly when no cell is 0 and no neighbours are equal, or when the grid has no cells; then the clock stops |
| LibraryGrid.GameGrid.End | src/GameLibrary2048/GameGrid.cs:353-359 | the values become 0 and the grid no longer has cells |
| LibraryGrid.GameGrid.MoveMerge | src/GameLibrary2048/GameGrid.cs:229-253 | equal non-zero target and source: the target doubles, the score gains the new value, reaching the goal exactly wins and stops the clock, and the source becomes 0; otherwise nothing changes |
| LibraryGrid.GameGrid.MoveCell | src/GameLibrary2048/GameGrid.cs:170-173 | MoveFill then MoveMerge at position p pack the line from p and merge at p, with that merge's score and win |
| LibraryGrid.GameGrid.MoveSlice | src/GameLibrary2048/GameGrid.cs:170-174 | after one line the line is the algorithm's result, with its score, win flag and "moved" flag; the other lines stay |
| LibraryGrid.GameGrid.MoveLines | src/GameLibrary2048/GameGrid.cs:168-175 | after the four lines the grid is the reference move, "moved" is true exactly when the grid changed, and score and win are the reference's |
| LibraryGrid.GameGrid.Move | src/GameLibrary2048/GameGrid.cs:164-182 | true exactly when the reference move changes the grid: then moves + 1, one fill and synced values; otherwise nothing changes; None or a grid without cells fails |
| ConsoleGrid.CompactCell | src/GameConsole2048/GameGrid.cs:193-201 | one read position of the `k` loop keeps the line on track toward being packed from `j` |
| ConsoleGrid.CompactSlice | src/GameConsole2048/GameGrid.cs:189-202 | the `k` loop packs the line from `j` on, and "moved" is true exactly when that changed a cell |
| ConsoleGrid.GameGrid.constructor | src/GameConsole2048/GameGrid.cs:37 | a new grid has 16 cells all 0, synced values and the counters and clock of a new game |
| ConsoleGrid.GameGrid.Initialize | src/GameConsole2048/GameGrid.cs:42-70 | the cells and the values are all 0, the grid has cells again, and the counters and the clock are reset |
| ConsoleGrid.GameGrid.Start | src/GameConsole2048/GameGrid.cs:75-80 | two empty cells get 2 or 4 (a grid without cells is initialized first), and the result is true |
| ConsoleGrid.GameGrid.Fill | src/GameConsole2048/GameGrid.cs:119-139 | min(count, number of empty cells) empty cells get 2 or 4 and the values are synced; a grid without cells changes nothing |
| ConsoleGrid.GameGrid.SyncValues | src/GameConsole2048/GameGrid.cs:155-162 | the model's values repeat the cells; a grid without cells copies nothing |
| ConsoleGrid.GameGrid.CellAt | src/GameConsole2048/GameGrid.cs:27 | the cell at row and column on the grid; absent once the grid has no cells; an error off the grid |
| ConsoleGrid.GameGrid.Load | src/GameConsole2048/GameGrid.cs:91-107 | cell k and value k become values[k], and the counters are set as given; with fewer than 16 values the copy stops with an error and the counters stay |
| ConsoleGrid.GameGrid.LoadModel | src/GameConsole2048/GameGrid.cs:113 | loads the values and the counters of a game model, as Load does |
| ConsoleGrid.GameGrid.Continue | src/GameConsole2048/GameGrid.cs:239-247 | a won game doubles its goal and is no longer won; the result is always true |
| ConsoleGrid.GameGrid.CalculateGameTime | src/GameConsole2048/GameGrid.cs:289-295 | the open play period, in whole seconds, joins the game time and the start time is cleared |
| ConsoleGrid.GameGrid.GameOver | src/GameConsole2048/GameGrid.cs:257-284 | true exactly when no cell is 0 and no neighbours are equal, or when the grid has no cells; then the clock stops |
| ConsoleGrid.GameGrid.End | src/GameConsole2048/GameGrid.cs:300-306 | the values become 0 and the grid no longer has cells |
| ConsoleGrid.GameGrid.MergeSlice | src/GameConsole2048/GameGrid.cs:204-225 | below the last position, an equal non-zero pair merges once: the target doubles, the score gains it, reaching the goal exactly wins and stops the clock, and the source becomes 0 |
| ConsoleGrid.GameGrid.ActionStep | src/GameConsole2048/GameGrid.cs:189-225 | one `j` iteration packs the line from `j` and merges at `j`, with that merge's score and win |
| ConsoleGrid.GameGrid.ActionSlice | src/GameConsole2048/GameGrid.cs:187-226 | the `j` loop leaves the line as the algorithm makes it, with its score, win flag and "moved" flag; the other lines stay |
| ConsoleGrid.GameGrid.ActionLines | src/GameConsole2048/GameGrid.cs:175-227 | after the `i` loop the grid is the reference move, "moved" is true exactly when the grid changed, and score and win are the reference's |
| ConsoleGrid.GameGrid.Action | src/GameConsole2048/GameGrid.cs:171-234 | true exactly when the reference move changes the grid: then moves + 1, one fill and synced values; otherwise nothing changes; None or a grid without cells fails |
| LineFacts.SumNonZeros | src/GameLibrary2048/GameGrid.cs:203-204 | moving values along a line without merging keeps the line's total |
| LineFacts.SumMergePairs | src/GameLibrary2048/GameGrid.cs:240-247 | merging a pair into its sum keeps the total |
| LineFacts.SlideMergeKeepsSum | src/GameLibrary2048/GameGrid.cs:240-247 | a move keeps the total of every line |
| LineFacts.SlideMergeGainNonNegative | src/GameLibrary2048/GameGrid.cs:241 | on a line of values no lower than 0 the score gain is no lower than 0 |
| LineFacts.MergePairsWon | src/GameLibrary2048/GameGrid.cs:242-246 | the merge steps raise the win flag only with the goal among the merged values, and a goal that was not there before is there only after a winning merge |
| LineFacts.SlideMergeWon | src/GameLibrary2048/GameGrid.cs:242-246 | a line move wins exactly by producing the goal: a win leaves the goal on the line, and a goal other than 0 that newly appears comes from a winning merge |
| LineFacts.NoChainOfFour | src/GameConsole2048/GameGrid.cs:204-225 | [2, 2, 2, 2] gives [4, 4, 0, 0], two merges, not a chain to 8 |
| LineFacts.NoRemergeOfMerged | src/GameConsole2048/GameGrid.cs:204-225 | [2, 2, 4, 0] gives [4, 4, 0, 0]: a merged value does not merge again |
| LineFacts.WinningLine | test/TestGameLibrary2048/GameGridTests.cs:159-166 | [1024, 1024, 2, 2] gives [2048, 4, 0, 0], scores 2052 and wins at goal 2048 |
| LineFacts.WinningLineReversed | test/TestGameLibrary2048/GameGridTests.cs:148-156 | read from the right, [2, 2, 1024, 1024] gives [4, 2048, 0, 0], scores 2052 and wins |
| BoardFacts.MoveKeepsLineSums | src/GameLibrary2048/GameGrid.cs:240-247 | a move keeps the total of every line it runs along |
| BoardFacts.MoveGainNonNegative | src/GameLibrary2048/GameGrid.cs:241 | on a grid of values no lower than 0 a move never lowers the score |
| BoardFacts.MoveWinShowsGoal | src/GameLibrary2048/GameGrid.cs:242-246 | a move that wins leaves a cell holding the goal |
| BoardFacts.MoveGoalShowsWin | src/GameLibrary2048/GameGrid.cs:242-246 | a move that leaves the goal in a cell, when no cell held it before, wins |
| BoardFacts.WinningRowLeft | test/TestGameLibrary2048/GameGridTests.cs:159-166 | a first row [1024, 1024, 2, 2] becomes [2048, 4, 0, 0] going left, and that line wins |
| BoardFacts.WinningRowRight | test/TestGameLibrary2048/GameGridTests.cs:148-155 | the same first row becomes [0, 0, 2048, 4] going right, and that line wins |
| BoardFacts.FreshStartFillsTwo | src/GameLibrary2048/GameGrid.cs:62-66 | starting on an empty grid leaves exactly two cells holding 2 or 4 and fourteen cells empty |
| GameStats.Best | src/GameConsole2048/GameStat.cs:20 | the new best is the greater of the best and the score: no lower than either, and one of them |
| GameStats.BestKeeps | src/GameConsole2048/GameStat.cs:20 | a score no greater than the best leaves the best as it is |
| GameStats.BestIdempotent | src/GameConsole2048/GameStat.cs:18-22 | evaluating the same score twice gives what evaluating it once gives |
| GameStats.BestAfterBounds | src/GameConsole2048/GameStat.cs:18-22 | over any series of evaluations the best never decreases, ends no lower than every score, and is the starting best or one of the scores |
| GameStats.BestAfterAtMost | src/GameConsole2048/GameStat.cs:20 | a series of scores no greater than the best leaves the best as it is |
| GameStats.BestAfterRepeat | src/GameConsole2048/GameStat.cs:18-22 | evaluating a series of scores a second time changes nothing |
| GameStats.GameStat.constructor | src/GameConsole2048/GameStat.cs:11 | a new stat has best score 0 |
| GameStats.GameStat.EvaluateBestScore | src/GameConsole2048/GameStat.cs:18-22 | stores and returns the greater of the best score and the score |
| GameStats.GameStat.Clone | src/GameConsole2048/GameStat.cs:29 | a new stat with the same best score, equal to the original both ways |
| GameStats.EqualsObjectMeans | src/GameConsole2048/GameStat.cs:33-35 | null is never equal; an object is equal exactly when it is a stat with the same best score |
| GameStats.EqualsEquivalence | src/GameConsole2048/GameStat.cs:35 | stat equality is reflexive, symmetric and transitive |

## Left out

- The user interface, the file I/O with JSON, the driver loop and the key mapping (`GameUI.cs`, `GameIO.cs`, `Game.cs`, `GameUX.cs`, `Program.cs`) are not part of this model.
- The random number generator is not modelled. `Fill` holds for every choice of an empty cell and of the value 2 or 4; the 90/10 split between 2 and 4 is floating point and is not modelled.
- The clock is not read: `now` is a parameter in ticks. The grids never start the clock: they only reset `StartTime` to its default, and the console's user interface (`GameUI.cs:72`, `GameUI.cs:143`) sets it to `DateTime.Now`, which the model leaves to the caller through the public `StartTime` field. 0 stands for `default(DateTime)`.
- C# `int` is 32 bits, but the model's integers are unbounded, so an overflow of `Score`, of a cell value or of `Goal * 2` is not modelled.
- Cells are not heap objects: the `GameCell` graph, `Memory2D` and `Span2D` are replaced by index arithmetic on one array, so aliasing of cell references is not modelled.
- The `GameCell` setters are `internal`; access control is not modelled.
- `LibraryGrid.GameGrid.Valid` and `ConsoleGrid.GameGrid.Valid`: `GameModel.Values` has a public setter, but the model takes it to stay an array of 16 values distinct from the cells. A caller that set a shorter array would make `SyncValues` and `Load` throw an index error in the source; that is not modelled.
- `GameStat.GetHashCode` is left out: it is a library hash.
- `GameStats.EqualsObjectMeans`: an object that is not a `GameStat` makes the source's cast throw; the model only takes a stat or null.
- Values of `GameMove` outside the enum throw like `None`; the model has only `None` and the four directions.
- The console grid uses its own `GameModel` from a `GameLibrary` package that is not part of this model. It is taken to have the same fields and `EmptyValues` as `src/GameLibrary2048/GameModel.cs`.
- `LibraryGrid.GameGrid.Load`: requires that the array loaded from is not the grid's own cell array. The cell array is private in the source, so a caller cannot pass it.
- `LibraryGrid.GameGrid.Fill`: takes the count as a `nat`. The source loop does nothing for a count of 0 or less, so only a count of 0 behaves the same.
- `ConsoleGrid.GameGrid.Load`: requires that the array loaded from is not the grid's own cell array, as in the library.
- `ConsoleGrid.GameGrid.Fill`: takes the count as a `nat`, as in the library.
- `CellArray.ScanGameOver` reads a snapshot of the cells. The source's `check` closure also clears `isGameOver` before the loop breaks, and it returns the same result.
