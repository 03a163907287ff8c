# 2048 board engine in Dafny

This project models the game engine of a console 2048 game: the square board
of `Board.java` with its tile counter and its one-way "2048 reached" flag, the
four directional moves, the game-over test, board seeding and tile spawning,
and the command parser and dispatch of the `Movement` enum in `Main.java`.

The model has four modules:

- `Lines` (`lines.dfy`) is the pure specification of one move on one line. A
  line is read from the end the tiles move towards. `NonZero` drops the gaps,
  `Merge` pairs equal neighbours greedily from the near end, and
  `Collapse(s) = Merge(NonZero(s))` padded with zeros is the line after the
  move. The in-place scan of the Java code, with its `base`, `previous` and
  `square` variables, is replayed step by step by `Step`/`Scan`.
  `ScanComplete` proves that the scan ends in `Collapse`. Around it are the
  properties of a collapsed line: compaction, sum, tile values, tile count,
  at most one merge per tile, and when a line is left unchanged.
- `Grids` (`grids.dfy`) holds the board as rows of cells and the four
  directions. `Line(g, d, line)` is a row (Left, Right) or column (Up, Down)
  in scan order. `Apply(d, g)` is the whole move: every line collapsed. The
  module also proves the per-line facts at board level and the game-over
  facts.
- `Boards` (`board.dfy`) is the class `Board`. Its fields are `width`,
  `height`, an `array2<int>`, `tiles` and `reached2048`. A ghost field
  `cells` mirrors the array (`Valid`). Every mutating method states its new
  state in terms of `cells`. The four moves share one loop nest, `Slide(d)`.
  Its outer loop runs over lines (`SlideLine`). Its inner loop scans one line
  (`ScanLine`, one iteration is `ScanCell`), writing the array in place
  exactly as the Java loops do.
- `Movements` (`movement.dfy`) holds `GetDirection` and the dispatch `Move`.

## Model

| member | source | states |
|---|---|---|
| Lines.ScanComplete | Board.java:248-278 | after the whole line is scanned, the scan state holds the collapse of the line, `moved` is set exactly when the line changed, and the merged set holds exactly the values that merged |
| Lines.ScanCorrect | Board.java:252-278 | after k iterations, the scan variables agree with the merge of the tiles read so far: `base` is its length and `previous` its unmerged last tile, and the cells read so far hold that merge padded with zeros |
| Lines.Step | Board.java:253-277 | one iteration of the inner loop keeps the length of the line and advances `base` by at most one |
| Lines.Scan | Board.java:252-278 | after k iterations `base` has not passed the read position, and a non-zero `previous` is the tile in the cell just before `base` |
| Lines.StepCollide | Board.java:258-267 | when the read tile equals `previous`, the collide branch preserves the loop invariant `Agrees`: the cells, `base`, `previous`, `moved` and the merged values still match the merge of the tiles read so far |
| Lines.StepSlide | Board.java:269-277 | when the read tile differs from `previous`, the slide branch preserves the loop invariant `Agrees` |
| Lines.StepEmpty | Board.java:253-255 | skipping an empty cell preserves the loop invariant `Agrees` |
| Lines.CollapseCompact | Board.java:242-281 | after a move, every line has its tiles in one block at the near end and zeros after them |
| Lines.CollapseSum | Board.java:258-274 | a move keeps the sum of the tile values of a line |
| Lines.CollapseTiles | Board.java:259 | a line whose cells are empty or powers of two of at least 2 stays one, because a merge writes `previous * 2` |
| Lines.MergePairedFrom | Board.java:258-267 | every result tile is either one input tile or the sum of two equal adjacent input tiles, taken in order, so no tile merges twice |
| Lines.MergeLength | Board.java:258-278 | the number of result tiles plus the number of merges equals the number of input tiles |
| Lines.CollapseCount | Board.java:265 | the number of non-empty cells of a line drops by exactly the number of merges |
| Lines.CollapseUnchanged | Board.java:147-151 | a line is left unchanged exactly when it has no gap before a tile and no two equal adjacent tiles |
| Lines.MergesValueResult | Board.java:259 | when two v-tiles merge, a 2v-tile is in the result |
| Lines.SlideAndMerge | Board.java:242-281 | moving `[2,2,4,0]` left gives `[4,4,0,0]` |
| Lines.MergeOnce | Board.java:258-267 | moving `[2,2,2,2]` left gives `[4,4,0,0]`, not `[8,0,0,0]` |
| Grids.ApplyLine | Board.java:125-156 | each line of the moved board is the collapse of the same line before the move, and is computed from that line alone |
| Grids.MovesByLine | Board.java:119-281 | moveLeft collapses each row, moveRight each row read from the right, moveUp each column, and moveDown each column read from the bottom |
| Grids.MoveCompacts | Board.java:119-281 | after a move, every line in its direction is compacted towards the near end |
| Grids.MoveKeepsLineSum | Board.java:125-156 | a move keeps the sum of every row (left and right) or column (up and down) |
| Grids.MoveKeepsTiles | Board.java:136 | a board whose cells are empty or powers of two of at least 2 stays one after a move |
| Grids.ApplyChanges | Board.java:120-157 | a move changes the board exactly when it changes some line |
| Grids.MergedTileAppears | Board.java:141 | when a move merges two v-tiles, the moved board holds a 2v-tile |
| Grids.CountTilesFull | Board.java:102 | rows of n cells with no empty cell hold n tiles each |
| Grids.FullCount | Board.java:102 | the tile count equals the number of cells exactly when no cell is empty |
| Grids.Stuck | Board.java:101-113 | on a full board without equal neighbours, no move changes anything |
| Grids.GameOverStuck | Board.java:101-113 | when the tile count fills the board and no neighbours are equal, which is what isGameOver reports, every move leaves the board unchanged |
| Grids.StuckExample | Board.java:101-113 | the board `[[2,4],[4,2]]` is unchanged by every move |
| Grids.EmptyStuck | Board.java:119-281 | on a board without tiles no move changes anything |
| Grids.NoMoveStuck | GameBoard.java:50-53 | a board that no move changes is empty, or full without equal neighbours |
| Grids.SomeMoveSucceeds | GameBoard.java:50-53 | the converse of `Stuck`: on a board with a tile that is not full without equal neighbours, some move changes the board |
| Grids.EmptyBoardNotOver | Board.java:101-113 | on an empty board of size at least 2 the tile count is not the number of cells, so isGameOver answers false, yet no move changes the board |
| Grids.GameOverAsWritten | Board.java:101-113 | on every board with at least one tile, the isGameOver condition (the tile count fills the board and no neighbours are equal) holds exactly when no move changes the board |
| Grids.OverExactly | GameBoard.java:50-53 | `IsOver` (no tile at all, or full without equal neighbours) holds exactly when no move changes the board |
| Grids.PairMovesUp | Board.java:119-158 | moving up a 2 by 2 board with two equal v-tiles in its first column and an empty second column gives `[[2v,0],[0,0]]` |
| Grids.ReachTarget | Board.java:135-142 | moving `[[1024,0],[1024,0]]` up gives `[[2048,0],[0,0]]` and merges a pair of 1024s, which is what raises the flag |
| Grids.SlideRight | Board.java:201-240 | moving the row `[2,0,0,2]` right gives `[0,0,0,4]` |
| Grids.CountUpdate | Board.java:69-70 | writing one cell changes the tile count by one for an empty cell filled and minus one for a tile cleared |
| Boards.Board.constructor | Board.java:13-18 | a new board is size by size, all zero, with no tiles, a correct tile count and the flag clear |
| Boards.Board.Create | Board.java:28-34 | construction fails with the size error exactly when the size is at most 1; otherwise the board is empty and its tile count is right |
| Boards.Board.GetSize | Board.java:24-26 | the size is the number of rows and is at least 2 |
| Boards.Board.Reached2048 | Board.java:115-117 | the query returns the flag |
| Boards.Board.SetBoard | Board.java:40-55 | an array without rows, a non-square array or one of size at most 1 is refused and nothing changes; otherwise the array is adopted, `tiles` counts its non-empty cells, and the flag is set if some cell holds 2048 or more and is never cleared |
| Boards.Board.Recount | Board.java:47-54 | the counting loops set `tiles` to the number of non-empty cells and raise the flag exactly when some cell holds at least 2048 |
| Boards.Board.FirstFreeDraw | Board.java:65-67 | the rejection loop stops at the first drawn index whose cell is empty |
| Boards.Board.SpawnRandom | Board.java:57-71 | a 2 or a 4 is written into the first drawn empty cell, nothing else changes, and `tiles` grows by one, so a correct tile count stays correct |
| Boards.Board.IsGameOver | Board.java:101-113 | the game is over exactly when `tiles` is the number of cells and no two horizontally or vertically adjacent cells are equal |
| Boards.Board.SetCell | Board.java:69 | one cell is written; the tile count of the board changes accordingly |
| Boards.Board.Collide | Board.java:258-265 | the collide branch doubles the tile at `base - 1`, clears the read cell, drops `tiles` by one together with the number of non-empty cells, and raises the flag when two 1024s merge |
| Boards.Board.MoveTile | Board.java:269-273 | the slide branch moves the read tile to the free cell `base`, keeping the tile count |
| Boards.Board.ScanCell | Board.java:253-277 | one iteration of the inner loop does to the line and to `base`, `previous`, `moved` and the flag exactly what the scan step of the line specification does |
| Boards.Board.ScanNext | Board.java:253-277 | one iteration of the inner loop carries the loop invariant `Scanning` from k to k + 1: the line holds the scan state after k + 1 steps and nothing off the line changes |
| Boards.Board.ScanLine | Board.java:248-278 | scanning one line turns it into its collapse, leaves every other line alone, reports a change exactly when the line changed, raises the flag exactly when two 1024s merged, and keeps `tiles` in step with the number of tiles |
| Boards.Board.SlideLine | Board.java:248-279 | moving one more line carries the outer loop invariant `Sliding`: the board is the move applied to one more line, `moved` says whether one of those lines changed, and the flag and tile count stay in step |
| Boards.Board.Slide | Board.java:242-281 | a move turns the board into `Apply(d, board)`, returns true exactly when the board changed, keeps `tiles` in step with the number of tiles, and sets the flag exactly when it was set or two 1024s merged |
| Boards.Board.MoveUp | Board.java:119-158 | moveUp is the Up move, with the tile count preserved |
| Boards.Board.MoveDown | Board.java:160-199 | moveDown is the Down move, with the tile count preserved |
| Boards.Board.MoveRight | Board.java:201-240 | moveRight is the Right move, with the tile count preserved |
| Boards.Board.MoveLeft | Board.java:242-281 | moveLeft is the Left move, with the tile count preserved |
| Movements.GetDirection | Main.java:88-107 | "exit" (case-sensitive) is Exit; an input of any other length than 1 is no command; a single character names a direction exactly when its lower-case form is that direction's key |
| Movements.KeysRoundTrip | Main.java:95-106 | each direction is read back from its key in lower or upper case, and Exit from "exit" |
| Movements.CommandExamples | Main.java:89-93 | "EXIT", "Exit", "ww", "" and "x" are no command, and "W" is Up |
| Movements.DirectionOf | Main.java:74-82 | each movement maps to the board move of the same name |
| Movements.Move | Main.java:70-85 | no board, or Exit, does nothing and returns false; a direction performs the matching board move and returns its result |

## Left out

- Drawing (`drawRow`, `drawSeparator`, `drawBoard`) and `updateTileSize`: they only print or size the console output, and `updateTileSize` uses floating point.
- `Main.main`: the input loop, argument parsing and messages are console I/O.
- `GameBoard.java` is an interface without behaviour. Only its documented meaning of `isGameOver` is used, for the finding below. Its comment says sizes of at most 0 are refused; the code refuses sizes of at most 1, and the model follows the code.
- Boards.Board.SpawnRandom: the random value and the random indices are parameters (`coin` and `draws`). The requirement that some draw hits an empty cell stands for the Java loop, which never ends on a full board.
- `setSize` on an existing board changes the size without reallocating the array. The model keeps the size equal to the array's dimensions at all times. `setSize` is modelled only through `Create` and `SetBoard`.
- Boards.Board.SetBoard: on an error the Java code may already have adopted the new array before `setSize` throws. The model leaves the board unchanged on every error.
- Boards.Board.SetBoard: Java only checks the length of the first row. A Dafny `array2` is always rectangular, so ragged rows are not modelled.
- Java `int` overflow of `previous * 2` and of `tiles` is not modelled; integers are unbounded.
- Movements.GetDirection: `toLowerCase` is modelled on the Latin capitals A to Z only. No other character lower-cases to one of the four keys, so the result is the same. Java counts UTF-16 units where Dafny counts characters, but an input that differs this way is no command either way.
- Movements.Move is a method rather than a function, because the board move it dispatches changes the board.

## Findings

| source | as written | input that shows it | evidently intended | confidence | as-written member | corrected member |
|---|---|---|---|---|---|---|
| Board.java:101-113 | `isGameOver` answers true only when the tile count fills the board and no neighbours are equal | an empty board, such as `[[0,0],[0,0]]`: the answer is false, yet no move changes it. On every board with a tile the answer agrees with the comment, so the empty board is the only input where they differ (GameBoard.java:50-53 says the answer is true when no move succeeds). Main.java:23-24 spawns two tiles before the first test, so play never reaches this board | the game is over exactly when no move changes the board: no tile at all, or full without equal neighbours | not executed | Grids.EmptyBoardNotOver, Grids.GameOverAsWritten | Grids.OverExactly |
