# 6x6 Sudoku engine — a Dafny model

This project models the puzzle engine of a JavaFX 6x6 Sudoku game with 2x3
blocks, and proves properties of it. The engine has three parts:

- **The `Sudoku` object.** It holds a 6x6 integer board, where 0 means an
  empty cell. Its methods are:
  - the three placement checks (row, column, block) and their conjunction;
  - the block numbering `currentQuadrant`;
  - a randomised backtracking solver. It fills the first empty cell in
    row-major order, tries 1..6 in a shuffled order, recurses, and empties
    the cell again when the recursion fails.
- **The block-balanced generator of the game screen.** It copies a solved
  board. Then, for each of the six blocks, it shuffles the block's cells and
  empties the first four. Its start action builds a new puzzle, solves it
  and derives the playable board from it.
- **The legacy generator of the first game screen.** It copies the solved
  board and empties randomly drawn filled cells until 12 have been emptied.
  Its start action solves a puzzle only the first time and reuses it later.

The model follows the code's own form:

- `Sudoku` is a class whose board is an `array2<int>` updated in place.
- The checks are read-only loops with early return.
- The solver writes tentative values into the array and undoes them.
- Both generators allocate a fresh array and empty its cells in a loop.

Everything the engine promises is stated over board values (`Grids.Grid`, a
sequence of six rows of six integers). `Grids.Cells` reads an array as such
a value.

Randomness is modelled as an unconstrained choice, so every property holds
for every outcome:

- `Collections.shuffle` becomes an arbitrary permutation (`IsShuffleOf`:
  same multiset).
- `Random.nextInt` becomes an arbitrary in-range cell.

Main results:

- **The placement checks.** Each check answers exactly whether `value` is
  absent from its row, column or block. The block check starts from the
  corner that the block number encodes, and that corner is the corner of
  the cell's own block.
- **The solver, on every run.**
  - It changes no filled cell.
  - On success the board is full, and every cell it filled holds a value
    1..6 that no cell in the same row, column or block holds.
  - On failure the board is exactly as it was, and no solved board keeps
    the original givens. This is completeness: failure happens only when
    no solution exists.
  - Started from a consistent board, a successful run leaves every row,
    column and block holding 1..6 once each.
  - On the empty board it cannot fail.
  - It terminates: the number of empty cells is the measure.
- **The block-balanced generator.**
  - Its result is a fresh board. It is the source with exactly 24 cells
    emptied, four in each block. The source board is not modified.
  - From a full source, the result has exactly two givens in every block.
- **The legacy generator.**
  - Its result is a fresh board that the source extends: every filled cell
    of the result holds the source's value.
  - The result has exactly 12 more empty cells than the source.
  - Its start action keeps the same solved puzzle across starts.

The code has no hint engine, no answer validator and no saved initial
board. Their handlers are empty, so none is modelled. A failed solver run
resets every cell it tried, and the model proves the board is left exactly
as it was on entry.

## Model

| member | source | states |
|---|---|---|
| SudokuModel.Sudoku.constructor | src/main/java/org/example/fpoesudoku/models/Sudoku.java:19-29 | a new puzzle has a fresh 6x6 board with every cell empty |
| SudokuModel.Sudoku.CurrentQuadrant | src/main/java/org/example/fpoesudoku/models/Sudoku.java:159-168 | for an in-grid cell the block number is in 1..6, and decoding it as ((q-1)/2*2, (q-1)%2*3) gives the corner (row/2*2, col/3*3) of the cell's own block |
| SudokuModel.QuadrantIdentifiesBlock | src/main/java/org/example/fpoesudoku/models/Sudoku.java:159-168 | two in-grid cells get the same block number exactly when they lie in the same 2x3 block |
| SudokuModel.Sudoku.ValidateRow | src/main/java/org/example/fpoesudoku/models/Sudoku.java:98-106 | returns true exactly when `value` occurs in none of the six cells of the row; the board is not changed |
| SudokuModel.Sudoku.ValidateColumn | src/main/java/org/example/fpoesudoku/models/Sudoku.java:115-123 | returns true exactly when `value` occurs in none of the six cells of the column; the board is not changed |
| SudokuModel.Sudoku.ValidateQuadrant | src/main/java/org/example/fpoesudoku/models/Sudoku.java:133-150 | scanning from the corner decoded from the block number, returns true exactly when `value` occurs in none of the six cells of the cell's 2x3 block |
| SudokuModel.Sudoku.ValidMovement | src/main/java/org/example/fpoesudoku/models/Sudoku.java:84-89 | returns exactly the conjunction of the row, column and block checks |
| Grids.CanPlaceIffNoPeerHolds | src/main/java/org/example/fpoesudoku/models/Sudoku.java:84-89 | the three checks pass exactly when no other cell sharing the row, column or block holds `value` |
| SudokuModel.Sudoku.GetSudoku | src/main/java/org/example/fpoesudoku/models/Sudoku.java:175 | returns the board itself (an alias, not a copy) |
| SudokuModel.Sudoku.SetSudoku | src/main/java/org/example/fpoesudoku/models/Sudoku.java:182-184 | the given array becomes the board, without copying |
| SudokuModel.Sudoku.SolveSudoku | src/main/java/org/example/fpoesudoku/models/Sudoku.java:36-60 | filled cells are never changed; on true the board is full and every newly filled cell holds 1..6 unlike all its peers; on false the board equals the entry board and no solution keeping the entry givens exists; terminates by the number of empty cells |
| SudokuModel.Sudoku.TryCandidates | src/main/java/org/example/fpoesudoku/models/Sudoku.java:39-55 | tries the values 1..6 in a shuffled order at the first empty cell; same success and failure guarantees as the solver; on false every value 1..6 has been excluded, so no solution exists |
| SudokuModel.Sudoku.TryValue | src/main/java/org/example/fpoesudoku/models/Sudoku.java:44-53 | writes `value` only when the placement check passes, recurses, and on failure empties the cell again; on false the board is unchanged and no solution puts `value` at this cell |
| SudokuModel.ShuffledOneToSix | src/main/java/org/example/fpoesudoku/models/Sudoku.java:40-41 | any shuffle of 1..6 has six entries, all in 1..6, and contains each of 1..6 |
| Shuffles.ShuffleOfNoRepeats | src/main/java/org/example/fpoesudoku/controllers/SudokuGameController.java:194 | a shuffle of a list without repeats has the same length and the same elements, and has no repeats |
| Grids.PlacePreservesConsistent | src/main/java/org/example/fpoesudoku/models/Sudoku.java:44-45 | writing a checked value 1..6 into an empty cell keeps a consistent board consistent |
| Grids.FilledValidlyAfterPlacement | src/main/java/org/example/fpoesudoku/models/Sudoku.java:44-48 | a board that validly fills the board after a checked placement, and keeps that placement, validly fills the board before it |
| Grids.RejectedValueExcluded | src/main/java/org/example/fpoesudoku/models/Sudoku.java:44 | a value failing the placement check at an empty cell is not the value any solution puts there |
| Grids.CompletionValuePassesCheck | src/main/java/org/example/fpoesudoku/models/Sudoku.java:44 | the value a solution puts at an empty cell passes the placement check there |
| Grids.DeadEndValueExcluded | src/main/java/org/example/fpoesudoku/models/Sudoku.java:47-52 | a value whose placement leaves a board with no solution is not the value any solution of the board puts there |
| Grids.CompletionKeepsOwnPlacement | src/main/java/org/example/fpoesudoku/models/Sudoku.java:45-47 | a solution of a board is still a solution after its own value is placed at an empty cell |
| Grids.AllValuesExcluded | src/main/java/org/example/fpoesudoku/models/Sudoku.java:43-55 | when every value 1..6 is excluded at an empty cell, the board has no solution |
| Grids.ValidFillCompletes | src/main/java/org/example/fpoesudoku/models/Sudoku.java:37-59 | a full board that keeps the givens of a consistent board and fills the rest validly is a solution of it |
| Grids.FilledUnitsArePermutations | src/main/java/org/example/fpoesudoku/models/Sudoku.java:37-59 | after a successful run from a consistent board, every row, column and block is a permutation of 1..6 |
| Grids.SolutionRowIsPermutation | src/main/java/org/example/fpoesudoku/models/Sudoku.java:37-59 | every row of a solved board holds 1..6 once each |
| Grids.SolutionColumnIsPermutation | src/main/java/org/example/fpoesudoku/models/Sudoku.java:37-59 | every column of a solved board holds 1..6 once each |
| Grids.SolutionBlockIsPermutation | src/main/java/org/example/fpoesudoku/models/Sudoku.java:37-59 | every 2x3 block of a solved board holds 1..6 once each |
| Grids.DistinctValuesCoverOneToSix | src/main/java/org/example/fpoesudoku/models/Sudoku.java:37-59 | six distinct values from 1..6 are all of 1..6 |
| Grids.EmptyGridIsSolvable | src/main/java/org/example/fpoesudoku/models/Sudoku.java:19-35 | the empty board built by the constructor has a solution, so the complete solver cannot fail on it |
| Grids.ValidFillOfEmptyGridSolves | src/main/java/org/example/fpoesudoku/models/Sudoku.java:19-59 | a successful run on the empty board leaves a solved board |
| Grids.FillCell | src/main/java/org/example/fpoesudoku/models/Sudoku.java:45 | filling an empty cell removes exactly that cell from the empty ones (the solver's termination measure drops by one) |
| Grids.InBlockSet | src/main/java/org/example/fpoesudoku/models/Sudoku.java:138-143 | a cell lies in the block with corner (r, c) exactly when its own block corner is (r, c) |
| GameController.BlockPositions | src/main/java/org/example/fpoesudoku/controllers/SudokuGameController.java:186-191 | the collected list has six distinct positions, exactly the cells of the 2x3 block at the given corner |
| GameController.ShuffledBlock | src/main/java/org/example/fpoesudoku/controllers/SudokuGameController.java:186-194 | after the shuffle, the list still has six distinct in-grid positions and contains every cell of the block |
| GameController.HideFourCells | src/main/java/org/example/fpoesudoku/controllers/SudokuGameController.java:186-198 | empties exactly four distinct cells, all inside the current block; every other cell keeps its value |
| GameController.HideBlock | src/main/java/org/example/fpoesudoku/controllers/SudokuGameController.java:184-199 | one pass of the inner loop keeps the board equal to the source with the removed cells emptied, and advances the per-block bookkeeping |
| Grids.CopyGrid | src/main/java/org/example/fpoesudoku/controllers/SudokuGameController.java:173-178 | the copy is a fresh 6x6 board equal to the source cell by cell; it also stands for the legacy screen's identical copy loop at SudokuController.java:71-76 |
| GameController.GeneratePartialSudoku | src/main/java/org/example/fpoesudoku/controllers/SudokuGameController.java:172-203 | the result is fresh and 6x6, equal to the source except for exactly 24 emptied cells, four in each of the six blocks; the source is not modified |
| GameController.ProgressStep | src/main/java/org/example/fpoesudoku/controllers/SudokuGameController.java:183-198 | after a block, four cells of it are emptied, earlier blocks keep their four, and later blocks are untouched |
| GameController.StepKeepsBlockCounts | src/main/java/org/example/fpoesudoku/controllers/SudokuGameController.java:186-198 | processing one block changes the count of no other block and gives the current block four emptied cells |
| GameController.NextRowOfBlocks | src/main/java/org/example/fpoesudoku/controllers/SudokuGameController.java:183-184 | finishing the right-hand block of a row group is the same state as starting the next row group |
| GameController.AllBlocksVisited | src/main/java/org/example/fpoesudoku/controllers/SudokuGameController.java:182-200 | after all six block origins (0,0), (0,3), (2,0), (2,3), (4,0), (4,3), 24 cells are emptied, four per block |
| GameController.BlockSetsDisjoint | src/main/java/org/example/fpoesudoku/controllers/SudokuGameController.java:183-184 | distinct block origins have no cell in common |
| GameController.BlockBalancedGivens | src/main/java/org/example/fpoesudoku/controllers/SudokuGameController.java:182-200 | from a full source, the emptied cells are exactly the result's empty cells (24), and every block keeps exactly two givens |
| GameController.SudokuGameController.OnActionStartGameButton | src/main/java/org/example/fpoesudoku/controllers/SudokuGameController.java:221-242 | when cancelled nothing changes; when confirmed a fresh puzzle is solved (always successfully), kept, and the returned board is it with four cells emptied per block, two givens per block |
| LegacyController.RemoveIfFilled | src/main/java/org/example/fpoesudoku/SudokuController.java:85-88 | a drawn filled cell is emptied and the counter drops by one; a drawn empty cell leaves board and counter unchanged |
| LegacyController.GenerarSudokuParcial | src/main/java/org/example/fpoesudoku/SudokuController.java:70-92 | the result is fresh and 6x6, has exactly 12 more empty cells than the source, and every filled cell holds the source's value; the source is not modified |
| LegacyController.EmptyingKeepsSource | src/main/java/org/example/fpoesudoku/SudokuController.java:79-89 | emptying a filled cell keeps the board a part of the source and moves one cell from the filled to the empty ones (the counter invariant) |
| LegacyController.SomeFilledCell | src/main/java/org/example/fpoesudoku/SudokuController.java:81-85 | while filled cells remain, a draw that hits one exists |
| Grids.ClearCell | src/main/java/org/example/fpoesudoku/SudokuController.java:85-87 | emptying a filled cell adds exactly that cell to the empty ones and removes it from the filled ones |
| Grids.FullGridCounts | src/main/java/org/example/fpoesudoku/SudokuController.java:79-81 | a solved board has no empty cell and 36 filled ones, so the 12 removals always find filled cells |
| LegacyController.SudokuController.constructor | src/main/java/org/example/fpoesudoku/SudokuController.java:37 | a new screen keeps no puzzle |
| LegacyController.SudokuController.OnActionStartButton | src/main/java/org/example/fpoesudoku/SudokuController.java:113-121 | a puzzle is created and solved only when none is kept; otherwise the same puzzle and solution are reused unchanged; the returned board has exactly 12 empty cells and its givens agree with the kept solution |

## Left out

- The JavaFX board rendering: `addBoard` and `agregarTablero`, the focus and highlight listeners, and the scene mouse filter. They are UI. The start actions return the board they would display.
- The `[1-6]?` input filter on the text fields. It is UI input filtering.
- The confirmation dialog. Its answer is the `confirm` parameter.
- The console messages printed by the start action.
- `showSudoku`. It is console printing.
- The empty handlers for the light bulb, question mark, restart and submit buttons. They contain no code.
- The statistical quality of `Collections.shuffle` and `Random`. Every permutation and every in-range cell is allowed, and nothing is said about how likely each is.
- LegacyController.GenerarSudokuParcial: only draws that hit a filled cell are taken as loop iterations. A draw of an empty cell changes nothing: `RemoveIfFilled` models that branch, but the loop does not repeat it. As a result the model proves termination, which the Java loop has only with probability 1. It also requires the source to have at least 12 filled cells; with fewer, the Java loop never ends.
- SudokuModel.Sudoku.CurrentQuadrant: modelled only for in-grid cells, and so are the three checks and `validMovement` that use it. For other indices Java truncates the division (so `currentQuadrant(-1, 0)` is 1, and `validateQuadrant(-1, 0, v)` scans rows 0-1 without throwing), and `validMovement` can return false before any out-of-range access. None of that is modelled, because within the game the solver is the only caller of the checks (they are public, but no other code calls them) and it passes only in-grid cells (Sudoku.java:37-44).
- SudokuModel.Sudoku.SetSudoku: requires a 6x6 array. Java accepts any `int[][]`, including ragged and null ones, and the checks would then throw.
- GameController.GeneratePartialSudoku: requires a 6x6 source. Java's `System.arraycopy` throws on a smaller one, and on a larger `int[][]` it copies only the top-left 6x6 part and generates from that. The only caller passes the 6x6 board of a `Sudoku`.
- Boards are modelled as rectangular `array2<int>`, not Java's array of row arrays. So the aliasing of individual rows between boards is not modelled. The whole-board alias from `getSudoku`, which is what the generators read, is modelled.
- The model adds a few helper methods, each one step of the Java code:
  - `TryCandidates` and `TryValue` are one level of the solver's recursion;
  - `CopyGrid` is the `arraycopy` loop of both generators;
  - `BlockPositions`, `ShuffledBlock`, `HideFourCells` and `HideBlock` are one pass of the generator's inner loop;
  - `RemoveIfFilled` is one draw of the legacy loop.
- The game's other files (views, dialogs, the welcome and menu controllers, the application classes) are not part of this model.
