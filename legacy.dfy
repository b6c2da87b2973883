/**
 * The first version of the game screen: its start action solves a puzzle
 * once, keeps it, and on every start derives a new partial board from it
 * by emptying 12 cells drawn at random.
 */
module LegacyController {
  import opened Grids
  import opened SudokuModel

  /** Number of cells the legacy generator empties. */
  const CellsToRemove: int := 12

  /**
   * One draw of the generator's loop at cell (row, col): a filled cell is
   * emptied and counted; an empty one leaves the board and the count as
   * they were.
   */
  method RemoveIfFilled(partial: array2<int>, row: int, col: int, remaining: int) returns (remaining': int)
    requires partial.Length0 == 6 && partial.Length1 == 6 && InGrid(row, col)
    modifies partial
    ensures old(partial[row, col]) != 0 ==>
      Cells(partial) == Set(old(Cells(partial)), row, col, 0) && remaining' == remaining - 1
    ensures old(partial[row, col]) == 0 ==>
      Cells(partial) == old(Cells(partial)) && remaining' == remaining
  {
    ghost var before := Cells(partial);
    remaining' := remaining;
    if partial[row, col] != 0 {
      partial[row, col] := 0;
      remaining' := remaining' - 1;
      GridExtensionality(Cells(partial), Set(before, row, col, 0));
    } else {
      GridExtensionality(Cells(partial), before);
    }
  }

  /**
   * Copies the solved grid and empties cells drawn at random until 12
   * filled cells have been emptied. Only draws that hit a filled cell are
   * taken: the others change nothing.
   */
  method GenerarSudokuParcial(sudokuCompleto: array2<int>) returns (sudokuParcial: array2<int>)
    requires sudokuCompleto.Length0 == 6 && sudokuCompleto.Length1 == 6
    requires |NonZeroCells(Cells(sudokuCompleto))| >= CellsToRemove
    ensures fresh(sudokuParcial) && sudokuParcial.Length0 == 6 && sudokuParcial.Length1 == 6
    ensures |ZeroCells(Cells(sudokuParcial))| == |ZeroCells(Cells(sudokuCompleto))| + CellsToRemove
    ensures Extends(Cells(sudokuCompleto), Cells(sudokuParcial))
  {
    sudokuParcial := CopyGrid(sudokuCompleto);
    ghost var src := Cells(sudokuCompleto);
    GridExtensionality(Cells(sudokuParcial), src);
    var celdasAEliminar := CellsToRemove;
    while celdasAEliminar > 0
      invariant 0 <= celdasAEliminar <= CellsToRemove
      invariant |ZeroCells(Cells(sudokuParcial))| == |ZeroCells(src)| + (CellsToRemove - celdasAEliminar)
      invariant |NonZeroCells(Cells(sudokuParcial))| == |NonZeroCells(src)| - (CellsToRemove - celdasAEliminar)
      invariant Extends(src, Cells(sudokuParcial))
      decreases celdasAEliminar
    {
      ghost var g := Cells(sudokuParcial);
      SomeFilledCell(g);
      var row: int, col: int :| 0 <= row < 6 && 0 <= col < 6 && sudokuParcial[row, col] != 0;
      celdasAEliminar := RemoveIfFilled(sudokuParcial, row, col, celdasAEliminar);
      EmptyingKeepsSource(src, g, row, col);
    }
  }

  /** A grid with a filled cell has one at some in-range position. */
  lemma SomeFilledCell(g: Grid)
    requires IsGrid(g) && |NonZeroCells(g)| > 0
    ensures exists r, c :: InGrid(r, c) && g[r][c] != 0
  {
    var x :| x in NonZeroCells(g);
  }

  /**
   * Emptying a filled cell keeps the board a part of the source and moves
   * one cell from the filled ones to the empty ones.
   */
  lemma EmptyingKeepsSource(src: Grid, g: Grid, row: int, col: int)
    requires IsGrid(src) && IsGrid(g) && InGrid(row, col) && g[row][col] != 0 && Extends(src, g)
    ensures Extends(src, Set(g, row, col, 0))
    ensures |ZeroCells(Set(g, row, col, 0))| == |ZeroCells(g)| + 1
    ensures |NonZeroCells(Set(g, row, col, 0))| == |NonZeroCells(g)| - 1
  {
    ClearCell(g, row, col);
  }

  class SudokuController {
    var sudoku: Sudoku?

    /** A kept puzzle is always a solved one. */
    ghost predicate Valid()
      reads this, sudoku, if sudoku != null then {sudoku.grid} else {}
    {
      sudoku != null ==> sudoku.Valid() && IsSolution(Cells(sudoku.grid))
    }

    constructor ()
      ensures Valid() && sudoku == null
    {
      sudoku := null;
    }

    /**
     * Solves a new puzzle only when none is kept yet, then derives a
     * partial board with 12 empty cells from the kept solution.
     */
    method OnActionStartButton() returns (board: array2<int>)
      requires Valid()
      modifies this
      ensures Valid() && sudoku != null
      ensures old(sudoku) != null ==> sudoku == old(sudoku) && Cells(sudoku.grid) == old(Cells(sudoku.grid))
      ensures old(sudoku) == null ==> fresh(sudoku) && fresh(sudoku.grid)
      ensures fresh(board) && board.Length0 == 6 && board.Length1 == 6
      ensures |ZeroCells(Cells(board))| == CellsToRemove
      ensures Extends(Cells(sudoku.grid), Cells(board))
    {
      if sudoku == null {
        var s := new Sudoku();
        sudoku := s;
        ghost var empty := Cells(s.grid);
        EmptyGridIsSolvable(empty);
        var solved := s.SolveSudoku();
        ValidFillOfEmptyGridSolves(Cells(s.grid), empty);
      }
      var complete := sudoku.GetSudoku();
      FullGridCounts(Cells(complete));
      board := GenerarSudokuParcial(complete);
    }
  }
}
