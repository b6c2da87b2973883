/**
 * The puzzle object: a 6x6 grid updated in place, its placement checks and
 * the randomised backtracking solver.
 */
module SudokuModel {
  import opened Grids
  import opened Shuffles

  /** The values 1..6 in their natural order, before shuffling. */
  const OneToSix: seq<int> := [1, 2, 3, 4, 5, 6]

  class Sudoku {
    /** The board, 0 meaning an empty cell. */
    var grid: array2<int>

    ghost predicate Valid()
      reads this
    {
      grid.Length0 == 6 && grid.Length1 == 6
    }

    /** A new puzzle starts with every cell empty. */
    constructor ()
      ensures Valid() && fresh(grid)
      ensures forall r, c :: InGrid(r, c) ==> grid[r, c] == 0
    {
      grid := new int[6, 6]((r, c) => 0);
    }

    /** Block number 1..6 of a cell, counting blocks row by row. */
    static function CurrentQuadrant(row: int, column: int): (q: int)
      requires InGrid(row, column)
      ensures 1 <= q <= 6
      ensures (q - 1) / 2 * 2 == BlockRow(row) && (q - 1) % 2 * 3 == BlockColumn(column)
    {
      row / 2 * 2 + column / 3 + 1
    }

    method ValidateRow(row: int, value: int) returns (free: bool)
      requires Valid() && 0 <= row < 6
      ensures free == RowFree(Cells(grid), row, value)
    {
      for i := 0 to 6
        invariant forall c :: 0 <= c < i ==> grid[row, c] != value
      {
        if grid[row, i] == value {
          return false;
        }
      }
      return true;
    }

    method ValidateColumn(column: int, value: int) returns (free: bool)
      requires Valid() && 0 <= column < 6
      ensures free == ColumnFree(Cells(grid), column, value)
    {
      for i := 0 to 6
        invariant forall r :: 0 <= r < i ==> grid[r, column] != value
      {
        if grid[i, column] == value {
          return false;
        }
      }
      return true;
    }

    /** Scans the block numbered by `CurrentQuadrant`, starting from the corner that number encodes. */
    method ValidateQuadrant(row: int, column: int, value: int) returns (free: bool)
      requires Valid() && InGrid(row, column)
      ensures free == BlockFree(Cells(grid), row, column, value)
    {
      var subQuadrant := CurrentQuadrant(row, column);
      var rowInit := (subQuadrant - 1) / 2 * 2;
      var columnInit := (subQuadrant - 1) % 2 * 3;
      for r := rowInit to rowInit + 2
        invariant forall r', c :: rowInit <= r' < r && columnInit <= c < columnInit + 3 ==> grid[r', c] != value
      {
        for c := columnInit to columnInit + 3
          invariant forall c' :: columnInit <= c' < c ==> grid[r, c'] != value
        {
          if grid[r, c] == value {
            return false;
          }
        }
      }
      return true;
    }

    method ValidMovement(row: int, column: int, value: int) returns (valid: bool)
      requires Valid() && InGrid(row, column)
      ensures valid == CanPlace(Cells(grid), row, column, value)
    {
      valid := ValidateRow(row, value);
      if valid {
        valid := ValidateColumn(column, value);
      }
      if valid {
        valid := ValidateQuadrant(row, column, value);
      }
    }

    /** The grid itself, not a copy: callers see later changes to it. */
    method GetSudoku() returns (g: array2<int>)
      requires Valid()
      ensures g == grid && g.Length0 == 6 && g.Length1 == 6
    {
      return grid;
    }

    /** Adopts `g` as the board, without copying it. */
    method SetSudoku(g: array2<int>)
      requires g.Length0 == 6 && g.Length1 == 6
      modifies this
      ensures Valid() && grid == g
    {
      grid := g;
    }

    /**
     * Finds the first empty cell in row-major order and lets `TryCandidates`
     * fill it; succeeds at once when no cell is empty.
     */
    method SolveSudoku() returns (solved: bool)
      requires Valid()
      modifies grid
      decreases |ZeroCells(Cells(grid))|, 2
      ensures Extends(Cells(grid), old(Cells(grid)))
      ensures solved ==> Full(Cells(grid)) && FilledValidly(Cells(grid), old(Cells(grid)))
      ensures !solved ==> Cells(grid) == old(Cells(grid))
      ensures !solved ==> forall s :: !IsCompletion(s, old(Cells(grid)))
    {
      for row := 0 to 6
        invariant forall r, c :: 0 <= r < row && 0 <= c < 6 ==> grid[r, c] != 0
      {
        for col := 0 to 6
          invariant forall c :: 0 <= c < col ==> grid[row, c] != 0
        {
          if grid[row, col] == 0 {
            solved := TryCandidates(row, col);
            return;
          }
        }
      }
      return true;
    }

    /**
     * Tries the values 1..6, in a shuffled order, at the empty cell
     * (row, col), stopping at the first one whose trial succeeds.
     */
    method TryCandidates(row: int, col: int) returns (solved: bool)
      requires Valid() && InGrid(row, col) && grid[row, col] == 0
      modifies grid
      decreases |ZeroCells(Cells(grid))|, 1
      ensures Extends(Cells(grid), old(Cells(grid)))
      ensures solved ==> Full(Cells(grid)) && FilledValidly(Cells(grid), old(Cells(grid)))
      ensures !solved ==> Cells(grid) == old(Cells(grid))
      ensures !solved ==> forall s :: !IsCompletion(s, old(Cells(grid)))
    {
      ghost var g0 := Cells(grid);
      assert IsShuffleOf(OneToSix, OneToSix);
      var numbers :| IsShuffleOf(numbers, OneToSix);
      ShuffledOneToSix(numbers);
      for i := 0 to 6
        invariant Cells(grid) == g0
        invariant forall s :: IsCompletion(s, g0) ==> s[row][col] !in numbers[..i]
      {
        solved := TryValue(row, col, numbers[i]);
        if solved {
          return;
        }
        PrefixGrows(numbers, i);
      }
      assert numbers[..6] == numbers;
      AllValuesExcluded(g0, row, col, numbers);
      return false;
    }

    /**
     * One candidate at the empty cell (row, col): when `value` passes the
     * placement check it is written and the search recurses; when the
     * recursion fails the cell is emptied again.
     */
    method TryValue(row: int, col: int, value: int) returns (solved: bool)
      requires Valid() && InGrid(row, col) && grid[row, col] == 0 && 1 <= value <= 6
      modifies grid
      decreases |ZeroCells(Cells(grid))|, 0
      ensures Extends(Cells(grid), old(Cells(grid)))
      ensures solved ==> Full(Cells(grid)) && FilledValidly(Cells(grid), old(Cells(grid)))
      ensures !solved ==> Cells(grid) == old(Cells(grid))
      ensures !solved ==> forall s :: IsCompletion(s, old(Cells(grid))) ==> s[row][col] != value
    {
      ghost var g0 := Cells(grid);
      var ok := ValidMovement(row, col, value);
      if !ok {
        RejectedValueExcluded(g0, row, col, value);
        return false;
      }
      grid[row, col] := value;
      GridExtensionality(Cells(grid), Set(g0, row, col, value));
      FillCell(g0, row, col, value);
      solved := SolveSudoku();
      if solved {
        FilledValidlyAfterPlacement(Cells(grid), g0, row, col, value);
        return;
      }
      grid[row, col] := 0;
      GridExtensionality(Cells(grid), g0);
      DeadEndValueExcluded(g0, row, col, value);
    }
  }

  /** A shuffle of 1..6 lists six values, all from 1..6, and misses none of them. */
  lemma ShuffledOneToSix(numbers: seq<int>)
    requires IsShuffleOf(numbers, OneToSix)
    ensures |numbers| == 6
    ensures forall i :: 0 <= i < 6 ==> 1 <= numbers[i] <= 6
    ensures forall v :: 1 <= v <= 6 ==> v in numbers
  {
    assert |numbers| == |multiset(numbers)| == |multiset(OneToSix)| == |OneToSix|;
    forall i | 0 <= i < 6
      ensures 1 <= numbers[i] <= 6
    {
      assert numbers[i] in multiset(numbers);
      assert numbers[i] in OneToSix;
    }
    forall v | 1 <= v <= 6
      ensures v in numbers
    {
      assert v in OneToSix;
      assert v in multiset(numbers);
    }
  }

  /** The first i + 1 values are the first i and the next one. */
  lemma PrefixGrows(numbers: seq<int>, i: int)
    requires 0 <= i < |numbers|
    ensures forall v :: v in numbers[..i + 1] <==> v in numbers[..i] || v == numbers[i]
  {
    assert numbers[..i + 1] == numbers[..i] + [numbers[i]];
  }

  /** Two cells get the same block number exactly when they lie in the same 2x3 block. */
  lemma QuadrantIdentifiesBlock(r1: int, c1: int, r2: int, c2: int)
    requires InGrid(r1, c1) && InGrid(r2, c2)
    ensures Sudoku.CurrentQuadrant(r1, c1) == Sudoku.CurrentQuadrant(r2, c2) <==> SameBlock(r1, c1, r2, c2)
  {
  }
}
