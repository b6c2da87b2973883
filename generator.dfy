/**
 * The game screen's start action: solve a fresh puzzle, then hide four of
 * the six cells of every 2x3 block, so that each block keeps exactly two
 * givens.
 */
module GameController {
  import opened Grids
  import opened Shuffles
  import opened SudokuModel

  /** `p` is `src` with exactly the cells of `removed` emptied. */
  ghost predicate Punched(p: Grid, src: Grid, removed: set<Cell>)
    requires IsGrid(p) && IsGrid(src)
  {
    && (forall x :: x in removed ==> InGrid(x.0, x.1))
    && (forall r, c :: InGrid(r, c) ==> p[r][c] == if (r, c) in removed then 0 else src[r][c])
  }

  /**
   * Blocks are visited row-group by row-group, left block first. Before
   * block (sr, sc) the generator has finished the cells above row `sr`
   * and, in rows sr and sr + 1, those left of column `sc`.
   */
  ghost predicate VisitedBefore(x: Cell, sr: int, sc: int) {
    x.0 < sr || (x.0 < sr + 2 && x.1 < sc)
  }

  /** Number of blocks visited before block (sr, sc): two per group of rows, one per block to the left. */
  ghost function BlocksBefore(sr: int, sc: int): int {
    sr + (if sc == 0 then 0 else if sc == 3 then 1 else 2)
  }

  /**
   * The generator's state once it has visited every block before block
   * (sr, sc): four cells removed from each visited block and none from any
   * other.
   */
  ghost predicate Progress(removed: set<Cell>, sr: int, sc: int) {
    && (forall x :: x in removed ==> InGrid(x.0, x.1) && VisitedBefore(x, sr, sc))
    && (forall r, c :: IsBlockCorner(r, c) && VisitedBefore((r, c), sr, sc) ==> |removed * BlockSet(r, c)| == 4)
    && |removed| == 4 * BlocksBefore(sr, sc)
  }

  /** A full source grid punched four cells per block keeps two givens per block, 12 in all. */
  lemma BlockBalancedGivens(p: Grid, src: Grid, removed: set<Cell>)
    requires IsGrid(p) && IsGrid(src) && Full(src) && Punched(p, src, removed)
    requires |removed| == 24
    requires forall r, c :: IsBlockCorner(r, c) ==> |removed * BlockSet(r, c)| == 4
    ensures ZeroCells(p) == removed && |ZeroCells(p)| == 24
    ensures forall r, c :: IsBlockCorner(r, c) ==> |NonZeroCells(p) * BlockSet(r, c)| == 2
  {
    PunchedFullGrid(p, src, removed);
    forall r, c | IsBlockCorner(r, c)
      ensures |NonZeroCells(p) * BlockSet(r, c)| == 2
    {
      BlockSetSize(r, c);
      BlockMinusRemoved(p, removed, r, c);
    }
  }

  /** Punching a full grid empties exactly the punched cells. */
  lemma PunchedFullGrid(p: Grid, src: Grid, removed: set<Cell>)
    requires IsGrid(p) && IsGrid(src) && Full(src) && Punched(p, src, removed)
    ensures ZeroCells(p) == removed
    ensures forall r, c :: InGrid(r, c) ==> ((r, c) in NonZeroCells(p) <==> (r, c) !in removed)
  {
  }

  lemma BlockMinusRemoved(p: Grid, removed: set<Cell>, r: int, c: int)
    requires IsGrid(p) && IsBlockCorner(r, c)
    requires forall r', c' :: InGrid(r', c') ==> ((r', c') in NonZeroCells(p) <==> (r', c') !in removed)
    ensures NonZeroCells(p) * BlockSet(r, c) == BlockSet(r, c) - removed * BlockSet(r, c)
  {
    forall x | x in BlockSet(r, c)
      ensures x in NonZeroCells(p) <==> x !in removed
    {
      InBlock(r, c, x);
    }
  }

  /** Emptying four cells of the next block keeps the generator's state consistent. */
  lemma ProgressStep(removed: set<Cell>, sr: int, sc: int, picked: set<Cell>)
    requires IsBlockCorner(sr, sc) && Progress(removed, sr, sc)
    requires picked <= BlockSet(sr, sc) && |picked| == 4
    ensures Progress(removed + picked, sr, sc + 3)
  {
    StepKeepsCellsVisited(removed, sr, sc, picked);
    StepKeepsBlockCounts(removed, sr, sc, picked);
  }

  /** The emptied cells stay inside the visited blocks, and there are four more of them. */
  lemma StepKeepsCellsVisited(removed: set<Cell>, sr: int, sc: int, picked: set<Cell>)
    requires IsBlockCorner(sr, sc)
    requires forall x :: x in removed ==> InGrid(x.0, x.1) && VisitedBefore(x, sr, sc)
    requires |removed| == 4 * BlocksBefore(sr, sc)
    requires picked <= BlockSet(sr, sc) && |picked| == 4
    ensures forall x :: x in removed + picked ==> InGrid(x.0, x.1) && VisitedBefore(x, sr, sc + 3)
    ensures |removed + picked| == 4 * BlocksBefore(sr, sc + 3)
  {
    forall x | x in picked
      ensures x !in removed && InGrid(x.0, x.1) && VisitedBefore(x, sr, sc + 3)
    {
      InBlock(sr, sc, x);
    }
    assert removed * picked == {};
  }

  /** Every block visited so far, the new one included, has exactly four emptied cells. */
  lemma StepKeepsBlockCounts(removed: set<Cell>, sr: int, sc: int, picked: set<Cell>)
    requires IsBlockCorner(sr, sc) && Progress(removed, sr, sc)
    requires picked <= BlockSet(sr, sc) && |picked| == 4
    ensures forall r, c :: IsBlockCorner(r, c) && VisitedBefore((r, c), sr, sc + 3) ==>
      |(removed + picked) * BlockSet(r, c)| == 4
  {
    forall r, c | IsBlockCorner(r, c) && VisitedBefore((r, c), sr, sc + 3)
      ensures |(removed + picked) * BlockSet(r, c)| == 4
    {
      if r == sr && c == sc {
        NewBlockCount(removed, sr, sc, picked);
      } else {
        OldBlockCount(removed, r, c, sr, sc, picked);
      }
    }
  }

  /** The block just visited holds exactly the four cells emptied in it. */
  lemma NewBlockCount(removed: set<Cell>, sr: int, sc: int, picked: set<Cell>)
    requires IsBlockCorner(sr, sc)
    requires forall x :: x in removed ==> VisitedBefore(x, sr, sc)
    requires picked <= BlockSet(sr, sc)
    ensures (removed + picked) * BlockSet(sr, sc) == picked
  {
    forall x | x in removed
      ensures x !in BlockSet(sr, sc)
    {
      if x in BlockSet(sr, sc) {
        InBlock(sr, sc, x);
      }
    }
  }

  /** Emptying cells of block (sr, sc) leaves the count of an earlier block alone. */
  lemma OldBlockCount(removed: set<Cell>, r: int, c: int, sr: int, sc: int, picked: set<Cell>)
    requires IsBlockCorner(r, c) && IsBlockCorner(sr, sc) && (r != sr || c != sc)
    requires picked <= BlockSet(sr, sc)
    ensures (removed + picked) * BlockSet(r, c) == removed * BlockSet(r, c)
    ensures VisitedBefore((r, c), sr, sc + 3) ==> VisitedBefore((r, c), sr, sc)
  {
    BlockSetsDisjoint(r, c, sr, sc);
    forall x | x in picked
      ensures x !in BlockSet(r, c)
    {
      assert x in BlockSet(sr, sc);
    }
  }

  lemma NextRowOfBlocks(removed: set<Cell>, sr: int)
    requires (sr == 0 || sr == 2 || sr == 4) && Progress(removed, sr, 6)
    ensures Progress(removed, sr + 2, 0)
  {
  }

  lemma AllBlocksVisited(removed: set<Cell>)
    requires Progress(removed, 6, 0)
    ensures |removed| == 24
    ensures forall x :: x in removed ==> InGrid(x.0, x.1)
    ensures forall r, c :: IsBlockCorner(r, c) ==> |removed * BlockSet(r, c)| == 4
  {
  }

  /** The cells of the block with corner (r, c) are the grid cells in rows r, r + 1 and columns c .. c + 2. */
  lemma InBlock(r: int, c: int, x: Cell)
    requires IsBlockCorner(r, c) && x in BlockSet(r, c)
    ensures InGrid(x.0, x.1) && r <= x.0 < r + 2 && c <= x.1 < c + 3
  {
  }

  /** Distinct blocks share no cell. */
  lemma BlockSetsDisjoint(r: int, c: int, sr: int, sc: int)
    requires IsBlockCorner(r, c) && IsBlockCorner(sr, sc) && (r != sr || c != sc)
    ensures BlockSet(r, c) * BlockSet(sr, sc) == {}
  {
    forall x | x in BlockSet(r, c)
      ensures x !in BlockSet(sr, sc)
    {
      InBlock(r, c, x);
      if x in BlockSet(sr, sc) {
        InBlock(sr, sc, x);
      }
    }
  }

  /** The cells of the 2x3 block with corner (startRow, startCol), collected row by row. */
  method BlockPositions(startRow: int, startCol: int) returns (positions: seq<Cell>)
    ensures |positions| == 6 && NoRepeats(positions)
    ensures forall x :: x in positions <==> x in BlockSet(startRow, startCol)
  {
    positions := [];
    for row := startRow to startRow + 2
      invariant |positions| == (row - startRow) * 3
      invariant forall k :: 0 <= k < |positions| ==>
        positions[k] == (startRow + BlockOffsets[k].0, startCol + BlockOffsets[k].1)
    {
      for col := startCol to startCol + 3
        invariant |positions| == (row - startRow) * 3 + (col - startCol)
        invariant forall k :: 0 <= k < |positions| ==>
          positions[k] == (startRow + BlockOffsets[k].0, startCol + BlockOffsets[k].1)
      {
        positions := positions + [(row, col)];
      }
    }
    assert positions == [(startRow, startCol), (startRow, startCol + 1), (startRow, startCol + 2),
                         (startRow + 1, startCol), (startRow + 1, startCol + 1), (startRow + 1, startCol + 2)];
  }

  /**
   * The body of the generator's inner loop: hides four cells of block
   * (startRow, startCol) and records them in `removed`.
   */
  method HideBlock(partialSudoku: array2<int>, completeSudoku: array2<int>, startRow: int, startCol: int, ghost removed: set<Cell>)
    returns (ghost removed': set<Cell>)
    requires partialSudoku.Length0 == 6 && partialSudoku.Length1 == 6
    requires completeSudoku.Length0 == 6 && completeSudoku.Length1 == 6 && partialSudoku != completeSudoku
    requires IsBlockCorner(startRow, startCol)
    requires PunchedBoard(partialSudoku, completeSudoku, removed) && Progress(removed, startRow, startCol)
    modifies partialSudoku
    ensures PunchedBoard(partialSudoku, completeSudoku, removed') && Progress(removed', startRow, startCol + 3)
  {
    ghost var picked := HideFourCells(partialSudoku, startRow, startCol);
    ProgressStep(removed, startRow, startCol, picked);
    removed' := removed + picked;
  }

  /** Board `p` is board `src` with the cells of `removed` emptied. */
  ghost predicate PunchedBoard(p: array2<int>, src: array2<int>, removed: set<Cell>)
    requires p.Length0 == 6 && p.Length1 == 6 && src.Length0 == 6 && src.Length1 == 6
    reads p, src
  {
    Punched(Cells(p), Cells(src), removed)
  }

  /**
   * Copies the solved grid, then for every block shuffles the block's six
   * cells and empties the first four of them. `removed` names the emptied
   * cells.
   */
  method GeneratePartialSudoku(completeSudoku: array2<int>) returns (partialSudoku: array2<int>, ghost removed: set<Cell>)
    requires completeSudoku.Length0 == 6 && completeSudoku.Length1 == 6
    ensures fresh(partialSudoku) && partialSudoku.Length0 == 6 && partialSudoku.Length1 == 6
    ensures Punched(Cells(partialSudoku), Cells(completeSudoku), removed)
    ensures |removed| == 24
    ensures forall r, c :: IsBlockCorner(r, c) ==> |removed * BlockSet(r, c)| == 4
  {
    partialSudoku := CopyGrid(completeSudoku);
    removed := {};
    var startRow := 0;
    while startRow < 6
      invariant startRow == 0 || startRow == 2 || startRow == 4 || startRow == 6
      invariant PunchedBoard(partialSudoku, completeSudoku, removed)
      invariant Progress(removed, startRow, 0)
    {
      var startCol := 0;
      while startCol < 6
        invariant startCol == 0 || startCol == 3 || startCol == 6
        invariant PunchedBoard(partialSudoku, completeSudoku, removed)
        invariant Progress(removed, startRow, startCol)
      {
        removed := HideBlock(partialSudoku, completeSudoku, startRow, startCol, removed);
        startCol := startCol + 3;
      }
      NextRowOfBlocks(removed, startRow);
      startRow := startRow + 2;
    }
    AllBlocksVisited(removed);
  }

  /** The cells of block (startRow, startCol) in a random order. */
  method ShuffledBlock(startRow: int, startCol: int) returns (positions: seq<Cell>)
    requires IsBlockCorner(startRow, startCol)
    ensures |positions| == 6 && NoRepeats(positions)
    ensures forall k :: 0 <= k < 6 ==> positions[k] in BlockSet(startRow, startCol) && InGrid(positions[k].0, positions[k].1)
    ensures forall x :: x in BlockSet(startRow, startCol) ==> x in positions
  {
    var inOrder := BlockPositions(startRow, startCol);
    assert IsShuffleOf(inOrder, inOrder);
    positions :| IsShuffleOf(positions, inOrder);
    ShuffleOfNoRepeats(positions, inOrder);
    forall k | 0 <= k < 6
      ensures positions[k] in BlockSet(startRow, startCol) && InGrid(positions[k].0, positions[k].1)
    {
      assert positions[k] in inOrder;
      InBlock(startRow, startCol, positions[k]);
    }
  }

  /**
   * One block of the generator: shuffles the six cells of the block with
   * corner (startRow, startCol) and empties the first four. `picked` names
   * them.
   */
  method HideFourCells(partialSudoku: array2<int>, startRow: int, startCol: int) returns (ghost picked: set<Cell>)
    requires partialSudoku.Length0 == 6 && partialSudoku.Length1 == 6 && IsBlockCorner(startRow, startCol)
    modifies partialSudoku
    ensures picked <= BlockSet(startRow, startCol) && |picked| == 4
    ensures forall r, c :: InGrid(r, c) ==>
      partialSudoku[r, c] == if (r, c) in picked then 0 else old(partialSudoku[r, c])
  {
    var positions := ShuffledBlock(startRow, startCol);
    picked := {};
    for i := 0 to 4
      invariant |picked| == i && picked <= BlockSet(startRow, startCol)
      invariant forall k :: 0 <= k < 6 ==> (positions[k] in picked <==> k < i)
      invariant forall r, c :: InGrid(r, c) ==>
        partialSudoku[r, c] == if (r, c) in picked then 0 else old(partialSudoku[r, c])
    {
      var pos := positions[i];
      ghost var prev := picked;
      partialSudoku[pos.0, pos.1] := 0;
      picked := picked + {pos};
      forall r, c | InGrid(r, c)
        ensures partialSudoku[r, c] == if (r, c) in picked then 0 else old(partialSudoku[r, c])
      {
        if (r, c) != pos {
          assert (r, c) in picked <==> (r, c) in prev;
        }
      }
    }
  }

  class SudokuGameController {
    var sudoku: Sudoku?

    /**
     * On a confirmed start: a new empty puzzle, solved in place, and the
     * block-balanced partial board derived from it. The solver's verdict is
     * not inspected; it cannot fail on the empty grid.
     */
    method OnActionStartGameButton(confirm: bool) returns (board: array2?<int>, ghost removed: set<Cell>)
      modifies this
      ensures !confirm ==> board == null && sudoku == old(sudoku)
      ensures confirm ==> sudoku != null && fresh(sudoku) && sudoku.Valid() && fresh(sudoku.grid)
      ensures confirm ==> IsSolution(Cells(sudoku.grid))
      ensures confirm ==> board != null && fresh(board) && board.Length0 == 6 && board.Length1 == 6
      ensures confirm ==> Punched(Cells(board), Cells(sudoku.grid), removed) && ZeroCells(Cells(board)) == removed
      ensures confirm ==> forall r, c :: IsBlockCorner(r, c) ==> |NonZeroCells(Cells(board)) * BlockSet(r, c)| == 2
    {
      if !confirm {
        return null, {};
      }
      var s := new Sudoku();
      sudoku := s;
      ghost var empty := Cells(s.grid);
      EmptyGridIsSolvable(empty);
      var solved := s.SolveSudoku();
      ValidFillOfEmptyGridSolves(Cells(s.grid), empty);
      var complete := s.GetSudoku();
      board, removed := GeneratePartialSudoku(complete);
      BlockBalancedGivens(Cells(board), Cells(complete), removed);
    }
  }
}
