/**
 * The value-level view of a 6x6 Sudoku board with 2x3 blocks: a grid is a
 * sequence of six rows of six integers, 0 meaning an empty cell. Everything
 * the engine promises is stated here, over such values; the classes in the
 * other modules are tied to it through `Cells`.
 */
module Grids {

  type Grid = seq<seq<int>>
  type Cell = (int, int)

  ghost predicate IsGrid(g: Grid) {
    |g| == 6 && forall r :: 0 <= r < 6 ==> |g[r]| == 6
  }

  ghost predicate InGrid(r: int, c: int) {
    0 <= r < 6 && 0 <= c < 6
  }

  /** The contents of a 6x6 array, row by row. */
  ghost function Cells(a: array2<int>): (g: Grid)
    requires a.Length0 == 6 && a.Length1 == 6
    reads a
    ensures IsGrid(g)
    ensures forall r, c :: InGrid(r, c) ==> g[r][c] == a[r, c]
  {
    seq(6, r requires 0 <= r < 6 reads a =>
      seq(6, c requires 0 <= c < 6 reads a => a[r, c]))
  }

  /**
   * A fresh 6x6 board holding the same values as `g`, copied row by row;
   * both game screens start their generators with this copy.
   */
  method CopyGrid(g: array2<int>) returns (copy: array2<int>)
    requires g.Length0 == 6 && g.Length1 == 6
    ensures fresh(copy) && copy.Length0 == 6 && copy.Length1 == 6
    ensures forall r, c :: InGrid(r, c) ==> copy[r, c] == g[r, c]
  {
    copy := new int[6, 6];
    for i := 0 to 6
      invariant forall r, c :: 0 <= r < i && 0 <= c < 6 ==> copy[r, c] == g[r, c]
    {
      forall j | 0 <= j < 6 {
        copy[i, j] := g[i, j];
      }
    }
  }

  /** Two grids that agree on every cell are the same grid. */
  lemma GridExtensionality(g: Grid, h: Grid)
    requires IsGrid(g) && IsGrid(h)
    requires forall r, c :: InGrid(r, c) ==> g[r][c] == h[r][c]
    ensures g == h
  {
    forall r | 0 <= r < 6
      ensures g[r] == h[r]
    {
      assert forall c :: 0 <= c < 6 ==> g[r][c] == h[r][c];
    }
  }

  /** The grid `g` with cell (row, col) replaced by `value`. */
  ghost function Set(g: Grid, row: int, col: int, value: int): (h: Grid)
    requires IsGrid(g) && InGrid(row, col)
    ensures IsGrid(h)
    ensures h[row][col] == value
    ensures forall r, c :: InGrid(r, c) && (r != row || c != col) ==> h[r][c] == g[r][c]
  {
    g[row := g[row][col := value]]
  }

  // ---------------------------------------------------------------------
  // Blocks

  /** First row of the block that holds row `r`: 0, 2 or 4. */
  function BlockRow(r: int): int { r / 2 * 2 }

  /** First column of the block that holds column `c`: 0 or 3. */
  function BlockColumn(c: int): int { c / 3 * 3 }

  ghost predicate IsBlockCorner(r: int, c: int) {
    (r == 0 || r == 2 || r == 4) && (c == 0 || c == 3)
  }

  ghost predicate SameBlock(r1: int, c1: int, r2: int, c2: int) {
    BlockRow(r1) == BlockRow(r2) && BlockColumn(c1) == BlockColumn(c2)
  }

  /** Distinct cells that share a row, a column or a block. */
  ghost predicate Peers(r1: int, c1: int, r2: int, c2: int) {
    (r1 != r2 || c1 != c2) && (r1 == r2 || c1 == c2 || SameBlock(r1, c1, r2, c2))
  }

  /** The six cells of the 2x3 block whose top-left corner is (r, c). */
  ghost function BlockSet(r: int, c: int): set<Cell> {
    {(r, c), (r, c + 1), (r, c + 2), (r + 1, c), (r + 1, c + 1), (r + 1, c + 2)}
  }

  lemma BlockSetSize(r: int, c: int)
    ensures |BlockSet(r, c)| == 6
  {
    var s := {(r, c), (r, c + 1), (r, c + 2), (r + 1, c), (r + 1, c + 1)};
    assert |{(r, c), (r, c + 1), (r, c + 2)}| == 3;
    assert |{(r, c), (r, c + 1), (r, c + 2), (r + 1, c)}| == 4;
    assert |s| == 5;
    assert BlockSet(r, c) == s + {(r + 1, c + 2)};
  }

  /** A cell lies in the block with corner (r, c) exactly when that corner is its block's corner. */
  lemma InBlockSet(r: int, c: int, p: Cell)
    requires IsBlockCorner(r, c) && InGrid(p.0, p.1)
    ensures p in BlockSet(r, c) <==> BlockRow(p.0) == r && BlockColumn(p.1) == c
  {
  }

  // ---------------------------------------------------------------------
  // Placement checks

  /** `value` occurs in none of the six cells of `row`. */
  ghost predicate RowFree(g: Grid, row: int, value: int)
    requires IsGrid(g) && 0 <= row < 6
  {
    forall c :: 0 <= c < 6 ==> g[row][c] != value
  }

  /** `value` occurs in none of the six cells of `col`. */
  ghost predicate ColumnFree(g: Grid, col: int, value: int)
    requires IsGrid(g) && 0 <= col < 6
  {
    forall r :: 0 <= r < 6 ==> g[r][col] != value
  }

  /** `value` occurs in none of the six cells of the 2x3 block that holds (row, col). */
  ghost predicate BlockFree(g: Grid, row: int, col: int, value: int)
    requires IsGrid(g) && InGrid(row, col)
  {
    forall r, c :: BlockRow(row) <= r < BlockRow(row) + 2 && BlockColumn(col) <= c < BlockColumn(col) + 3 ==>
      g[r][c] != value
  }

  ghost predicate CanPlace(g: Grid, row: int, col: int, value: int)
    requires IsGrid(g) && InGrid(row, col)
  {
    RowFree(g, row, value) && ColumnFree(g, col, value) && BlockFree(g, row, col, value)
  }

  /** `value` can be placed at (row, col) exactly when no peer of that cell holds it. */
  lemma CanPlaceIffNoPeerHolds(g: Grid, row: int, col: int, value: int)
    requires IsGrid(g) && InGrid(row, col) && g[row][col] != value
    ensures CanPlace(g, row, col, value) <==>
      forall r, c :: InGrid(r, c) && Peers(row, col, r, c) ==> g[r][c] != value
  {
    if CanPlace(g, row, col, value) {
      forall r, c | InGrid(r, c) && Peers(row, col, r, c)
        ensures g[r][c] != value
      {
        if r != row && c != col {
          assert BlockRow(row) <= r < BlockRow(row) + 2 && BlockColumn(col) <= c < BlockColumn(col) + 3;
        }
      }
    }
    if forall r, c :: InGrid(r, c) && Peers(row, col, r, c) ==> g[r][c] != value {
      forall r, c | BlockRow(row) <= r < BlockRow(row) + 2 && BlockColumn(col) <= c < BlockColumn(col) + 3
        ensures g[r][c] != value
      {
        assert InGrid(r, c) && SameBlock(row, col, r, c);
        if r != row || c != col {
          assert Peers(row, col, r, c);
        }
      }
    }
  }

  // ---------------------------------------------------------------------
  // Well-formed, full and solved grids

  /** Values are in 0..6 and no non-zero value is repeated in a row, a column or a block. */
  ghost predicate Consistent(g: Grid)
    requires IsGrid(g)
  {
    && (forall r, c :: InGrid(r, c) ==> 0 <= g[r][c] <= 6)
    && (forall r1, c1, r2, c2 :: InGrid(r1, c1) && InGrid(r2, c2) && Peers(r1, c1, r2, c2) && g[r1][c1] != 0 ==>
          g[r1][c1] != g[r2][c2])
  }

  ghost predicate Full(g: Grid)
    requires IsGrid(g)
  {
    forall r, c :: InGrid(r, c) ==> g[r][c] != 0
  }

  ghost predicate IsSolution(g: Grid) {
    IsGrid(g) && Full(g) && Consistent(g)
  }

  /** Every non-zero cell of `g` holds the same value in `s`. */
  ghost predicate Extends(s: Grid, g: Grid)
    requires IsGrid(s) && IsGrid(g)
  {
    forall r, c :: InGrid(r, c) && g[r][c] != 0 ==> s[r][c] == g[r][c]
  }

  /** `s` is a solved grid that keeps every given of `g`. */
  ghost predicate IsCompletion(s: Grid, g: Grid) {
    IsSolution(s) && IsGrid(g) && Extends(s, g)
  }

  /**
   * Every cell that is empty in `g` holds a value 1..6 in `s` that no peer
   * of it holds in `s`: what a search that only writes values passing the
   * placement check leaves behind.
   */
  ghost predicate FilledValidly(s: Grid, g: Grid)
    requires IsGrid(s) && IsGrid(g)
  {
    && (forall r, c :: InGrid(r, c) && g[r][c] == 0 ==> 1 <= s[r][c] <= 6)
    && (forall r1, c1, r2, c2 :: InGrid(r1, c1) && InGrid(r2, c2) && Peers(r1, c1, r2, c2) && g[r1][c1] == 0 ==>
          s[r1][c1] != s[r2][c2])
  }

  /** A full grid that keeps the givens of a consistent grid and fills the rest validly solves it. */
  lemma ValidFillCompletes(s: Grid, g: Grid)
    requires IsGrid(s) && IsGrid(g) && Consistent(g)
    requires Full(s) && Extends(s, g) && FilledValidly(s, g)
    ensures IsCompletion(s, g)
  {
    forall r1, c1, r2, c2 | InGrid(r1, c1) && InGrid(r2, c2) && Peers(r1, c1, r2, c2) && s[r1][c1] != 0
      ensures s[r1][c1] != s[r2][c2]
    {
      if g[r1][c1] != 0 && g[r2][c2] == 0 {
        assert Peers(r2, c2, r1, c1);
      }
    }
  }

  /** Placing a value that passes the check in an empty cell keeps a grid consistent. */
  lemma PlacePreservesConsistent(g: Grid, row: int, col: int, value: int)
    requires IsGrid(g) && Consistent(g) && InGrid(row, col) && g[row][col] == 0
    requires 1 <= value <= 6 && CanPlace(g, row, col, value)
    ensures Consistent(Set(g, row, col, value))
  {
    CanPlaceIffNoPeerHolds(g, row, col, value);
    var h := Set(g, row, col, value);
    forall r1, c1, r2, c2 | InGrid(r1, c1) && InGrid(r2, c2) && Peers(r1, c1, r2, c2) && h[r1][c1] != 0
      ensures h[r1][c1] != h[r2][c2]
    {
      if r2 == row && c2 == col {
        assert Peers(row, col, r1, c1);
      }
    }
  }

  /**
   * Valid filling is built up one placement at a time: if `s` fills the grid
   * obtained by placing a checked `value` at an empty (row, col) validly and
   * keeps that placement, it also fills the grid before the placement validly.
   */
  lemma FilledValidlyAfterPlacement(s: Grid, g: Grid, row: int, col: int, value: int)
    requires IsGrid(s) && IsGrid(g) && InGrid(row, col) && g[row][col] == 0
    requires 1 <= value <= 6 && CanPlace(g, row, col, value)
    requires Extends(s, Set(g, row, col, value)) && FilledValidly(s, Set(g, row, col, value))
    ensures Extends(s, g) && FilledValidly(s, g)
  {
    var h := Set(g, row, col, value);
    CanPlaceIffNoPeerHolds(g, row, col, value);
    forall r1, c1, r2, c2 | InGrid(r1, c1) && InGrid(r2, c2) && Peers(r1, c1, r2, c2) && g[r1][c1] == 0
      ensures s[r1][c1] != s[r2][c2]
    {
      if r1 == row && c1 == col && g[r2][c2] == 0 {
        assert h[r2][c2] == 0 && Peers(r2, c2, r1, c1);
      }
    }
  }

  /** A completion of `g` keeps its givens, so its value at an empty cell passes the placement check. */
  lemma CompletionValuePassesCheck(s: Grid, g: Grid, row: int, col: int)
    requires IsCompletion(s, g) && InGrid(row, col) && g[row][col] == 0
    ensures CanPlace(g, row, col, s[row][col])
  {
    CanPlaceIffNoPeerHolds(g, row, col, s[row][col]);
    forall r, c | InGrid(r, c) && Peers(row, col, r, c)
      ensures g[r][c] != s[row][col]
    {
      assert s[row][col] != 0;
    }
  }

  /** A completion of `g` is still a completion once its own value is placed at an empty cell of `g`. */
  lemma CompletionKeepsOwnPlacement(s: Grid, g: Grid, row: int, col: int)
    requires IsCompletion(s, g) && InGrid(row, col) && g[row][col] == 0
    ensures IsCompletion(s, Set(g, row, col, s[row][col]))
  {
  }

  /** A value that fails the placement check at an empty cell is not the value any completion puts there. */
  lemma RejectedValueExcluded(g: Grid, row: int, col: int, value: int)
    requires IsGrid(g) && InGrid(row, col) && g[row][col] == 0
    requires !CanPlace(g, row, col, value)
    ensures forall s :: IsCompletion(s, g) ==> s[row][col] != value
  {
    forall s | IsCompletion(s, g)
      ensures s[row][col] != value
    {
      CompletionValuePassesCheck(s, g, row, col);
    }
  }

  /** A value whose placement leaves no completion is not the value any completion puts there. */
  lemma DeadEndValueExcluded(g: Grid, row: int, col: int, value: int)
    requires IsGrid(g) && InGrid(row, col) && g[row][col] == 0
    requires forall s :: !IsCompletion(s, Set(g, row, col, value))
    ensures forall s :: IsCompletion(s, g) ==> s[row][col] != value
  {
    forall s | IsCompletion(s, g)
      ensures s[row][col] != value
    {
      if s[row][col] == value {
        CompletionKeepsOwnPlacement(s, g, row, col);
      }
    }
  }

  /** When every value 1..6 is excluded at an empty cell, the grid has no completion. */
  lemma AllValuesExcluded(g: Grid, row: int, col: int, values: seq<int>)
    requires IsGrid(g) && InGrid(row, col)
    requires forall v :: 1 <= v <= 6 ==> v in values
    requires forall s :: IsCompletion(s, g) ==> s[row][col] !in values
    ensures forall s :: !IsCompletion(s, g)
  {
    forall s
      ensures !IsCompletion(s, g)
    {
      CompletionCellInRange(s, g, row, col);
    }
  }

  lemma CompletionCellInRange(s: Grid, g: Grid, row: int, col: int)
    requires InGrid(row, col)
    ensures IsCompletion(s, g) ==> 1 <= s[row][col] <= 6
  {
  }

  // ---------------------------------------------------------------------
  // The empty grid can be solved

  ghost predicate IsEmpty(g: Grid)
    requires IsGrid(g)
  {
    forall r, c :: InGrid(r, c) ==> g[r][c] == 0
  }

  /** One solved grid, witnessing that the empty grid has a completion. */
  const SampleSolution: Grid := [
    [1, 2, 3, 4, 5, 6],
    [4, 5, 6, 1, 2, 3],
    [2, 3, 4, 5, 6, 1],
    [5, 6, 1, 2, 3, 4],
    [3, 4, 5, 6, 1, 2],
    [6, 1, 2, 3, 4, 5]]

  lemma SampleIsSolution()
    ensures IsSolution(SampleSolution)
  {
    forall r1, c1, r2, c2 | InGrid(r1, c1) && InGrid(r2, c2) && Peers(r1, c1, r2, c2)
      ensures SampleSolution[r1][c1] != SampleSolution[r2][c2]
    {
      SamplePeersDiffer(r1, c1, r2, c2);
    }
  }

  lemma SamplePeersDiffer(r1: int, c1: int, r2: int, c2: int)
    requires InGrid(r1, c1) && InGrid(r2, c2) && Peers(r1, c1, r2, c2)
    ensures SampleSolution[r1][c1] != SampleSolution[r2][c2]
  {
    if r1 == r2 {
      SampleRowDistinct(r1, c1, c2);
    } else if c1 == c2 {
      SampleColumnDistinct(c1, r1, r2);
    } else {
      SampleBlockDistinct(r1, c1, r2, c2);
    }
  }

  lemma SampleRowDistinct(r: int, c1: int, c2: int)
    requires 0 <= r < 6 && 0 <= c1 < 6 && 0 <= c2 < 6 && c1 != c2
    ensures SampleSolution[r][c1] != SampleSolution[r][c2]
  {
    if r == 0 {} else if r == 1 {} else if r == 2 {} else if r == 3 {} else if r == 4 {} else {}
  }

  lemma SampleColumnDistinct(c: int, r1: int, r2: int)
    requires 0 <= c < 6 && 0 <= r1 < 6 && 0 <= r2 < 6 && r1 != r2
    ensures SampleSolution[r1][c] != SampleSolution[r2][c]
  {
    if c == 0 {} else if c == 1 {} else if c == 2 {} else if c == 3 {} else if c == 4 {} else {}
  }

  lemma SampleBlockDistinct(r1: int, c1: int, r2: int, c2: int)
    requires InGrid(r1, c1) && InGrid(r2, c2) && r1 != r2 && SameBlock(r1, c1, r2, c2)
    ensures SampleSolution[r1][c1] != SampleSolution[r2][c2]
  {
    if r1 == 0 {} else if r1 == 1 {} else if r1 == 2 {} else if r1 == 3 {} else if r1 == 4 {} else {}
  }

  /** Every empty grid has a completion, so a complete search started on it cannot fail. */
  lemma EmptyGridIsSolvable(g: Grid)
    requires IsGrid(g) && IsEmpty(g)
    ensures IsCompletion(SampleSolution, g)
  {
    SampleIsSolution();
  }

  /** A search that fills an empty grid validly leaves a solved grid. */
  lemma ValidFillOfEmptyGridSolves(s: Grid, g: Grid)
    requires IsGrid(s) && IsGrid(g) && IsEmpty(g)
    requires Full(s) && FilledValidly(s, g)
    ensures IsSolution(s)
  {
    ValidFillCompletes(s, g);
  }

  // ---------------------------------------------------------------------
  // Rows, columns and blocks as sequences of values

  ghost function Column(g: Grid, col: int): (u: seq<int>)
    requires IsGrid(g) && 0 <= col < 6
    ensures |u| == 6 && forall r :: 0 <= r < 6 ==> u[r] == g[r][col]
  {
    seq(6, r requires 0 <= r < 6 => g[r][col])
  }

  /** Offsets of the six cells of a block from its corner, in row-major order. */
  const BlockOffsets: seq<Cell> := [(0, 0), (0, 1), (0, 2), (1, 0), (1, 1), (1, 2)]

  /** The block with corner (r, c), in row-major order. */
  ghost function Block(g: Grid, r: int, c: int): (u: seq<int>)
    requires IsGrid(g) && IsBlockCorner(r, c)
    ensures |u| == 6
    ensures forall k :: 0 <= k < 6 ==> u[k] == g[r + BlockOffsets[k].0][c + BlockOffsets[k].1]
  {
    [g[r][c], g[r][c + 1], g[r][c + 2], g[r + 1][c], g[r + 1][c + 1], g[r + 1][c + 2]]
  }

  /** `u` lists the values 1..6, each exactly once. */
  ghost predicate IsPermutationOfOneToSix(u: seq<int>) {
    && |u| == 6
    && (forall i :: 0 <= i < 6 ==> 1 <= u[i] <= 6)
    && (forall i, j :: 0 <= i < j < 6 ==> u[i] != u[j])
    && (forall v :: 1 <= v <= 6 ==> v in u)
  }

  /** Six distinct values drawn from 1..6 are all of them. */
  lemma DistinctValuesCoverOneToSix(u: seq<int>)
    requires |u| == 6
    requires forall i :: 0 <= i < 6 ==> 1 <= u[i] <= 6
    requires forall i, j :: 0 <= i < j < 6 ==> u[i] != u[j]
    ensures IsPermutationOfOneToSix(u)
  {
    var values := set i | 0 <= i < 6 :: u[i];
    DistinctImageSize(u, 6);
    assert values <= {1, 2, 3, 4, 5, 6};
    SubsetOfSameSize(values, {1, 2, 3, 4, 5, 6});
    forall v | 1 <= v <= 6
      ensures v in u
    {
      assert v in values;
    }
  }

  /** The first `n` entries of a sequence without repetitions form a set of `n` values. */
  lemma {:induction false} DistinctImageSize(u: seq<int>, n: nat)
    requires n <= |u|
    requires forall i, j :: 0 <= i < j < |u| ==> u[i] != u[j]
    ensures |set i | 0 <= i < n :: u[i]| == n
  {
    if n > 0 {
      DistinctImageSize(u, n - 1);
      var prefix := set i | 0 <= i < n - 1 :: u[i];
      assert (set i | 0 <= i < n :: u[i]) == prefix + {u[n - 1]};
      assert u[n - 1] !in prefix;
    }
  }

  lemma SubsetOfSameSize<T>(a: set<T>, b: set<T>)
    requires a <= b && |a| == |b|
    ensures a == b
  {
    assert |b - a| == |b| - |a|;
  }

  /** In a solved grid every row is a permutation of 1..6. */
  lemma SolutionRowIsPermutation(g: Grid, r: int)
    requires IsSolution(g) && 0 <= r < 6
    ensures IsPermutationOfOneToSix(g[r])
  {
    forall i, j | 0 <= i < j < 6
      ensures g[r][i] != g[r][j]
    {
      assert Peers(r, i, r, j);
    }
    DistinctValuesCoverOneToSix(g[r]);
  }

  /** In a solved grid every column is a permutation of 1..6. */
  lemma SolutionColumnIsPermutation(g: Grid, c: int)
    requires IsSolution(g) && 0 <= c < 6
    ensures IsPermutationOfOneToSix(Column(g, c))
  {
    var u := Column(g, c);
    forall i, j | 0 <= i < j < 6
      ensures u[i] != u[j]
    {
      assert Peers(i, c, j, c);
    }
    DistinctValuesCoverOneToSix(u);
  }

  /** In a solved grid every 2x3 block is a permutation of 1..6. */
  lemma SolutionBlockIsPermutation(g: Grid, r: int, c: int)
    requires IsSolution(g) && IsBlockCorner(r, c)
    ensures IsPermutationOfOneToSix(Block(g, r, c))
  {
    var u := Block(g, r, c);
    assert forall i :: 0 <= i < 6 ==> 1 <= u[i] <= 6;
    assert forall i, j :: 0 <= i < j < 6 ==> u[i] != u[j] by {
      forall i, j | 0 <= i < j < 6
        ensures u[i] != u[j]
      {
        BlockCellsArePeers(g, r, c, i, j);
      }
    }
    DistinctValuesCoverOneToSix(u);
  }

  /**
   * A search that starts from a consistent grid and fills every empty cell
   * validly leaves each row, column and block holding 1..6 once each.
   */
  lemma FilledUnitsArePermutations(s: Grid, g: Grid)
    requires IsGrid(s) && IsGrid(g) && Consistent(g)
    requires Full(s) && Extends(s, g) && FilledValidly(s, g)
    ensures forall r :: 0 <= r < 6 ==> IsPermutationOfOneToSix(s[r])
    ensures forall c :: 0 <= c < 6 ==> IsPermutationOfOneToSix(Column(s, c))
    ensures forall r, c :: IsBlockCorner(r, c) ==> IsPermutationOfOneToSix(Block(s, r, c))
  {
    ValidFillCompletes(s, g);
    forall r | 0 <= r < 6
      ensures IsPermutationOfOneToSix(s[r])
    {
      SolutionRowIsPermutation(s, r);
    }
    forall c | 0 <= c < 6
      ensures IsPermutationOfOneToSix(Column(s, c))
    {
      SolutionColumnIsPermutation(s, c);
    }
    forall r, c | IsBlockCorner(r, c)
      ensures IsPermutationOfOneToSix(Block(s, r, c))
    {
      SolutionBlockIsPermutation(s, r, c);
    }
  }

  lemma BlockCellsArePeers(g: Grid, r: int, c: int, i: int, j: int)
    requires IsSolution(g) && IsBlockCorner(r, c) && 0 <= i < j < 6
    ensures Block(g, r, c)[i] != Block(g, r, c)[j]
  {
    BlockOffsetsArePeers(r, c, i, j);
    SolutionPeersDiffer(g, r + BlockOffsets[i].0, c + BlockOffsets[i].1, r + BlockOffsets[j].0, c + BlockOffsets[j].1);
  }

  /** Two different positions of a block are peer cells of the grid. */
  lemma BlockOffsetsArePeers(r: int, c: int, i: int, j: int)
    requires IsBlockCorner(r, c) && 0 <= i < j < 6
    ensures InGrid(r + BlockOffsets[i].0, c + BlockOffsets[i].1)
    ensures InGrid(r + BlockOffsets[j].0, c + BlockOffsets[j].1)
    ensures Peers(r + BlockOffsets[i].0, c + BlockOffsets[i].1, r + BlockOffsets[j].0, c + BlockOffsets[j].1)
  {
  }

  /** Two peers of a solved grid hold different values. */
  lemma SolutionPeersDiffer(g: Grid, r1: int, c1: int, r2: int, c2: int)
    requires IsSolution(g) && InGrid(r1, c1) && InGrid(r2, c2) && Peers(r1, c1, r2, c2)
    ensures g[r1][c1] != g[r2][c2]
  {
  }

  // ---------------------------------------------------------------------
  // Counting empty cells

  ghost function ZeroCells(g: Grid): set<Cell>
    requires IsGrid(g)
  {
    set r, c | 0 <= r < 6 && 0 <= c < 6 && g[r][c] == 0 :: (r, c)
  }

  ghost function NonZeroCells(g: Grid): set<Cell>
    requires IsGrid(g)
  {
    set r, c | 0 <= r < 6 && 0 <= c < 6 && g[r][c] != 0 :: (r, c)
  }

  /** Emptying a filled cell adds exactly that cell to the empty ones. */
  lemma ClearCell(g: Grid, row: int, col: int)
    requires IsGrid(g) && InGrid(row, col) && g[row][col] != 0
    ensures ZeroCells(Set(g, row, col, 0)) == ZeroCells(g) + {(row, col)}
    ensures (row, col) !in ZeroCells(g)
    ensures NonZeroCells(Set(g, row, col, 0)) == NonZeroCells(g) - {(row, col)}
    ensures (row, col) in NonZeroCells(g)
  {
  }

  /** Filling an empty cell with a non-zero value removes exactly that cell from the empty ones. */
  lemma FillCell(g: Grid, row: int, col: int, value: int)
    requires IsGrid(g) && InGrid(row, col) && g[row][col] == 0 && value != 0
    ensures ZeroCells(Set(g, row, col, value)) == ZeroCells(g) - {(row, col)}
    ensures (row, col) in ZeroCells(g)
  {
  }

  /** The cells of the first `n` rows. */
  ghost function RowsCells(n: int): set<Cell> {
    set r, c | 0 <= r < n && 0 <= c < 6 :: (r, c)
  }

  /** The six cells of row `r`. */
  ghost function RowSet(r: int): set<Cell> {
    {(r, 0), (r, 1), (r, 2), (r, 3), (r, 4), (r, 5)}
  }

  lemma RowSetSize(r: int)
    ensures |RowSet(r)| == 6
  {
    var s := {(r, 0), (r, 1), (r, 2), (r, 3), (r, 4)};
    assert |{(r, 0), (r, 1), (r, 2)}| == 3;
    assert |{(r, 0), (r, 1), (r, 2), (r, 3)}| == 4;
    assert |s| == 5;
    assert RowSet(r) == s + {(r, 5)};
  }

  /** Six cells per row. */
  lemma {:induction false} RowsCellsSize(n: int)
    requires 0 <= n <= 6
    ensures |RowsCells(n)| == 6 * n
  {
    if n == 0 {
      assert RowsCells(0) == {};
    } else {
      RowsCellsSize(n - 1);
      RowSetSize(n - 1);
      RowsCellsGrow(n);
    }
  }

  lemma RowsCellsGrow(n: int)
    requires 0 < n <= 6
    ensures RowsCells(n) == RowsCells(n - 1) + RowSet(n - 1)
    ensures RowsCells(n - 1) * RowSet(n - 1) == {}
  {
  }

  /** A full grid has no empty cell and 36 filled ones. */
  lemma FullGridCounts(g: Grid)
    requires IsGrid(g) && Full(g)
    ensures ZeroCells(g) == {} && |NonZeroCells(g)| == 36
  {
    assert NonZeroCells(g) == RowsCells(6);
    RowsCellsSize(6);
  }
}
