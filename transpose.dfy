/** `transposeLists` of Resolver.kt: swaps the rows and the columns of a
    grid, so that the grids built from column candidates can be compared
    with the grids built from row candidates. */
module Transposer {
  import opened Seqs

  /** The grid has at least one row and no row is shorter than the first:
      what `transposeLists` needs, since it reads `lists[0]` for the column
      count and then every `lists[row][col]` below it. */
  predicate Transposable(g: Grid) {
    g != [] && forall r :: 0 <= r < |g| ==> |g[0]| <= |g[r]|
  }

  /** `rows` rows of `cols` cells each. */
  predicate Rect(g: Grid, rows: nat, cols: nat) {
    |g| == rows && forall r :: 0 <= r < |g| ==> |g[r]| == cols
  }

  /** Column `c` of the grid, top to bottom. */
  function Column(g: Grid, c: nat): (col: Line)
    requires forall r :: 0 <= r < |g| ==> c < |g[r]|
    ensures |col| == |g|
    ensures forall r :: 0 <= r < |g| ==> col[r] == g[r][c]
  {
    seq(|g|, r requires 0 <= r < |g| => g[r][c])
  }

  /** The transposed grid: one row per column of the first row, holding
      that column. */
  function Transpose(g: Grid): (t: Grid)
    requires Transposable(g)
    ensures Rect(t, |g[0]|, |g|)
    ensures forall c, r :: 0 <= c < |g[0]| && 0 <= r < |g| ==> t[c][r] == g[r][c]
  {
    seq(|g[0]|, c requires 0 <= c < |g[0]| => Column(g, c))
  }

  /** The rows of the transposed grid are the columns of the grid. */
  lemma TransposeColumns(g: Grid)
    requires Transposable(g)
    ensures forall c :: 0 <= c < |g[0]| ==> Transpose(g)[c] == Column(g, c)
  {
  }

  /** Transposing a rectangular grid with at least one column twice gives
      it back. */
  lemma TransposeTwice(g: Grid, rows: nat, cols: nat)
    requires Rect(g, rows, cols) && rows >= 1 && cols >= 1
    ensures Transposable(Transpose(g))
    ensures Transpose(Transpose(g)) == g
  {
    var t := Transpose(g);
    assert Rect(t, cols, rows);
    var tt := Transpose(t);
    assert Rect(tt, rows, cols);
    forall r | 0 <= r < rows
      ensures tt[r] == g[r]
    {
      forall c | 0 <= c < cols
        ensures tt[r][c] == g[r][c]
      {
        assert tt[r][c] == t[c][r];
      }
    }
  }

  /** `transposeLists`: fills a `numCols` by `numRows` grid of `false`
      cell by cell, row by row of the input. */
  method TransposeLists(lists: Grid) returns (transposedLists: Grid)
    requires Transposable(lists)
    ensures transposedLists == Transpose(lists)
  {
    var numRows := |lists|;
    var numCols := |lists[0]|;
    transposedLists := seq(numCols, _ => Fill(numRows, false));
    var row := 0;
    while row < numRows
      invariant row <= numRows
      invariant Rect(transposedLists, numCols, numRows)
      invariant forall c, r :: 0 <= c < numCols && 0 <= r < numRows ==>
        transposedLists[c][r] == if r < row then lists[r][c] else false
    {
      var col := 0;
      while col < numCols
        invariant col <= numCols
        invariant Rect(transposedLists, numCols, numRows)
        invariant forall c, r :: 0 <= c < numCols && 0 <= r < numRows ==>
          transposedLists[c][r] ==
            if r < row || (r == row && c < col) then lists[r][c] else false
      {
        ghost var prev := transposedLists;
        transposedLists := transposedLists[col := transposedLists[col][row := lists[row][col]]];
        assert transposedLists[col][row] == lists[row][col];
        assert forall c, r :: 0 <= c < numCols && 0 <= r < numRows && (c != col || r != row) ==>
          transposedLists[c][r] == prev[c][r];
        col := col + 1;
      }
      row := row + 1;
    }
    var t := Transpose(lists);
    forall c | 0 <= c < numCols
      ensures transposedLists[c] == t[c]
    {
      assert forall r :: 0 <= r < numRows ==> transposedLists[c][r] == t[c][r];
    }
  }
}
