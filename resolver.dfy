/** `Resolver.resolve` of Resolver.kt: every grid whose rows fit the row
    hints and whose columns fit the column hints, found by expanding the
    line candidates of the rows into grids, doing the same for the columns
    and transposing, and intersecting the two. */
module Resolver {
  import opened Seqs
  import opened RunLength
  import opened LinePatterns
  import opened Expander
  import opened Transposer

  /** Every hint list is a list of positive run lengths. */
  predicate WellFormedHints(hints: seq<seq<int>>) {
    forall i :: 0 <= i < |hints| ==> AllPositive(hints[i])
  }

  /** The hints of each row of a grid. */
  function RowHints(g: Grid): (hints: seq<seq<int>>)
    ensures |hints| == |g| && WellFormedHints(hints)
  {
    seq(|g|, r requires 0 <= r < |g| => Rle(g[r]))
  }

  /** The hints of each column of a grid with `cols` columns. */
  function ColumnHints(g: Grid, cols: nat): (hints: seq<seq<int>>)
    requires forall r :: 0 <= r < |g| ==> |g[r]| == cols
    ensures |hints| == cols && WellFormedHints(hints)
  {
    seq(cols, c requires 0 <= c < cols => Rle(Column(g, c)))
  }

  /** `g` solves the puzzle: one row per row hint, one column per column
      hint, and every row and column has exactly its hints as runs. */
  predicate Solves(g: Grid, rowHints: seq<seq<int>>, colHints: seq<seq<int>>) {
    Rect(g, |rowHints|, |colHints|)
    && (forall r :: 0 <= r < |g| ==> Rle(g[r]) == rowHints[r])
    && (forall c :: 0 <= c < |colHints| ==> Rle(Column(g, c)) == colHints[c])
  }

  /** The candidate lines of `size` cells for each hint list. */
  function Candidates(size: nat, hints: seq<seq<int>>): (cs: seq<seq<Line>>)
    requires WellFormedHints(hints)
    ensures |cs| == |hints|
  {
    seq(|hints|, i requires 0 <= i < |hints| => Tails(size, hints[i]))
  }

  /** Every grid of the expansion of the candidates has one line of `size`
      cells per hint list, fitting that list. */
  lemma CandidateGrids(size: nat, hints: seq<seq<int>>, g: Grid)
    requires WellFormedHints(hints)
    requires g in Product(Candidates(size, hints))
    ensures Rect(g, |hints|, size)
    ensures forall i :: 0 <= i < |hints| ==> Rle(g[i]) == hints[i]
  {
    var cs := Candidates(size, hints);
    ProductSound(cs);
    assert Picks(g, cs);
    forall i | 0 <= i < |hints|
      ensures |g[i]| == size && Rle(g[i]) == hints[i]
    {
      TailsSound(size, hints[i]);
      assert g[i] in Tails(size, hints[i]);
    }
  }

  /** A grid with one line of `size` cells per hint list, fitting it, is
      in the expansion of the candidates. */
  lemma GridOfCandidates(size: nat, hints: seq<seq<int>>, g: Grid)
    requires WellFormedHints(hints)
    requires Rect(g, |hints|, size)
    requires forall i :: 0 <= i < |hints| ==> Rle(g[i]) == hints[i]
    ensures g in Product(Candidates(size, hints))
  {
    var cs := Candidates(size, hints);
    forall i | 0 <= i < |g|
      ensures g[i] in cs[i]
    {
      TailsComplete(size, hints[i], g[i]);
    }
    ProductComplete(cs, g);
  }

  /** The grids built from the column candidates, turned back into
      row-major grids. */
  function ColumnGrids(size: nat, colHints: seq<seq<int>>): seq<Grid>
    requires WellFormedHints(colHints) && |colHints| >= 1
  {
    var grids := Product(Candidates(size, colHints));
    seq(|grids|, i requires 0 <= i < |grids| =>
      CandidateGrids(size, colHints, grids[i]);
      Transpose(grids[i]))
  }

  /** The solution set `resolve` returns: the row-built grids that are
      also column-built grids. Both axes use lines of `|rowHints|` cells. */
  function SolutionSet(rowHints: seq<seq<int>>, colHints: seq<seq<int>>): set<Grid>
    requires WellFormedHints(rowHints) && WellFormedHints(colHints) && |colHints| >= 1
  {
    var count := |rowHints|;
    var rowGrids := Product(Candidates(count, rowHints));
    set g | g in ColumnGrids(count, colHints) && g in rowGrids
  }

  /** A grid is a column-built grid exactly when it has `size` rows, one
      column per column hint list, and its columns fit those lists. */
  lemma ColumnGridsMember(size: nat, colHints: seq<seq<int>>, g: Grid)
    requires WellFormedHints(colHints) && |colHints| >= 1
    ensures g in ColumnGrids(size, colHints) <==>
      Rect(g, size, |colHints|)
      && forall c :: 0 <= c < |colHints| ==> Rle(Column(g, c)) == colHints[c]
  {
    var grids := Product(Candidates(size, colHints));
    var cols := ColumnGrids(size, colHints);
    if g in cols {
      var i :| 0 <= i < |grids| && cols[i] == g;
      CandidateGrids(size, colHints, grids[i]);
      TransposeColumns(grids[i]);
      forall c | 0 <= c < |colHints|
        ensures Rle(Column(g, c)) == colHints[c]
      {
        assert Column(g, c) == grids[i][c];
      }
    }
    if Rect(g, size, |colHints|)
       && forall c :: 0 <= c < |colHints| ==> Rle(Column(g, c)) == colHints[c]
    {
      var t := ColumnsOf(g, size, |colHints|);
      GridOfCandidates(size, colHints, t);
      var i :| 0 <= i < |grids| && grids[i] == t;
      assert cols[i] == g;
    }
  }

  /** The grid of the columns of a rectangular grid: transposable, and
      transposed back it is the grid again. */
  lemma ColumnsOf(g: Grid, rows: nat, cols: nat) returns (t: Grid)
    requires Rect(g, rows, cols) && cols >= 1
    ensures Rect(t, cols, rows) && Transposable(t)
    ensures forall c :: 0 <= c < cols ==> t[c] == Column(g, c)
    ensures Transpose(t) == g
  {
    t := seq(cols, c requires 0 <= c < cols => Column(g, c));
    if rows >= 1 {
      TransposeColumns(g);
      TransposeTwice(g, rows, cols);
      assert t == Transpose(g);
    }
  }

  /** The solution set of a square puzzle holds exactly the grids that
      solve it. */
  lemma SolutionSetIsSolutions(rowHints: seq<seq<int>>, colHints: seq<seq<int>>, g: Grid)
    requires WellFormedHints(rowHints) && WellFormedHints(colHints)
    requires |rowHints| == |colHints| >= 1
    ensures g in SolutionSet(rowHints, colHints) <==> Solves(g, rowHints, colHints)
  {
    var count := |rowHints|;
    ColumnGridsMember(count, colHints, g);
    if g in Product(Candidates(count, rowHints)) {
      CandidateGrids(count, rowHints, g);
    }
    if Solves(g, rowHints, colHints) {
      GridOfCandidates(count, rowHints, g);
    }
  }

  /** Hint round trip: a square grid is among the solutions of its own
      hints. */
  lemma OwnHintsSolved(g: Grid, n: nat)
    requires Rect(g, n, n) && n >= 1
    ensures g in SolutionSet(RowHints(g), ColumnHints(g, n))
  {
    SolutionSetIsSolutions(RowHints(g), ColumnHints(g, n), g);
  }

  /** For a puzzle with more than zero rows and a different number of
      columns, no grid is found: the row lines are `|rowHints|` cells long
      and the column-built grids have `|colHints|` columns. */
  lemma NonSquareUnsolved(rowHints: seq<seq<int>>, colHints: seq<seq<int>>)
    requires WellFormedHints(rowHints) && WellFormedHints(colHints) && |colHints| >= 1
    requires |rowHints| != |colHints| && |rowHints| >= 1
    ensures SolutionSet(rowHints, colHints) == {}
  {
    var count := |rowHints|;
    forall g | g in SolutionSet(rowHints, colHints)
      ensures false
    {
      ColumnGridsMember(count, colHints, g);
      CandidateGrids(count, rowHints, g);
    }
  }

  /** `rowHints.map { generatePaintedPatterns(count, it) }`, and the same
      for the columns. */
  method LineCandidates(count: nat, hints: seq<seq<int>>) returns (cs: seq<seq<Line>>)
    requires WellFormedHints(hints)
    ensures cs == Candidates(count, hints)
  {
    cs := [];
    for i := 0 to |hints|
      invariant |cs| == i
      invariant forall k :: 0 <= k < i ==> cs[k] == Tails(count, hints[k])
    {
      var patterns := GeneratePaintedPatterns(count, hints[i]);
      cs := cs + [patterns];
    }
  }

  /** `resolve`: the grids of `|rowHints|` rows whose rows and columns fit
      the hints, for a square puzzle; none for a puzzle with a different
      number of columns. */
  method Resolve(rowHints: seq<seq<int>>, colHints: seq<seq<int>>) returns (solutions: set<Grid>)
    requires WellFormedHints(rowHints) && WellFormedHints(colHints) && |colHints| >= 1
    ensures solutions == SolutionSet(rowHints, colHints)
    ensures |rowHints| == |colHints| ==>
      forall g :: g in solutions <==> Solves(g, rowHints, colHints)
    ensures |rowHints| != |colHints| && |rowHints| >= 1 ==> solutions == {}
  {
    var count := |rowHints|;
    var rowPatterns := LineCandidates(count, rowHints);
    var patternsFromRowNumbers := Patterns(rowPatterns);
    var colPatterns := LineCandidates(count, colHints);
    var colGrids := Patterns(colPatterns);
    var patternsFromColNumbers: seq<Grid> := [];
    for i := 0 to |colGrids|
      invariant |patternsFromColNumbers| == i
      invariant forall k :: 0 <= k < i ==> patternsFromColNumbers[k] == ColumnGrids(count, colHints)[k]
    {
      CandidateGrids(count, colHints, colGrids[i]);
      var t := TransposeLists(colGrids[i]);
      patternsFromColNumbers := patternsFromColNumbers + [t];
    }
    assert patternsFromColNumbers == ColumnGrids(count, colHints);
    solutions := set g | g in patternsFromColNumbers && g in patternsFromRowNumbers;
    if |rowHints| == |colHints| {
      forall g ensures g in solutions <==> Solves(g, rowHints, colHints) {
        SolutionSetIsSolutions(rowHints, colHints, g);
      }
    } else if |rowHints| >= 1 {
      NonSquareUnsolved(rowHints, colHints);
    }
  }
}
