/** The cells of a puzzle (Cell.kt): each cell knows its row, its column,
    whether the answer paints it, and what the player has marked on it.
    The cell list is updated functionally (`map`, `filter`, `find`); the
    hints of a row or column are computed by a counting loop. */
module Cells {
  import opened Seqs
  import opened RunLength
  import opened Transposer
  import opened Resolver

  /** What the player has marked on a cell. */
  datatype CellState = Empty | Painted | Checked

  datatype Cell = Cell(rowIndex: int, colIndex: int, answer: bool, state: CellState)

  // ---------------------------------------------------------------------
  // State transitions.

  /** `nextForceState`: pressing a mark on a cell clears it when it already
      holds that mark and sets the mark otherwise. */
  function NextForceState(current: CellState, nextCandidate: CellState): (s: CellState)
    ensures s == Empty <==> current == nextCandidate || nextCandidate == Empty
    ensures s != Empty ==> s == nextCandidate
  {
    if current == nextCandidate then Empty else nextCandidate
  }

  /** Pressing the same mark twice on an empty cell leaves it empty. */
  lemma ForceTwiceFromEmpty(nextCandidate: CellState)
    ensures NextForceState(NextForceState(Empty, nextCandidate), nextCandidate) == Empty
  {
  }

  /** `nextSuccessiveState`: dragging a mark across a cell. An empty cell
      takes the mark; a marked cell keeps its mark, except that dragging
      "erase" (`Empty`) over a cell holding the current paint mode clears
      it. */
  function NextSuccessiveState(current: CellState, nextCandidate: CellState, paintMode: CellState): (s: CellState)
    ensures current == Empty ==> s == nextCandidate
    ensures current != Empty ==> s == current || s == Empty
    ensures current != Empty && s == Empty <==>
      current != Empty && nextCandidate == Empty && current == paintMode
  {
    if current == Empty then nextCandidate
    else if nextCandidate == Empty && current == paintMode then Empty
    else current
  }

  /** Dragging over a cell again changes nothing more. */
  lemma SuccessiveIdempotent(current: CellState, nextCandidate: CellState, paintMode: CellState)
    ensures var once := NextSuccessiveState(current, nextCandidate, paintMode);
      NextSuccessiveState(once, nextCandidate, paintMode) == once
  {
  }

  // ---------------------------------------------------------------------
  // Building the cell list from a grid.

  /** The cells of row `r`, left to right, all unmarked. */
  function RowCells(row: Line, r: int): (cells: seq<Cell>)
    ensures |cells| == |row|
    ensures forall c :: 0 <= c < |row| ==> cells[c] == Cell(r, c, row[c], Empty)
  {
    seq(|row|, c requires 0 <= c < |row| => Cell(r, c, row[c], Empty))
  }

  /** The cells of rows `r ..` of the grid, row after row. */
  function CellsFrom(logicData: Grid, r: nat): (cells: seq<Cell>)
    requires r <= |logicData|
    ensures forall x :: x in cells ==>
      r <= x.rowIndex < |logicData| && 0 <= x.colIndex < |logicData[x.rowIndex]|
      && x.answer == logicData[x.rowIndex][x.colIndex] && x.state == Empty
    decreases |logicData| - r
  {
    if r == |logicData| then []
    else RowCells(logicData[r], r) + CellsFrom(logicData, r + 1)
  }

  /** `fromLogicData`: the cells of the grid, row-major, each at its own
      row and column, holding the grid's value there as its answer, and
      unmarked. */
  function FromLogicData(logicData: Grid): (cells: seq<Cell>)
    ensures forall x :: x in cells ==>
      0 <= x.rowIndex < |logicData| && 0 <= x.colIndex < |logicData[x.rowIndex]|
      && x.answer == logicData[x.rowIndex][x.colIndex] && x.state == Empty
  {
    CellsFrom(logicData, 0)
  }

  lemma {:induction false} CellsFromLength(logicData: Grid, rows: nat, cols: nat, r: nat)
    requires Rect(logicData, rows, cols) && r <= rows
    ensures |CellsFrom(logicData, r)| == (rows - r) * cols
    decreases rows - r
  {
    if r < rows {
      CellsFromLength(logicData, rows, cols, r + 1);
      MulStep(rows - (r + 1), cols);
    }
  }

  lemma {:induction false} CellsFromAt(logicData: Grid, rows: nat, cols: nat, r: nat, i: nat, c: nat)
    requires Rect(logicData, rows, cols) && r <= i < rows && c < cols
    ensures (i - r) * cols + c < |CellsFrom(logicData, r)|
    ensures CellsFrom(logicData, r)[(i - r) * cols + c] == Cell(i, c, logicData[i][c], Empty)
    decreases i - r
  {
    CellsFromLength(logicData, rows, cols, r);
    var head := RowCells(logicData[r], r);
    var tail := CellsFrom(logicData, r + 1);
    assert CellsFrom(logicData, r) == head + tail;
    if i == r {
      assert (i - r) * cols == 0;
      assert (head + tail)[c] == head[c];
    } else {
      CellsFromAt(logicData, rows, cols, r + 1, i, c);
      var j := (i - (r + 1)) * cols + c;
      MulStep(i - (r + 1), cols);
      assert (i - r) * cols + c == cols + j;
      assert (head + tail)[cols + j] == tail[j];
    }
  }

  lemma MulStep(a: nat, b: nat)
    ensures (a + 1) * b == b + a * b
  {
  }

  lemma MulBelow(i: nat, rows: nat, cols: nat, c: nat)
    requires i * cols + c < rows * cols
    ensures i < rows
  {
    if rows <= i {
      MulMono(rows, i, cols);
    }
  }

  lemma MulMono(a: nat, b: nat, n: nat)
    requires a <= b
    ensures a * n <= b * n
  {
  }

  /** Row-major layout: in the cells of an `rows` by `cols` grid, the cell
      at flat position `k` sits at row `k / cols` and column `k % cols`. */
  lemma FromLogicDataLayout(logicData: Grid, rows: nat, cols: nat)
    requires Rect(logicData, rows, cols)
    ensures |FromLogicData(logicData)| == rows * cols
    ensures forall k :: 0 <= k < rows * cols ==>
      0 <= k / cols < rows &&
      FromLogicData(logicData)[k] ==
        Cell(k / cols, k % cols, logicData[k / cols][k % cols], Empty)
  {
    CellsFromLength(logicData, rows, cols, 0);
    forall k | 0 <= k < rows * cols
      ensures 0 <= k / cols < rows
      ensures FromLogicData(logicData)[k] ==
        Cell(k / cols, k % cols, logicData[k / cols][k % cols], Empty)
    {
      LayoutAt(logicData, rows, cols, k);
    }
  }

  lemma LayoutAt(logicData: Grid, rows: nat, cols: nat, k: nat)
    requires Rect(logicData, rows, cols) && k < rows * cols
    ensures 0 <= k / cols < rows && k < |FromLogicData(logicData)|
    ensures FromLogicData(logicData)[k] == Cell(k / cols, k % cols, logicData[k / cols][k % cols], Empty)
  {
    assert cols > 0;
    var i, c := k / cols, k % cols;
    assert k == i * cols + c;
    MulBelow(i, rows, cols, c);
    CellsFromAt(logicData, rows, cols, 0, i, c);
  }

  // ---------------------------------------------------------------------
  // Queries on a cell list.

  /** `maxOf`: the largest value of `f` over a nonempty cell list. */
  function MaxOf(cells: seq<Cell>, f: Cell -> int): (m: int)
    requires cells != []
    ensures forall k :: 0 <= k < |cells| ==> f(cells[k]) <= m
    ensures exists k :: 0 <= k < |cells| && f(cells[k]) == m
  {
    if |cells| == 1 then f(cells[0])
    else
      var rest := MaxOf(cells[1..], f);
      assert forall k :: 1 <= k < |cells| ==> cells[k] == cells[1..][k - 1];
      if f(cells[0]) >= rest then f(cells[0]) else rest
  }

  /** `rowCount`: one more than the largest row index. */
  function RowCount(cells: seq<Cell>): (n: int)
    requires cells != []
    ensures forall k :: 0 <= k < |cells| ==> cells[k].rowIndex < n
    ensures exists k :: 0 <= k < |cells| && cells[k].rowIndex == n - 1
  {
    MaxOf(cells, (x: Cell) => x.rowIndex) + 1
  }

  /** `columnCount`: one more than the largest column index. */
  function ColumnCount(cells: seq<Cell>): (n: int)
    requires cells != []
    ensures forall k :: 0 <= k < |cells| ==> cells[k].colIndex < n
    ensures exists k :: 0 <= k < |cells| && cells[k].colIndex == n - 1
  {
    MaxOf(cells, (x: Cell) => x.colIndex) + 1
  }

  /** The cell sits at row `row` and column `col`. */
  predicate At(x: Cell, row: int, col: int) {
    x.rowIndex == row && x.colIndex == col
  }

  /** Some cell of the list sits at `(row, col)`. */
  predicate HasCell(cells: seq<Cell>, row: int, col: int) {
    exists k :: 0 <= k < |cells| && At(cells[k], row, col)
  }

  /** `cellState`: the state of the first cell at `(row, col)`, or `Empty`
      when there is none. */
  function CellStateAt(cells: seq<Cell>, row: int, col: int): CellState {
    if cells == [] then Empty
    else if At(cells[0], row, col) then cells[0].state
    else CellStateAt(cells[1..], row, col)
  }

  lemma {:induction false} CellStateFirst(cells: seq<Cell>, row: int, col: int, k: nat)
    requires k < |cells| && At(cells[k], row, col)
    requires forall j :: 0 <= j < k ==> !At(cells[j], row, col)
    ensures CellStateAt(cells, row, col) == cells[k].state
  {
    if k > 0 {
      CellStateFirst(cells[1..], row, col, k - 1);
    }
  }

  lemma {:induction false} CellStateMissing(cells: seq<Cell>, row: int, col: int)
    requires forall k :: 0 <= k < |cells| ==> !At(cells[k], row, col)
    ensures CellStateAt(cells, row, col) == Empty
  {
    if cells != [] {
      CellStateMissing(cells[1..], row, col);
    }
  }

  /** `rows`: the cells of row `index`, in list order. */
  function Rows(cells: seq<Cell>, index: int): (r: seq<Cell>)
    ensures forall x :: x in r ==> x in cells && x.rowIndex == index
    ensures forall x :: x in cells && x.rowIndex == index ==> x in r
  {
    if cells == [] then []
    else (if cells[0].rowIndex == index then [cells[0]] else []) + Rows(cells[1..], index)
  }

  /** `columns`: the cells of column `index`, in list order. */
  function Columns(cells: seq<Cell>, index: int): (r: seq<Cell>)
    ensures forall x :: x in r ==> x in cells && x.colIndex == index
    ensures forall x :: x in cells && x.colIndex == index ==> x in r
  {
    if cells == [] then []
    else (if cells[0].colIndex == index then [cells[0]] else []) + Columns(cells[1..], index)
  }

  /** The answers of the cells, in list order. */
  function Answers(cells: seq<Cell>): (line: Line)
    ensures |line| == |cells|
    ensures forall k :: 0 <= k < |cells| ==> line[k] == cells[k].answer
  {
    seq(|cells|, k requires 0 <= k < |cells| => cells[k].answer)
  }

  // ---------------------------------------------------------------------
  // Updates of a cell list.

  /** Same length, and position by position the same row, column and
      answer: only marks differ. */
  predicate SameLayout(a: seq<Cell>, b: seq<Cell>) {
    |a| == |b| &&
    forall k :: 0 <= k < |a| ==>
      a[k].rowIndex == b[k].rowIndex && a[k].colIndex == b[k].colIndex && a[k].answer == b[k].answer
  }

  /** `stateForceUpdated`: every cell at `(row, col)` takes `state`; every
      other cell is kept as it was. */
  function StateForceUpdated(cells: seq<Cell>, row: int, col: int, state: CellState): (r: seq<Cell>)
    ensures SameLayout(cells, r)
    ensures forall k :: 0 <= k < |cells| ==>
      if At(cells[k], row, col) then r[k].state == state else r[k] == cells[k]
  {
    if cells == [] then []
    else
      var rest := StateForceUpdated(cells[1..], row, col, state);
      var first := if At(cells[0], row, col) then cells[0].(state := state) else cells[0];
      assert forall k :: 1 <= k < |cells| ==>
        cells[k] == cells[1..][k - 1] && ([first] + rest)[k] == rest[k - 1];
      [first] + rest
  }

  /** `stateSuccessiveUpdated`: every cell at `(row, col)` moves on by
      `nextSuccessiveState`; every other cell is kept as it was. */
  function StateSuccessiveUpdated(cells: seq<Cell>, row: int, col: int, state: CellState,
                                  paintMode: CellState): (r: seq<Cell>)
    ensures SameLayout(cells, r)
    ensures forall k :: 0 <= k < |cells| ==>
      if At(cells[k], row, col)
      then r[k].state == NextSuccessiveState(cells[k].state, state, paintMode)
      else r[k] == cells[k]
  {
    if cells == [] then []
    else
      var rest := StateSuccessiveUpdated(cells[1..], row, col, state, paintMode);
      var first := if At(cells[0], row, col)
        then cells[0].(state := NextSuccessiveState(cells[0].state, state, paintMode))
        else cells[0];
      assert forall k :: 1 <= k < |cells| ==>
        cells[k] == cells[1..][k - 1] && ([first] + rest)[k] == rest[k - 1];
      [first] + rest
  }

  /** An update at a position no cell occupies leaves the list as it is. */
  lemma UpdateElsewhere(cells: seq<Cell>, row: int, col: int, state: CellState, paintMode: CellState)
    requires !HasCell(cells, row, col)
    ensures StateForceUpdated(cells, row, col, state) == cells
    ensures StateSuccessiveUpdated(cells, row, col, state, paintMode) == cells
  {
    var f := StateForceUpdated(cells, row, col, state);
    var s := StateSuccessiveUpdated(cells, row, col, state, paintMode);
    assert forall k :: 0 <= k < |cells| ==> f[k] == cells[k];
    assert forall k :: 0 <= k < |cells| ==> s[k] == cells[k];
  }

  /** After a forced update, the cell read back at `(row, col)` holds the
      new state, and the state read at any other position is unchanged. */
  lemma ForceUpdatedRead(cells: seq<Cell>, row: int, col: int, state: CellState, row': int, col': int)
    requires HasCell(cells, row, col)
    ensures CellStateAt(StateForceUpdated(cells, row, col, state), row, col) == state
    ensures (row', col') != (row, col) ==>
      CellStateAt(StateForceUpdated(cells, row, col, state), row', col') == CellStateAt(cells, row', col')
  {
    var r := StateForceUpdated(cells, row, col, state);
    var k := FirstAt(cells, row, col);
    CellStateFirst(r, row, col, k);
    if (row', col') != (row, col) {
      SameReadElsewhere(cells, r, row', col');
    }
  }

  /** The first position of a cell at `(row, col)`. */
  lemma FirstAt(cells: seq<Cell>, row: int, col: int) returns (k: nat)
    requires HasCell(cells, row, col)
    ensures k < |cells| && At(cells[k], row, col)
    ensures forall j :: 0 <= j < k ==> !At(cells[j], row, col)
  {
    k := 0;
    while !At(cells[k], row, col)
      invariant k < |cells|
      invariant exists i :: k <= i < |cells| && At(cells[i], row, col)
      invariant forall j :: 0 <= j < k ==> !At(cells[j], row, col)
      decreases |cells| - k
    {
      k := k + 1;
    }
  }

  /** Two lists with the same layout that agree on every cell at
      `(row, col)` read the same state there. */
  lemma {:induction false} SameReadElsewhere(a: seq<Cell>, b: seq<Cell>, row: int, col: int)
    requires SameLayout(a, b)
    requires forall k :: 0 <= k < |a| && At(a[k], row, col) ==> a[k] == b[k]
    ensures CellStateAt(a, row, col) == CellStateAt(b, row, col)
  {
    if a != [] {
      assert At(a[0], row, col) <==> At(b[0], row, col);
      SameReadElsewhere(a[1..], b[1..], row, col);
    }
  }

  /** `answered`: every cell shows its answer: painted when the answer
      paints it, checked otherwise. */
  function Answered(cells: seq<Cell>): (r: seq<Cell>)
    ensures SameLayout(cells, r)
    ensures forall k :: 0 <= k < |cells| ==>
      r[k].state == (if cells[k].answer then Painted else Checked)
  {
    seq(|cells|, k requires 0 <= k < |cells| =>
      cells[k].(state := if cells[k].answer then Painted else Checked))
  }

  /** `reset`: every mark is removed. */
  function Reset(cells: seq<Cell>): (r: seq<Cell>)
    ensures SameLayout(cells, r)
    ensures forall k :: 0 <= k < |cells| ==> r[k].state == Empty
  {
    seq(|cells|, k requires 0 <= k < |cells| => cells[k].(state := Empty))
  }

  /** Two lists with the same layout and the same marks are equal. */
  lemma SameCells(a: seq<Cell>, b: seq<Cell>)
    requires SameLayout(a, b)
    requires forall k :: 0 <= k < |a| ==> a[k].state == b[k].state
    ensures a == b
  {
    assert forall k :: 0 <= k < |a| ==> a[k] == b[k];
  }

  /** Resetting twice is resetting once, and resetting forgets the marks
      `answered` put: both only ever replace the marks. */
  lemma ResetIdempotent(cells: seq<Cell>)
    ensures Reset(Reset(cells)) == Reset(cells)
    ensures Reset(Answered(cells)) == Reset(cells)
  {
    SameCells(Reset(Reset(cells)), Reset(cells));
    SameCells(Reset(Answered(cells)), Reset(cells));
  }

  /** A freshly built cell list carries no mark, so resetting it changes
      nothing. */
  lemma ResetFresh(logicData: Grid)
    ensures Reset(FromLogicData(logicData)) == FromLogicData(logicData)
  {
    var cells := FromLogicData(logicData);
    forall k | 0 <= k < |cells|
      ensures Reset(cells)[k].state == cells[k].state
    {
      assert cells[k] in cells;
    }
    SameCells(Reset(cells), cells);
  }

  // ---------------------------------------------------------------------
  // Hints.

  /** `toHints`: scans the cells in order, counting the current run of
      painted answers and emitting it when an unpainted answer or the end
      of the list closes it. The hints are the maximal runs, in order, so
      they are positive and add up to the painted answers. */
  method ToHints(cells: seq<Cell>) returns (hints: seq<int>)
    ensures hints == Rle(Answers(cells))
    ensures AllPositive(hints)
    ensures Sum(hints) == CountPainted(Answers(cells))
  {
    ghost var line := Answers(cells);
    var hint: nat := 0;
    hints := [];
    ScanIsRle(line, 0);
    for k := 0 to |cells|
      invariant hints + Scan(line[k..], hint) == Rle(line)
    {
      assert line[k..][1..] == line[k + 1..];
      if cells[k].answer {
        hint := hint + 1;
      } else if hint > 0 {
        hints := hints + [hint];
        hint := 0;
      }
    }
    if hint > 0 {
      hints := hints + [hint];
    }
    RleSum(line);
  }

  /** The hints of row `r` of a cell list, as `toRowHints` lists them. */
  function RowHintsOf(cells: seq<Cell>, r: int): seq<int> {
    Rle(Answers(Rows(cells, r)))
  }

  /** The hints of column `c` of a cell list, as `toColumnHints` lists
      them. */
  function ColumnHintsOf(cells: seq<Cell>, c: int): seq<int> {
    Rle(Answers(Columns(cells, c)))
  }

  /** The hints of rows `0 .. n - 1`, or of columns `0 .. n - 1`. */
  function HintsList(cells: seq<Cell>, n: nat, byRow: bool): seq<seq<int>> {
    seq(n, i => if byRow then RowHintsOf(cells, i) else ColumnHintsOf(cells, i))
  }

  lemma HintsListStep(cells: seq<Cell>, n: nat, byRow: bool)
    ensures HintsList(cells, n + 1, byRow) ==
      HintsList(cells, n, byRow) + [if byRow then RowHintsOf(cells, n) else ColumnHintsOf(cells, n)]
  {
  }

  /** `toRowHints`: the hints of each row `0 .. rowCount - 1`. */
  method ToRowHints(cells: seq<Cell>) returns (hints: seq<seq<int>>)
    requires cells != []
    ensures |hints| == if RowCount(cells) > 0 then RowCount(cells) else 0
    ensures forall r :: 0 <= r < |hints| ==> hints[r] == RowHintsOf(cells, r)
  {
    var n := RowCount(cells);
    hints := [];
    for row := 0 to if n > 0 then n else 0
      invariant hints == HintsList(cells, row, true)
    {
      var h := ToHints(Rows(cells, row));
      HintsListStep(cells, row, true);
      hints := hints + [h];
    }
  }

  /** `toColumnHints`: the hints of each column `0 .. columnCount - 1`. */
  method ToColumnHints(cells: seq<Cell>) returns (hints: seq<seq<int>>)
    requires cells != []
    ensures |hints| == if ColumnCount(cells) > 0 then ColumnCount(cells) else 0
    ensures forall c :: 0 <= c < |hints| ==> hints[c] == ColumnHintsOf(cells, c)
  {
    var n := ColumnCount(cells);
    hints := [];
    for col := 0 to if n > 0 then n else 0
      invariant hints == HintsList(cells, col, false)
    {
      var h := ToHints(Columns(cells, col));
      HintsListStep(cells, col, false);
      hints := hints + [h];
    }
  }

  // ---------------------------------------------------------------------
  // The hints of the cells of a grid are the hints of the grid.

  lemma {:induction false} RowsAppend(a: seq<Cell>, b: seq<Cell>, index: int)
    ensures Rows(a + b, index) == Rows(a, index) + Rows(b, index)
  {
    if a == [] {
      assert a + b == b;
    } else {
      assert (a + b)[1..] == a[1..] + b;
      RowsAppend(a[1..], b, index);
    }
  }

  lemma {:induction false} ColumnsAppend(a: seq<Cell>, b: seq<Cell>, index: int)
    ensures Columns(a + b, index) == Columns(a, index) + Columns(b, index)
  {
    if a == [] {
      assert a + b == b;
    } else {
      assert (a + b)[1..] == a[1..] + b;
      ColumnsAppend(a[1..], b, index);
    }
  }

  /** The cells of one row all belong to that row. */
  lemma {:induction false} RowsOfRow(row: Line, r: int, index: int, from: nat)
    requires from <= |row|
    ensures Rows(RowCells(row, r)[from..], index) == if r == index then RowCells(row, r)[from..] else []
    decreases |row| - from
  {
    var s := RowCells(row, r)[from..];
    if from < |row| {
      RowsOfRow(row, r, index, from + 1);
      assert s[1..] == RowCells(row, r)[from + 1..];
      if r == index {
        assert s == [s[0]] + s[1..];
      }
    }
  }

  /** Of the cells of one row, column `index` holds the one cell at that
      column, if the row reaches it. */
  lemma {:induction false} ColumnsOfRow(row: Line, r: int, index: int, from: nat)
    requires from <= |row|
    ensures Columns(RowCells(row, r)[from..], index) ==
      if from <= index < |row| then [Cell(r, index, row[index], Empty)] else []
    decreases |row| - from
  {
    var s := RowCells(row, r)[from..];
    if from < |row| {
      ColumnsOfRow(row, r, index, from + 1);
      assert s[1..] == RowCells(row, r)[from + 1..];
    }
  }

  lemma {:induction false} RowsOfCells(logicData: Grid, r: nat, index: int)
    requires r <= |logicData|
    ensures Rows(CellsFrom(logicData, r), index) ==
      if r <= index < |logicData| then RowCells(logicData[index], index) else []
    decreases |logicData| - r
  {
    if r < |logicData| {
      var row := RowCells(logicData[r], r);
      RowsAppend(row, CellsFrom(logicData, r + 1), index);
      RowsOfCells(logicData, r + 1, index);
      RowsOfRow(logicData[r], r, index, 0);
      assert row[0..] == row;
    }
  }

  /** The cells of column `index` of the grid's rows `r ..`, top to
      bottom. */
  function ColumnCells(logicData: Grid, r: nat, index: nat): (cells: seq<Cell>)
    requires r <= |logicData|
    requires forall i :: 0 <= i < |logicData| ==> index < |logicData[i]|
    ensures |cells| == |logicData| - r
    ensures forall k :: 0 <= k < |cells| ==>
      cells[k] == Cell(r + k, index, logicData[r + k][index], Empty)
    decreases |logicData| - r
  {
    if r == |logicData| then []
    else [Cell(r, index, logicData[r][index], Empty)] + ColumnCells(logicData, r + 1, index)
  }

  lemma {:induction false} ColumnsOfCells(logicData: Grid, r: nat, index: nat)
    requires r <= |logicData|
    requires forall i :: 0 <= i < |logicData| ==> index < |logicData[i]|
    ensures Columns(CellsFrom(logicData, r), index) == ColumnCells(logicData, r, index)
    decreases |logicData| - r
  {
    if r < |logicData| {
      var row := RowCells(logicData[r], r);
      ColumnsAppend(row, CellsFrom(logicData, r + 1), index);
      ColumnsOfCells(logicData, r + 1, index);
      ColumnsOfRow(logicData[r], r, index, 0);
      assert row[0..] == row;
    }
  }

  /** Row `i` of the cells of a grid holds the grid's row `i` as answers,
      and column `j` its column `j`. */
  lemma LinesOfCells(logicData: Grid, rows: nat, cols: nat)
    requires Rect(logicData, rows, cols)
    ensures forall i :: 0 <= i < rows ==> Answers(Rows(FromLogicData(logicData), i)) == logicData[i]
    ensures forall j :: 0 <= j < cols ==> Answers(Columns(FromLogicData(logicData), j)) == Column(logicData, j)
  {
    forall i | 0 <= i < rows
      ensures Answers(Rows(FromLogicData(logicData), i)) == logicData[i]
    {
      RowsOfCells(logicData, 0, i);
    }
    forall j | 0 <= j < cols
      ensures Answers(Columns(FromLogicData(logicData), j)) == Column(logicData, j)
    {
      ColumnsOfCells(logicData, 0, j);
    }
  }

  /** The cells of a grid with at least one row and one column count as
      many rows and columns as the grid. */
  lemma CountsOfCells(logicData: Grid, rows: nat, cols: nat)
    requires Rect(logicData, rows, cols) && rows >= 1 && cols >= 1
    ensures FromLogicData(logicData) != []
    ensures RowCount(FromLogicData(logicData)) == rows
    ensures ColumnCount(FromLogicData(logicData)) == cols
  {
    var cells := FromLogicData(logicData);
    CellsFromAt(logicData, rows, cols, 0, rows - 1, cols - 1);
    var last := (rows - 1) * cols + (cols - 1);
    assert cells[last] == Cell(rows - 1, cols - 1, logicData[rows - 1][cols - 1], Empty);
    forall k | 0 <= k < |cells|
      ensures cells[k].rowIndex < rows && cells[k].colIndex < cols
    {
      assert cells[k] in cells;
    }
  }

  /** The hints the cells of a grid give are the grid's own row and column
      hints. */
  lemma HintsOfCells(logicData: Grid, rows: nat, cols: nat)
    requires Rect(logicData, rows, cols) && rows >= 1 && cols >= 1
    ensures FromLogicData(logicData) != []
    ensures RowCount(FromLogicData(logicData)) == rows
    ensures ColumnCount(FromLogicData(logicData)) == cols
    ensures forall i :: 0 <= i < rows ==> RowHintsOf(FromLogicData(logicData), i) == RowHints(logicData)[i]
    ensures forall j :: 0 <= j < cols ==> ColumnHintsOf(FromLogicData(logicData), j) == ColumnHints(logicData, cols)[j]
  {
    CountsOfCells(logicData, rows, cols);
    LinesOfCells(logicData, rows, cols);
    var cells := FromLogicData(logicData);
    forall i | 0 <= i < rows
      ensures RowHintsOf(cells, i) == RowHints(logicData)[i]
    {
      assert Answers(Rows(cells, i)) == logicData[i];
    }
    forall j | 0 <= j < cols
      ensures ColumnHintsOf(cells, j) == ColumnHints(logicData, cols)[j]
    {
      assert Answers(Columns(cells, j)) == Column(logicData, j);
    }
  }
}
