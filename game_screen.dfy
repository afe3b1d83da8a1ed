/** The state logic of the play screen (GameScreen.kt): the player's marks
    on the cells, the cursor moved by the directional controller, the paint
    and check buttons, touch mode, and the "cleared" flag. Rendering and
    gesture geometry are not modelled; each event handler is a method. */
module GameScreen {
  import opened Seqs
  import opened Transposer
  import opened Cells

  /** The directions the controller reports; `None` when the press has no
      direction. */
  datatype Direction = Up | Down | Left | Right | None

  /** The puzzle is solved: a cell is painted exactly when its answer
      paints it (a checked or empty cell stands for an unpainted one). */
  predicate IsCleared(cells: seq<Cell>) {
    forall k :: 0 <= k < |cells| ==>
      (cells[k].state == Painted && cells[k].answer) || (cells[k].state != Painted && !cells[k].answer)
  }

  /** Showing every answer solves the puzzle. */
  lemma AnsweredIsCleared(cells: seq<Cell>)
    ensures IsCleared(Answered(cells))
  {
  }

  /** A fresh puzzle counts as solved only when its answer paints no
      cell. */
  lemma FreshCleared(logicData: Grid, rows: nat, cols: nat)
    requires Rect(logicData, rows, cols)
    ensures IsCleared(FromLogicData(logicData)) <==>
      forall r, c :: 0 <= r < rows && 0 <= c < cols ==> !logicData[r][c]
  {
    var cells := FromLogicData(logicData);
    if IsCleared(cells) {
      forall r, c | 0 <= r < rows && 0 <= c < cols
        ensures !logicData[r][c]
      {
        CellsFromAt(logicData, rows, cols, 0, r, c);
        assert cells[r * cols + c].answer == logicData[r][c];
      }
    }
    if forall r, c :: 0 <= r < rows && 0 <= c < cols ==> !logicData[r][c] {
      forall k | 0 <= k < |cells|
        ensures cells[k].state != Painted && !cells[k].answer
      {
        assert cells[k] in cells;
      }
    }
  }

  /** Both indices lie in `0 ..= maxIndex`. */
  predicate InRange(row: int, col: int, maxIndex: int) {
    0 <= row <= maxIndex && 0 <= col <= maxIndex
  }

  /** The selection after a direction press: with no selection yet, any
      press selects the top-left cell; otherwise the press moves one step,
      wrapping from one edge to the other. */
  function NextSelection(row: int, col: int, d: Direction, maxIndex: int): (s: (int, int))
    ensures row == -1 || col == -1 ==> s == (0, 0)
    ensures row != -1 && col != -1 && d == None ==> s == (row, col)
    ensures InRange(row, col, maxIndex) ==> InRange(s.0, s.1, maxIndex)
  {
    if col == -1 || row == -1 then (0, 0)
    else
      match d
      case Up => (if row > 0 then row - 1 else maxIndex, col)
      case Down => (if row < maxIndex then row + 1 else 0, col)
      case Left => (row, if col > 0 then col - 1 else maxIndex)
      case Right => (row, if col < maxIndex then col + 1 else 0)
      case None => (row, col)
  }

  /** One step back and one step forward on `0 ..= maxIndex`, wrapping at
      both ends, are subtraction and addition modulo `maxIndex + 1`. */
  lemma WrapSteps(i: int, maxIndex: int)
    requires 0 <= i <= maxIndex
    ensures (if i > 0 then i - 1 else maxIndex) == (i - 1) % (maxIndex + 1)
    ensures (if i < maxIndex then i + 1 else 0) == (i + 1) % (maxIndex + 1)
  {
    var n := maxIndex + 1;
    if i == 0 {
      assert i - 1 == -1 * n + maxIndex;
    }
    if i == maxIndex {
      assert i + 1 == 1 * n + 0;
    }
  }

  /** From a cell of the grid, a direction press moves the cursor by one
      row or column modulo the size: the cursor runs round the grid. */
  lemma SelectionWraps(row: int, col: int, maxIndex: int)
    requires InRange(row, col, maxIndex)
    ensures NextSelection(row, col, Up, maxIndex) == ((row - 1) % (maxIndex + 1), col)
    ensures NextSelection(row, col, Down, maxIndex) == ((row + 1) % (maxIndex + 1), col)
    ensures NextSelection(row, col, Left, maxIndex) == (row, (col - 1) % (maxIndex + 1))
    ensures NextSelection(row, col, Right, maxIndex) == (row, (col + 1) % (maxIndex + 1))
  {
    WrapSteps(row, maxIndex);
    WrapSteps(col, maxIndex);
  }

  /** Up then Down, or Down then Up, returns to the same cell; likewise
      Left and Right. */
  lemma OppositeMovesCancel(row: int, col: int, maxIndex: int)
    requires InRange(row, col, maxIndex)
    ensures var s := NextSelection(row, col, Up, maxIndex);
      NextSelection(s.0, s.1, Down, maxIndex) == (row, col)
    ensures var s := NextSelection(row, col, Down, maxIndex);
      NextSelection(s.0, s.1, Up, maxIndex) == (row, col)
    ensures var s := NextSelection(row, col, Left, maxIndex);
      NextSelection(s.0, s.1, Right, maxIndex) == (row, col)
    ensures var s := NextSelection(row, col, Right, maxIndex);
      NextSelection(s.0, s.1, Left, maxIndex) == (row, col)
  {
  }

  /** A cursor that a drag left off the grid (any index but -1 outside
      `0 ..= maxIndex`) is not wrapped: Up and Down step a row past the
      bottom edge by one or send it to row 0, and a row above the top edge
      to the last row or one step down; Left and Right do the same to the
      column. So one press towards the grid brings an off-grid index back
      onto it. */
  lemma OffGridSteps(row: int, col: int, maxIndex: int)
    requires maxIndex >= 0 && row != -1 && col != -1
    ensures row > maxIndex ==>
      NextSelection(row, col, Up, maxIndex) == (row - 1, col)
      && NextSelection(row, col, Down, maxIndex) == (0, col)
    ensures row < -1 ==>
      NextSelection(row, col, Up, maxIndex) == (maxIndex, col)
      && NextSelection(row, col, Down, maxIndex) == (row + 1, col)
    ensures col > maxIndex ==>
      NextSelection(row, col, Left, maxIndex) == (row, col - 1)
      && NextSelection(row, col, Right, maxIndex) == (row, 0)
    ensures col < -1 ==>
      NextSelection(row, col, Left, maxIndex) == (row, maxIndex)
      && NextSelection(row, col, Right, maxIndex) == (row, col + 1)
  {
  }

  /** Lists with the same layout have the same row count. */
  lemma SameLayoutRowCount(a: seq<Cell>, b: seq<Cell>)
    requires SameLayout(a, b) && a != []
    ensures b != [] && RowCount(a) == RowCount(b)
  {
    assert |b| == |a|;
    RowCountBelow(a, b);
    RowCountBelow(b, a);
  }

  lemma RowCountBelow(a: seq<Cell>, b: seq<Cell>)
    requires |a| == |b| && a != []
    requires forall k :: 0 <= k < |a| ==> a[k].rowIndex == b[k].rowIndex
    ensures RowCount(a) <= RowCount(b)
  {
    var n := RowCount(a);
    var i :| 0 <= i < |a| && a[i].rowIndex == n - 1;
    assert b[i].rowIndex == n - 1;
  }

  lemma SameLayoutTrans(a: seq<Cell>, b: seq<Cell>, c: seq<Cell>)
    requires SameLayout(a, b) && SameLayout(b, c)
    ensures SameLayout(a, c)
  {
  }

  /** The remembered state of the screen. */
  class Screen {
    /** The cells of the puzzle as first shown. */
    const originalData: seq<Cell>
    var data: seq<Cell>
    /** The mark a drag or a held button writes. */
    var changingTo: CellState
    /** The mark the buttons (or the touch palette) paint with. */
    var paintMode: CellState
    /** A button is held: moving the cursor marks the cells it reaches. */
    var isSuccessive: bool
    var selectedRowIndex: int
    var selectedColumnIndex: int
    var touchMode: bool
    var cleared: bool

    /** The marks keep the original layout and there is at least one row.
        The cursor is not constrained: a touch or a drag past the edge of
        the field stores whatever row and column it converts to. */
    predicate Valid()
      reads this
    {
      originalData != [] && RowCount(originalData) >= 1 && SameLayout(originalData, data)
    }

    /** The screen as it opens on a puzzle. */
    constructor (logicData: Grid)
      requires FromLogicData(logicData) != []
      ensures Valid()
      ensures originalData == FromLogicData(logicData) && data == originalData
      ensures changingTo == Empty && paintMode == Painted && !isSuccessive
      ensures selectedRowIndex == -1 && selectedColumnIndex == -1
      ensures !touchMode && !cleared
    {
      ghost var cells := FromLogicData(logicData);
      ghost var k :| 0 <= k < |cells| && cells[k].rowIndex == RowCount(cells) - 1;
      assert cells[k] in cells;
      originalData := FromLogicData(logicData);
      data := FromLogicData(logicData);
      changingTo := Empty;
      paintMode := Painted;
      isSuccessive := false;
      selectedRowIndex := -1;
      selectedColumnIndex := -1;
      touchMode := false;
      cleared := false;
    }

    /** `updateData`: takes the new cells and sets the cleared flag when
        they solve the puzzle; it never lowers the flag. */
    method UpdateData(newData: seq<Cell>)
      requires Valid() && SameLayout(data, newData)
      modifies this
      ensures Valid()
      ensures data == newData
      ensures cleared == (old(cleared) || IsCleared(newData))
      ensures changingTo == old(changingTo) && paintMode == old(paintMode)
      ensures isSuccessive == old(isSuccessive) && touchMode == old(touchMode)
      ensures selectedRowIndex == old(selectedRowIndex) && selectedColumnIndex == old(selectedColumnIndex)
    {
      SameLayoutTrans(originalData, data, newData);
      data := newData;
      if IsCleared(data) {
        cleared := true;
      }
    }

    /** `onTouchModeChange`: switches the input mode and drops the
        cursor. */
    method OnTouchModeChange(mode: bool)
      requires Valid()
      modifies this
      ensures Valid()
      ensures touchMode == mode
      ensures selectedRowIndex == -1 && selectedColumnIndex == -1
      ensures data == old(data) && cleared == old(cleared)
      ensures changingTo == old(changingTo) && paintMode == old(paintMode)
      ensures isSuccessive == old(isSuccessive)
    {
      touchMode := mode;
      selectedRowIndex := -1;
      selectedColumnIndex := -1;
    }

    /** `onPaintModeChange`: picks the mark of the touch palette. */
    method OnPaintModeChange(mode: CellState)
      requires Valid()
      modifies this
      ensures Valid()
      ensures paintMode == mode
      ensures data == old(data) && cleared == old(cleared)
      ensures changingTo == old(changingTo) && isSuccessive == old(isSuccessive)
      ensures touchMode == old(touchMode)
      ensures selectedRowIndex == old(selectedRowIndex) && selectedColumnIndex == old(selectedColumnIndex)
    {
      paintMode := mode;
    }

    /** The cursor step of `onDirectionPress`: the source's `when` over
        the direction, with one less than the row count as the bound of
        both indices. */
    method MoveCursor(d: Direction)
      requires Valid()
      modifies this
      ensures Valid()
      ensures (selectedRowIndex, selectedColumnIndex) ==
        NextSelection(old(selectedRowIndex), old(selectedColumnIndex), d, RowCount(data) - 1)
      ensures data == old(data) && cleared == old(cleared)
      ensures changingTo == old(changingTo) && paintMode == old(paintMode)
      ensures isSuccessive == old(isSuccessive) && touchMode == old(touchMode)
    {
      SameLayoutRowCount(originalData, data);
      var maxIndex := RowCount(data) - 1;
      var next := NextSelection(selectedRowIndex, selectedColumnIndex, d, maxIndex);
      selectedRowIndex, selectedColumnIndex := next.0, next.1;
    }

    /** The drag step of `onDirectionPress`: the held mark moves on to the
        cell under the cursor by `NextSuccessiveState`. */
    method DragOnCursor()
      requires Valid()
      modifies this
      ensures Valid()
      ensures data == StateSuccessiveUpdated(old(data), selectedRowIndex, selectedColumnIndex, changingTo, paintMode)
      ensures cleared == (old(cleared) || IsCleared(data))
      ensures changingTo == old(changingTo) && paintMode == old(paintMode)
      ensures isSuccessive == old(isSuccessive) && touchMode == old(touchMode)
      ensures selectedRowIndex == old(selectedRowIndex) && selectedColumnIndex == old(selectedColumnIndex)
    {
      UpdateData(StateSuccessiveUpdated(data, selectedRowIndex, selectedColumnIndex, changingTo, paintMode));
    }

    /** `onDirectionPress`: moves the cursor and, while a button is held,
        drags the held mark onto the cell reached; the marks change only
        then. */
    method OnDirectionPress(d: Direction)
      requires Valid()
      modifies this
      ensures Valid()
      ensures (selectedRowIndex, selectedColumnIndex) ==
        NextSelection(old(selectedRowIndex), old(selectedColumnIndex), d, RowCount(old(data)) - 1)
      ensures old(isSuccessive) ==>
        data == StateSuccessiveUpdated(old(data), selectedRowIndex, selectedColumnIndex, changingTo, paintMode)
        && cleared == (old(cleared) || IsCleared(data))
      ensures !old(isSuccessive) ==> data == old(data) && cleared == old(cleared)
      ensures changingTo == old(changingTo) && paintMode == old(paintMode)
      ensures isSuccessive == old(isSuccessive) && touchMode == old(touchMode)
    {
      MoveCursor(d);
      if isSuccessive {
        DragOnCursor();
      }
    }

    /** The press of the paint or the check button, which share their
        logic: the button's mark becomes the paint mode, the cell under
        the cursor toggles between that mark and `Empty`, and the mark
        written is held for the next cursor moves. */
    method PressMark(mark: CellState)
      requires Valid()
      modifies this
      ensures Valid()
      ensures paintMode == mark && isSuccessive
      ensures changingTo == NextForceState(CellStateAt(old(data), selectedRowIndex, selectedColumnIndex), mark)
      ensures data == StateForceUpdated(old(data), selectedRowIndex, selectedColumnIndex, changingTo)
      ensures cleared == (old(cleared) || IsCleared(data))
      ensures HasCell(old(data), selectedRowIndex, selectedColumnIndex) ==>
        CellStateAt(data, selectedRowIndex, selectedColumnIndex) ==
          if CellStateAt(old(data), selectedRowIndex, selectedColumnIndex) == mark then Empty else mark
      ensures !HasCell(old(data), selectedRowIndex, selectedColumnIndex) ==> data == old(data)
      ensures selectedRowIndex == old(selectedRowIndex) && selectedColumnIndex == old(selectedColumnIndex)
      ensures touchMode == old(touchMode)
    {
      paintMode := mark;
      changingTo := NextForceState(CellStateAt(data, selectedRowIndex, selectedColumnIndex), paintMode);
      ghost var before := data;
      var updated := StateForceUpdated(data, selectedRowIndex, selectedColumnIndex, changingTo);
      if HasCell(before, selectedRowIndex, selectedColumnIndex) {
        ForceUpdatedRead(before, selectedRowIndex, selectedColumnIndex, changingTo, selectedRowIndex, selectedColumnIndex);
      } else {
        UpdateElsewhere(before, selectedRowIndex, selectedColumnIndex, changingTo, paintMode);
      }
      UpdateData(updated);
      isSuccessive := true;
    }

    /** `onPaintButtonPress`: `PressMark` with the `Painted` mark. */
    method OnPaintButtonPress()
      requires Valid()
      modifies this
      ensures Valid()
      ensures paintMode == Painted && isSuccessive
      ensures changingTo == NextForceState(CellStateAt(old(data), selectedRowIndex, selectedColumnIndex), Painted)
      ensures data == StateForceUpdated(old(data), selectedRowIndex, selectedColumnIndex, changingTo)
      ensures cleared == (old(cleared) || IsCleared(data))
      ensures HasCell(old(data), selectedRowIndex, selectedColumnIndex) ==>
        CellStateAt(data, selectedRowIndex, selectedColumnIndex) ==
          if CellStateAt(old(data), selectedRowIndex, selectedColumnIndex) == Painted then Empty else Painted
      ensures selectedRowIndex == old(selectedRowIndex) && selectedColumnIndex == old(selectedColumnIndex)
      ensures touchMode == old(touchMode)
    {
      PressMark(Painted);
    }

    /** `onCheckButtonPress`: `PressMark` with the `Checked` mark. */
    method OnCheckButtonPress()
      requires Valid()
      modifies this
      ensures Valid()
      ensures paintMode == Checked && isSuccessive
      ensures changingTo == NextForceState(CellStateAt(old(data), selectedRowIndex, selectedColumnIndex), Checked)
      ensures data == StateForceUpdated(old(data), selectedRowIndex, selectedColumnIndex, changingTo)
      ensures cleared == (old(cleared) || IsCleared(data))
      ensures HasCell(old(data), selectedRowIndex, selectedColumnIndex) ==>
        CellStateAt(data, selectedRowIndex, selectedColumnIndex) ==
          if CellStateAt(old(data), selectedRowIndex, selectedColumnIndex) == Checked then Empty else Checked
      ensures selectedRowIndex == old(selectedRowIndex) && selectedColumnIndex == old(selectedColumnIndex)
      ensures touchMode == old(touchMode)
    {
      PressMark(Checked);
    }

    /** The release of the paint or the check button (`onPaintButtonRemove`,
        `onCheckButtonRemove`): nothing is held any more. */
    method ReleaseMark()
      requires Valid()
      modifies this
      ensures Valid()
      ensures changingTo == Empty && !isSuccessive
      ensures data == old(data) && cleared == old(cleared) && paintMode == old(paintMode)
      ensures touchMode == old(touchMode)
      ensures selectedRowIndex == old(selectedRowIndex) && selectedColumnIndex == old(selectedColumnIndex)
    {
      changingTo := Empty;
      isSuccessive := false;
    }

    /** `startPaint` of the field in touch mode: the touched cell toggles
        like a button press with the palette's mark, which is then held
        for the drag; outside touch mode the touch moves the cursor. The
        touched position may lie off the grid, where no cell changes. */
    method StartPaint(row: int, col: int)
      requires Valid()
      modifies this
      ensures Valid()
      ensures touchMode ==>
        changingTo == NextForceState(CellStateAt(old(data), row, col), paintMode)
        && data == StateForceUpdated(old(data), row, col, changingTo)
        && cleared == (old(cleared) || IsCleared(data))
        && selectedRowIndex == old(selectedRowIndex) && selectedColumnIndex == old(selectedColumnIndex)
      ensures touchMode && !HasCell(old(data), row, col) ==> data == old(data)
      ensures !touchMode ==>
        selectedRowIndex == row && selectedColumnIndex == col
        && data == old(data) && cleared == old(cleared) && changingTo == old(changingTo)
      ensures touchMode == old(touchMode) && paintMode == old(paintMode)
      ensures isSuccessive == old(isSuccessive)
    {
      if touchMode {
        changingTo := NextForceState(CellStateAt(data, row, col), paintMode);
        if !HasCell(data, row, col) {
          UpdateElsewhere(data, row, col, changingTo, paintMode);
        }
        UpdateData(StateForceUpdated(data, row, col, changingTo));
      } else {
        selectedRowIndex := row;
        selectedColumnIndex := col;
      }
    }

    /** `paint` of the field in touch mode: the dragged-over cell takes the
        held mark by `NextSuccessiveState`; outside touch mode the drag
        moves the cursor. */
    method Paint(row: int, col: int)
      requires Valid()
      modifies this
      ensures Valid()
      ensures touchMode ==>
        data == StateSuccessiveUpdated(old(data), row, col, changingTo, paintMode)
        && cleared == (old(cleared) || IsCleared(data))
        && selectedRowIndex == old(selectedRowIndex) && selectedColumnIndex == old(selectedColumnIndex)
      ensures touchMode && !HasCell(old(data), row, col) ==> data == old(data)
      ensures !touchMode ==>
        selectedRowIndex == row && selectedColumnIndex == col
        && data == old(data) && cleared == old(cleared)
      ensures touchMode == old(touchMode) && paintMode == old(paintMode)
      ensures changingTo == old(changingTo) && isSuccessive == old(isSuccessive)
    {
      if touchMode {
        if !HasCell(data, row, col) {
          UpdateElsewhere(data, row, col, changingTo, paintMode);
        }
        UpdateData(StateSuccessiveUpdated(data, row, col, changingTo, paintMode));
      } else {
        selectedRowIndex := row;
        selectedColumnIndex := col;
      }
    }

    /** `onReset` of the clear dialog: the original cells come back and the
        flag is lowered. The `nextGame` callback is not modelled. */
    method OnReset()
      requires Valid()
      modifies this
      ensures Valid()
      ensures data == originalData && !cleared
      ensures changingTo == old(changingTo) && paintMode == old(paintMode)
      ensures isSuccessive == old(isSuccessive) && touchMode == old(touchMode)
      ensures selectedRowIndex == old(selectedRowIndex) && selectedColumnIndex == old(selectedColumnIndex)
    {
      data := originalData;
      cleared := false;
    }
  }
}
