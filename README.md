# Nonogram engine, modelled in Dafny

This project models the core of an Android nonogram ("logic paint") game.
A puzzle is a square grid of cells, each painted or not. Every row and
every column is labelled with its *hints*: the lengths of its maximal runs
of painted cells, in order. The model covers four parts of the game:

- **Line and grid enumeration** (`Resolver.kt`). The enumeration lists every
  line of a given length that has given hints, marking and un-marking a
  scratch array as it goes. It then expands one candidate list per row (or
  per column) into whole grids, using a push/pop working list. It also
  transposes the column-built grids.
- **The solver** `resolve`. It keeps the grids that are built from the row
  hints and also from the column hints.
- **The cell list** (`Cell.kt`). This is the flat, row-major list of cells
  that the screen shows. It carries the mark transitions, the functional
  updates, and the counting loop that turns a line of cells into hints.
- **The generator** (`LogicCreator.kt`) and **the screen state**
  (`GameScreen.kt`). The generator accepts a sampled grid only when it
  passes a density filter and is the unique solution of its own hints. The
  screen state holds the cursor, the paint and check buttons, touch mode and
  the cleared flag.

Each operation is written in the form the source uses:

- Recursive searches and loops are methods. They are proved against
  functions that specify them:
  - `Tails` is the lines of a length with given hints;
  - `Product` is the grids that pick one candidate per list;
  - `Transpose` and `SolutionSet` do what their names say;
  - `Rle` is the hints of a line.
- The scratch `BooleanArray` is an `array<bool>`. The `currentPattern`
  working list is the class `PatternStack`.
- The Compose state of the screen is the class `GameScreen.Screen`, with one
  method per event handler.
- The spec functions then carry the lemmas that state what the source
  promises:
  - enumeration is sound, complete and without repetition;
  - a grid is among the solutions of its own hints;
  - an accepted puzzle has exactly one solution;
  - eligibility means some cell is forced.

Files: `seqs.dfy` (shared sequence helpers), `run_length.dfy`,
`line_patterns.dfy`, `expander.dfy`, `transpose.dfy`, `resolver.dfy`,
`cell.dfy`, `logic_creator.dfy`, `game_screen.dfy`.

## Model

Source paths are under `app/src/main/java/com/kenzo/logicbase/`.

| member | source | states |
|---|---|---|
| RunLength.Rle | app/src/main/java/com/kenzo/logicbase/Cell.kt:84-99 | The hints of a line are positive, and there are no more of them than cells. |
| RunLength.ScanIsRle | app/src/main/java/com/kenzo/logicbase/Cell.kt:84-99 | The `toHints` scan, resumed with a pending run of `run` painted cells, emits that run merged with the leading run of the rest, then the maximal runs of the rest. |
| RunLength.RleEmptyIff | app/src/main/java/com/kenzo/logicbase/Cell.kt:84-99 | A line has no hints exactly when no cell of it is painted. |
| RunLength.RleSum | app/src/main/java/com/kenzo/logicbase/Cell.kt:84-99 | The hints of a line add up to its number of painted cells. |
| RunLength.RleMinLength | app/src/main/java/com/kenzo/logicbase/Resolver.kt:44-47 | The hints of a line, packed with single gaps, fit in the line. |
| LinePatterns.SplitFirstRun | app/src/main/java/com/kenzo/logicbase/Resolver.kt:44-53 | A line with nonempty hints is a gap, its first run, the gap after it (unless the run ends the line), then a rest that has the remaining hints. |
| LinePatterns.TailsSound | app/src/main/java/com/kenzo/logicbase/Resolver.kt:31-61 | Every line the enumeration lists has the requested length, and its hints are exactly the requested numbers. |
| LinePatterns.TailsComplete | app/src/main/java/com/kenzo/logicbase/Resolver.kt:44-60 | Every line of the requested length with the requested hints is listed. |
| LinePatterns.TailsDistinct | app/src/main/java/com/kenzo/logicbase/Resolver.kt:44-60 | No line is listed twice. |
| LinePatterns.TailsTooShort | app/src/main/java/com/kenzo/logicbase/Resolver.kt:44-47 | When the hints packed with single gaps are longer than the line, no line is listed, and nothing fails. |
| LinePatterns.Restored | app/src/main/java/com/kenzo/logicbase/Resolver.kt:48-58 | Painting a run after the search start and then erasing it gives back the scratch array unchanged. |
| LinePatterns.SetRun | app/src/main/java/com/kenzo/logicbase/Resolver.kt:48-50 | The marking loop sets exactly the cells `[from, to)` to the value. Every other cell is unchanged. The erasing loop at lines 56-58 is the same method with `false`. |
| LinePatterns.GeneratePatterns | app/src/main/java/com/kenzo/logicbase/Resolver.kt:31-61 | It appends to `patterns` every line that starts with the array's first `startIndex` cells and finishes with a filling of the remaining hints. It leaves the scratch array as it found it. |
| LinePatterns.GeneratePaintedPatterns | app/src/main/java/com/kenzo/logicbase/Resolver.kt:24-29 | The result holds exactly the lines of `size` cells whose hints are `numbers`, with no repetition. Empty hints give the single all-unpainted line. Hints too long for the line give no line. |
| Expander.ProductSize | app/src/main/java/com/kenzo/logicbase/Resolver.kt:65-91 | The number of grids is the product of the candidate-list sizes. |
| Expander.NoCandidate | app/src/main/java/com/kenzo/logicbase/Resolver.kt:84-90 | A list with no candidate leaves no grid. |
| Expander.ProductSound | app/src/main/java/com/kenzo/logicbase/Resolver.kt:73-91 | Every expanded grid takes one candidate from each list, in order. |
| Expander.ProductComplete | app/src/main/java/com/kenzo/logicbase/Resolver.kt:73-91 | Every grid that takes one candidate from each list is expanded. |
| Expander.ProductDistinct | app/src/main/java/com/kenzo/logicbase/Resolver.kt:73-91 | When no list repeats a candidate, no grid is expanded twice. |
| Expander.PatternStack.constructor | app/src/main/java/com/kenzo/logicbase/Resolver.kt:68 | The working list starts empty. |
| Expander.GeneratePattern | app/src/main/java/com/kenzo/logicbase/Resolver.kt:73-91 | It appends, after the picks already on the working list, every pick from the lists from `currentPosition` on. Each push is matched by a pop, so the working list is restored. |
| Expander.Patterns | app/src/main/java/com/kenzo/logicbase/Resolver.kt:65-71 | The result is exactly the grids that pick one candidate per list, and its size is the product of the list sizes. |
| Transposer.Transpose | app/src/main/java/com/kenzo/logicbase/Resolver.kt:93-106 | The transposed grid has one row per column of the first row. Each of its rows has one cell per input row, and cell `[c][r]` is input cell `[r][c]`. |
| Transposer.TransposeTwice | app/src/main/java/com/kenzo/logicbase/Resolver.kt:93-106 | Transposing a nonempty rectangular grid twice gives it back. |
| Transposer.TransposeLists | app/src/main/java/com/kenzo/logicbase/Resolver.kt:93-106 | The nested loops over a `false`-filled grid produce the transposed grid. |
| Resolver.CandidateGrids | app/src/main/java/com/kenzo/logicbase/Resolver.kt:8-11 | Every grid built from the row candidates has one row of `count` cells per hint list, and each row fits its hints. |
| Resolver.GridOfCandidates | app/src/main/java/com/kenzo/logicbase/Resolver.kt:8-11 | Every such grid is built from the row candidates. |
| Resolver.ColumnGridsMember | app/src/main/java/com/kenzo/logicbase/Resolver.kt:13-18 | A grid is among the transposed column-built grids exactly when it has `count` rows and one column per column hint list, and each column fits its hints. |
| Resolver.SolutionSetIsSolutions | app/src/main/java/com/kenzo/logicbase/Resolver.kt:5-21 | For a square puzzle, the intersection holds exactly the grids whose rows and columns all have the given hints. |
| Resolver.OwnHintsSolved | app/src/main/java/com/kenzo/logicbase/Resolver.kt:5-21 | A square grid is among the solutions of its own row and column hints. |
| Resolver.NonSquareUnsolved | app/src/main/java/com/kenzo/logicbase/Resolver.kt:6-20 | For a puzzle with rows whose column count differs from its row count, the result is empty. Both axes use `count = rowHints.size` cells. |
| Resolver.Candidates | app/src/main/java/com/kenzo/logicbase/Resolver.kt:8-10 | There is one candidate list per hint list. `LineCandidates` proves each is that list's enumeration. |
| Resolver.LineCandidates | app/src/main/java/com/kenzo/logicbase/Resolver.kt:8-10 | The `map` of `generatePaintedPatterns` over the hint lists gives each list's enumeration. |
| Resolver.Resolve | app/src/main/java/com/kenzo/logicbase/Resolver.kt:5-21 | For a square puzzle, the result holds exactly the grids that solve it. A non-square puzzle gives the empty set. |
| Cells.NextForceState | app/src/main/java/com/kenzo/logicbase/Cell.kt:30-34 | The result is `Empty` exactly when the cell already holds the mark, or the mark is `Empty`. Otherwise it is the mark. |
| Cells.ForceTwiceFromEmpty | app/src/main/java/com/kenzo/logicbase/Cell.kt:30-34 | Pressing the same mark twice on an empty cell leaves it empty. |
| Cells.NextSuccessiveState | app/src/main/java/com/kenzo/logicbase/Cell.kt:36-44 | An empty cell takes the dragged mark. A marked cell keeps its mark, except that it is cleared exactly when the drag erases and the cell holds the paint mode. |
| Cells.SuccessiveIdempotent | app/src/main/java/com/kenzo/logicbase/Cell.kt:36-44 | Dragging over a cell a second time changes nothing. |
| Cells.FromLogicData | app/src/main/java/com/kenzo/logicbase/Cell.kt:15-19 | Every cell sits inside the grid, carries the grid's value there as its answer, and is unmarked. |
| Cells.FromLogicDataLayout | app/src/main/java/com/kenzo/logicbase/Cell.kt:15-19 | For an `rows` by `cols` grid the list has `rows * cols` cells. The cell at flat position `k` is at row `k / cols` and column `k % cols`. |
| Cells.MaxOf | app/src/main/java/com/kenzo/logicbase/Cell.kt:47-49 | `maxOf` is an upper bound of `f` over the list, and some cell attains it. |
| Cells.RowCount | app/src/main/java/com/kenzo/logicbase/Cell.kt:49 | Every row index is below the count, and some cell has row index `count - 1`. |
| Cells.ColumnCount | app/src/main/java/com/kenzo/logicbase/Cell.kt:47 | The same as `RowCount`, for column indices. |
| Cells.CountsOfCells | app/src/main/java/com/kenzo/logicbase/Cell.kt:47-49 | The cells of a nonempty `rows` by `cols` grid count `rows` rows and `cols` columns. |
| Cells.CellStateFirst | app/src/main/java/com/kenzo/logicbase/Cell.kt:53-54 | `cellState` reads the state of the first cell at the position. |
| Cells.CellStateMissing | app/src/main/java/com/kenzo/logicbase/Cell.kt:53-54 | With no cell at the position, `cellState` is `Empty`. |
| Cells.Rows | app/src/main/java/com/kenzo/logicbase/Cell.kt:80 | The filter keeps exactly the cells of the row. |
| Cells.Columns | app/src/main/java/com/kenzo/logicbase/Cell.kt:82 | The filter keeps exactly the cells of the column. |
| Cells.LinesOfCells | app/src/main/java/com/kenzo/logicbase/Cell.kt:80-82 | On the cells of a grid, the answers of row `i` are grid row `i`, and the answers of column `j` are grid column `j`. |
| Cells.StateForceUpdated | app/src/main/java/com/kenzo/logicbase/Cell.kt:56-62 | Cells at the position take the new state. Every other cell is unchanged, and positions and answers are kept. |
| Cells.StateSuccessiveUpdated | app/src/main/java/com/kenzo/logicbase/Cell.kt:64-70 | Cells at the position move on by `nextSuccessiveState`. Every other cell is unchanged, and positions and answers are kept. |
| Cells.UpdateElsewhere | app/src/main/java/com/kenzo/logicbase/Cell.kt:56-70 | An update at a position that no cell occupies returns the list unchanged. |
| Cells.ForceUpdatedRead | app/src/main/java/com/kenzo/logicbase/Cell.kt:53-62 | After a forced update, `cellState` at the position reads the new state, and at every other position reads what it read before. |
| Cells.Answered | app/src/main/java/com/kenzo/logicbase/Cell.kt:72-74 | Each cell is `Painted` when its answer is true and `Checked` otherwise. The layout is kept. |
| Cells.Reset | app/src/main/java/com/kenzo/logicbase/Cell.kt:76-78 | Every cell is `Empty`, and the layout is kept. |
| Cells.ResetIdempotent | app/src/main/java/com/kenzo/logicbase/Cell.kt:72-78 | `reset` is idempotent, and it erases what `answered` wrote. |
| Cells.ResetFresh | app/src/main/java/com/kenzo/logicbase/Cell.kt:76-78 | Resetting a freshly built cell list changes nothing. |
| Cells.Answers | app/src/main/java/com/kenzo/logicbase/Cell.kt:87-88 | The line `toHints` scans is the cells' answers, one per cell, in order. |
| Cells.ToHints | app/src/main/java/com/kenzo/logicbase/Cell.kt:84-99 | The counting loop returns the maximal runs of true answers, in order. They are all positive and add up to the number of true answers. |
| Cells.ToRowHints | app/src/main/java/com/kenzo/logicbase/Cell.kt:101-103 | There is one hint list per row `0 .. rowCount - 1`, and each is the hints of that row's answers. |
| Cells.ToColumnHints | app/src/main/java/com/kenzo/logicbase/Cell.kt:105-107 | There is one hint list per column `0 .. columnCount - 1`, and each is the hints of that column's answers. |
| Cells.HintsOfCells | app/src/main/java/com/kenzo/logicbase/Cell.kt:101-107 | On the cells of a nonempty grid, the row and column hint lists are the grid's own row and column hints. |
| Creator.Reduce | app/src/main/java/com/kenzo/logicbase/LogicCreator.kt:43 | The `reduce` that starts from the first hint and adds each further hint plus one equals the hints' length packed with single gaps. |
| Creator.FirstPaintable | app/src/main/java/com/kenzo/logicbase/LogicCreator.kt:41-45 | A line is eligible exactly when its hints are nonempty and some hint is longer than the margin. The margin is `dataSize` minus the packed length. |
| Creator.PackedEligible | app/src/main/java/com/kenzo/logicbase/LogicCreator.kt:41-45 | A line packed exactly (margin 0) with nonempty hints is eligible. |
| Creator.ForcedCell | app/src/main/java/com/kenzo/logicbase/LogicCreator.kt:41-45 | When hint `i` is longer than the margin, the cell `margin` past the leftmost start of run `i` is painted in every line with those hints. |
| Creator.EligibleForces | app/src/main/java/com/kenzo/logicbase/LogicCreator.kt:41-45 | A solvable eligible line has a cell that every one of its fillings paints. |
| Creator.Eligible | app/src/main/java/com/kenzo/logicbase/LogicCreator.kt:39 | The filter keeps exactly the eligible hint lists. It keeps each eligible list as many times as it occurs, so its size is the count `paintableRate` divides. |
| Creator.AllEligible | app/src/main/java/com/kenzo/logicbase/LogicCreator.kt:39 | When every list is eligible, the filter keeps them all. |
| Creator.AcceptedIsUnique | app/src/main/java/com/kenzo/logicbase/LogicCreator.kt:20-35 | An accepted grid is the only grid that solves its own hints. |
| Creator.CreateAndTestify | app/src/main/java/com/kenzo/logicbase/LogicCreator.kt:20-35 | The sampled grid is returned exactly when both rates pass and its hints have at most one solution. It is returned unchanged. |
| Creator.FirstAcceptedSound | app/src/main/java/com/kenzo/logicbase/LogicCreator.kt:12-18 | What `create` returns is a sample that is accepted and the unique solution of its hints. Nothing is returned only when no sample is accepted. |
| Creator.Create | app/src/main/java/com/kenzo/logicbase/LogicCreator.kt:12-18 | The loop returns the first accepted sample. |
| GameScreen.AnsweredIsCleared | app/src/main/java/com/kenzo/logicbase/GameScreen.kt:62-67 | Cells carrying their answers (`answered`) always pass the cleared check. |
| GameScreen.FreshCleared | app/src/main/java/com/kenzo/logicbase/GameScreen.kt:62-67 | A fresh puzzle passes the cleared check exactly when its answer paints no cell. |
| GameScreen.NextSelection | app/src/main/java/com/kenzo/logicbase/GameScreen.kt:120-145 | With either index at -1, any press (including `None`) selects `(0, 0)`. `None` keeps a set selection. A selection in range stays in range. |
| GameScreen.SelectionWraps | app/src/main/java/com/kenzo/logicbase/GameScreen.kt:125-141 | From a selection in range, Up/Down move the row and Left/Right move the column by minus or plus one, modulo `maxIndex + 1`. Up at row 0 wraps to `maxIndex`, and Down at `maxIndex` wraps to 0. |
| GameScreen.OppositeMovesCancel | app/src/main/java/com/kenzo/logicbase/GameScreen.kt:125-141 | Up then Down, Down then Up, Left then Right and Right then Left each return to the same cell. |
| GameScreen.OffGridSteps | app/src/main/java/com/kenzo/logicbase/GameScreen.kt:125-141 | A cursor left off the grid by a drag is not wrapped. Past the last row, Up moves it one row back and Down sends it to row 0. Above row -1, Up sends it to the last row and Down moves it one row on. Left and Right do the same to the column. |
| GameScreen.SameLayoutRowCount | app/src/main/java/com/kenzo/logicbase/GameScreen.kt:125 | Marking cells does not change `rowCount`, so the cursor bound stays the same. |
| GameScreen.Screen.constructor | app/src/main/java/com/kenzo/logicbase/GameScreen.kt:51-60 | The initial state: unmarked cells, nothing held, paint mode `Painted`, no selection, touch mode off, not cleared. |
| GameScreen.Screen.UpdateData | app/src/main/java/com/kenzo/logicbase/GameScreen.kt:62-67 | It stores the new cells. `cleared` becomes old `cleared` or "every cell is painted exactly when its answer is true", so it is never lowered. |
| GameScreen.Screen.OnTouchModeChange | app/src/main/java/com/kenzo/logicbase/GameScreen.kt:105-109 | It sets the touch mode and resets the selection to `(-1, -1)`. Nothing else changes. |
| GameScreen.Screen.OnPaintModeChange | app/src/main/java/com/kenzo/logicbase/GameScreen.kt:115 | It sets the paint mode. Nothing else changes. |
| GameScreen.Screen.MoveCursor | app/src/main/java/com/kenzo/logicbase/GameScreen.kt:121-145 | The selection becomes `NextSelection` with `rowCount - 1` as the bound. The cells are unchanged. |
| GameScreen.Screen.DragOnCursor | app/src/main/java/com/kenzo/logicbase/GameScreen.kt:146-155 | The newly selected cell moves on by `stateSuccessiveUpdated` with the held mark, and the cleared check runs. |
| GameScreen.Screen.OnDirectionPress | app/src/main/java/com/kenzo/logicbase/GameScreen.kt:120-156 | The selection moves as `NextSelection` says. The cells change only while a button is held, and then only at the new selection, by `stateSuccessiveUpdated`. |
| GameScreen.Screen.PressMark | app/src/main/java/com/kenzo/logicbase/GameScreen.kt:157-174 | The shared logic of the two button presses (see the next two rows). |
| GameScreen.Screen.OnPaintButtonPress | app/src/main/java/com/kenzo/logicbase/GameScreen.kt:157-163 | It sets the paint mode to `Painted` and sets `isSuccessive`. The selected cell reads `Empty` if it was `Painted` and `Painted` otherwise. The held mark is the state written. |
| GameScreen.Screen.OnCheckButtonPress | app/src/main/java/com/kenzo/logicbase/GameScreen.kt:168-174 | The same as the paint press, with `Checked`. |
| GameScreen.Screen.ReleaseMark | app/src/main/java/com/kenzo/logicbase/GameScreen.kt:164-167 | The held mark becomes `Empty` and `isSuccessive` is cleared. Nothing else changes. `onCheckButtonRemove` (lines 175-178) is the same handler. |
| GameScreen.Screen.StartPaint | app/src/main/java/com/kenzo/logicbase/GameScreen.kt:77-85 | In touch mode, the touched cell toggles with the palette's mark, which is then held, and a touch off the grid changes no cell. Otherwise the touch moves the selection to the touched row and column, on or off the grid. |
| GameScreen.Screen.Paint | app/src/main/java/com/kenzo/logicbase/GameScreen.kt:86-94 | In touch mode, the dragged-over cell moves on by `stateSuccessiveUpdated`, and a drag off the grid changes no cell. Otherwise the drag moves the selection to the dragged-over row and column, on or off the grid. |
| GameScreen.Screen.OnReset | app/src/main/java/com/kenzo/logicbase/GameScreen.kt:183-187 | The original cells come back and `cleared` is lowered. This is the only handler that lowers it. |

Every `Screen` method except `UpdateData` requires and keeps `Valid()`:

- the cells keep the original layout;
- there is at least one row.

The selection is not constrained. A drag past the edge of the field stores
an off-grid row or column, as the source does. `NextSelection` keeps a
selection inside the grid, and `OffGridSteps` says how presses treat one
outside it.

`UpdateData` requires `Valid()` and a new list with the old layout, and it keeps `Valid()`.

These definitions have no row of their own. The rows above characterise them:

- `Cells.CellStateAt` is `cellState` (Cell.kt lines 53-54). `CellStateFirst`,
  `CellStateMissing` and `ForceUpdatedRead` pin it down.
- `Cells.HasCell` says that the `find` of `cellState` succeeds. It is used by
  `ForceUpdatedRead` and `UpdateElsewhere`.
- `RunLength.Scan` is the loop of `toHints` (Cell.kt lines 85-98). `ScanIsRle`
  and the loop invariant of `Cells.ToHints` pin it down.
- `GameScreen.IsCleared` is the cleared test of `updateData` (GameScreen.kt
  line 64). `AnsweredIsCleared` and `FreshCleared` pin it down.
- `Creator.RateTooLow` is `paintableRate() < 0.3f` (LogicCreator.kt lines
  25-30). `Eligible` and `AllEligible` pin it down.
- `Creator.Accepts` is the accept rule of `createAndTestify` (LogicCreator.kt
  lines 20-35). `CreateAndTestify` and `AcceptedIsUnique` pin it down.
- `Creator.FirstAccepted` is the retry loop of `create` (LogicCreator.kt lines
  12-18). `Create` and `FirstAcceptedSound` pin it down.
- `Resolver.SolutionSet` is the intersection of `resolve` (Resolver.kt lines
  5-21). `SolutionSetIsSolutions` and `Resolve` pin it down.

## Left out

- **Rendering and layout.** All of the Compose code is left out:
  - `Display`, `Field`, `Selection`, `ClearDialog`, `DebugButtons`;
  - ControllerComponent.kt (gestures, the repeat loop with its delay, direction geometry);
  - DrawScopeExtensions.kt;
  - MainActivity.kt.

  These are UI, timing and floating point.
- **Touch coordinates.** The conversion of a touch position from pixels to a
  cell is left out. `StartPaint` and `Paint` take the converted row and
  column as parameters. They may be any integers, including positions off
  the grid.
- **Random grids.** The random sampling of `createLogicData`
  (LogicCreator.kt:37) is a parameter: the sampled grid, or in `Create` the
  sequence of grids that would be drawn.
- Creator.Create: the source retries forever. The model tries a finite
  sequence of samples and returns `None` when it runs out. The source never
  returns null, and its termination is not modelled.
- Creator.RateTooLow: `paintableRate() < 0.3f` is modelled as the exact
  integer comparison `10 * eligible < 3 * dataSize`. The rounding of the
  `Float` division and of `0.3f` is not modelled.
- Creator.EligibleForces: proves only one direction. An eligible, solvable
  line has a forced cell. The converse (a line that is not eligible has no
  forced cell) is not stated.
- **Hint values.** Hint values are required to be positive (`AllPositive`,
  `WellFormedHints`). The hints the game feeds in come from `toHints`, which
  only emits positive runs (`Cells.ToHints`). Zero or negative hints are not
  modelled.
- Resolver.Resolve: requires at least one column hint list, because
  `transposeLists` reads `lists[0]` and would fail on a grid with no
  columns.
- **Integer width.** Kotlin's 32-bit `Int` arithmetic is modelled as
  unbounded integers. Grid sizes are far below any overflow.
- **The `nextGame` callback** of `onReset` calls out of the screen, and is
  not modelled.
- **`maxCount`** (Cell.kt:51) is used only by the rendering, and is not
  modelled.
- **`rememberUpdatedState`.** Recomposing the screen with new `logicData`
  would refresh `originalData`. The model fixes `originalData` when the
  screen is built.
- GameScreen.Screen.MoveCursor: the source computes `rowCount` only when a
  selection exists. The model always computes it; with at least one cell the
  result is the same.
- GameScreen.Screen.constructor: requires at least one cell, because
  `rowCount` and `columnCount` (Kotlin `maxOf`) throw on an empty list, and
  the screen's drawing and the directional handler call them.
