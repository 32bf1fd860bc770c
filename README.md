# Sudoku engine of SudokuGame, modelled in Dafny

`sudoku.py` is a Tkinter Sudoku game. Its engine, inside the class
`SudokuGame`, has three parts:

- a grid engine over a 9x9 integer board. It has the legality check
  `_is_safe`, the row-major scan `_find_empty_location`, and the randomized
  depth-first backtracking `_fill_board`. The fill writes into the board in
  place and returns a success flag.
- a generator. `generate_new_game` fills an all-zero board and keeps it as
  `base_board` and `solved_board`. `_remove_numbers` then clears shuffled
  cells of a copy to make `puzzle_board`. `_get_removal_count` picks how many
  cells to clear.
- a solve request. `solve_current_game` runs the fill on a copy of the
  entered board, or of the puzzle in play mode. It replaces `solved_board`
  only when the fill succeeds.

The project has three modules:

- `SudokuGrid` (`grid.dfy`) describes boards as values (`Grid`, nine rows of
  nine cells, 0 for empty). It defines peers, the termination measure
  `ZeroCells` and the completion notion `IsCompletion(e, g)`:
  - every filled cell of `e` keeps its value in `g`;
  - every empty cell of `e` holds a digit that differs from all its peers in `g`.

  Filled cells of `e` are never checked. That is how the fill behaves.
- `SudokuEngine` (`engine.dfy`):
  - `IsSafe` and `FindEmptyLocation` are functions, with recursive helpers
    for the source's loops.
  - `FillBoard` is a method over an `array2<int>`, specified through
    `Snapshot` (the board's contents as a `Grid`).
  - Success: the board completes its entry state and has no empty cell.
  - Failure: the board is back to its entry state and no completion
    exists. The search is therefore complete.
  - A board with no empty cell is accepted unchanged.
- `SudokuGenerator` (`generator.dfy`): the removal count, the removal loop,
  and the class `SudokuGame`. The class holds the three boards and the mode.
  Its methods are `RemoveNumbers`, `GenerateNewGame`, `SolveCurrentGame`,
  and the board part of `start_game` and `prepare_solver_mode`.

Randomness is an input; no random source is modelled:

- each `random.shuffle(nums)` of the fill is one element of a stream
  `shuffle: nat -> seq<int>`, read at a draw counter. Every element is an
  ordering of 1..9 (`IsDigitOrder`). The fill returns the next unused
  draw index.
- the shuffled cell list of `_remove_numbers` is a parameter `cells`: 81
  distinct coordinates (`IsCellOrder`).
- each `random.randint(lo, hi)` is `RandInt(lo, hi, roll)` for a roll
  `roll: nat`. The removal loop takes one roll per cell (`rolls[k]`).

Two behaviours of the code are modelled as written:

- `_remove_numbers` calls `_get_removal_count()` with no argument
  (sudoku.py:232), once before every cell. So the easy and hard branches
  at sudoku.py:179-182 are never reached from the generator: the target
  is always the medium range [45, 50], redrawn at each step.
  - `RemovalStopBounds` proves 45 to 50 cleared cells.
  - `GenerateNewGame` proves 45 to 50 empty puzzle cells.
- `_fill_board` never checks filled cells: a board with no 0 is accepted
  unchanged (sudoku.py:209-211), even when a row holds the same digit twice.
  - `FillBoard` and `SolveCurrentGame` state this in their
    `NoEmptyCell(...) ==>` postconditions.
  - `FullGridNotValidated` exhibits such a board, a grid of 5s.

## Model

| member | source | states |
|---|---|---|
| SudokuGrid.BoxStart | sudoku.py:192 | The box corner x - x % 3 is the first index of the 3x3 band holding x: a multiple of 3 in 0..6 with x in s..s+2 |
| SudokuGrid.EmptyGrid | sudoku.py:253-254 | The `[[0] * 9 for _ in range(9)]` board (also built at sudoku.py:240): nine rows of nine cells, every cell 0 |
| SudokuGrid.Place | sudoku.py:218-221 | A write board[r][c] = v as a value (also the clearing write at sudoku.py:235): the result is a 9x9 grid holding v at (r, c) and the old value in every other cell |
| SudokuGrid.PlaceShrinksZeroCells | sudoku.py:216-218 | Writing a digit into an empty cell removes exactly that cell from the empty cells, so the set and its size strictly decrease (the fill's termination measure) |
| SudokuGrid.NoEmptyCellIffNoZeroCells | sudoku.py:209-211 | A board has no 0 cell exactly when its set of empty cells is empty |
| SudokuGrid.FullGridCompletesItself | sudoku.py:209-211 | A board without empty cells is its own completion, whatever its filled cells hold |
| SudokuGrid.FullGridNotValidated | sudoku.py:209-211 | The all-5 board has no empty cell and is its own completion, but it is not a solved Sudoku |
| SudokuGrid.CompletionOfEmptyIsSolution | sudoku.py:240-241 | Completing the all-zero board and producing a solved Sudoku are the same thing |
| SudokuGrid.PatternIsSolution | sudoku.py:240-241 | A concrete grid is a solved Sudoku: every cell a digit that none of its peers repeats |
| SudokuGrid.EmptyGridHasCompletion | sudoku.py:240-241 | The all-zero board has a completion, so the fill started from it cannot fail |
| SudokuEngine.RowColFree | sudoku.py:188-190 | The row/column loop from index i answers true iff num is in neither row `row` nor column `col` from i on |
| SudokuEngine.BoxRowFree | sudoku.py:194-196 | The inner box loop answers true iff num is absent from the rest of one box row |
| SudokuEngine.BoxFree | sudoku.py:193-196 | The box loops answer true iff num is absent from the remaining rows of the 3x3 box |
| SudokuEngine.IsSafe | sudoku.py:185-197 | True iff num occurs nowhere in row `row`, nowhere in column `col` and nowhere in the box with corner (row - row % 3, col - col % 3); it only reads the board |
| SudokuEngine.IsSafeIffNoUnitHolds | sudoku.py:185-197 | The same rule over units: safe iff no cell sharing a row, a column or a box with (row, col) holds num |
| SudokuEngine.ScanRow | sudoku.py:202-204 | The inner scan finds the first 0 in a row from column j, or None iff there is none |
| SudokuEngine.ScanRows | sudoku.py:201-205 | The outer scan finds the row-major first 0 from row i, or None iff there is none |
| SudokuEngine.FindEmptyLocation | sudoku.py:199-205 | None (the source's (None, None)) iff the board has no 0 cell; otherwise an in-bounds 0 cell before which, in row-major order, every cell is non-zero |
| SudokuEngine.ExcludedByClash | sudoku.py:216-217 | A digit that is not safe in an empty cell appears there in no completion |
| SudokuEngine.CompletionOfPlaced | sudoku.py:218-219 | A completion that puts v in (r, c) also completes the board with v placed there |
| SudokuEngine.ExcludedByFailure | sudoku.py:218-221 | If the board with v placed has no completion, no completion of the board puts v there |
| SudokuEngine.ExtendPlaced | sudoku.py:216-220 | A completion of the board with a safe digit placed in an empty cell completes the original board |
| SudokuEngine.DigitPosition | sudoku.py:213-214 | Every digit has a position in a shuffled candidate list |
| SudokuEngine.NoCandidateNoCompletion | sudoku.py:213-223 | When every candidate of an empty cell is excluded, the board has no completion |
| SudokuEngine.PlaceUndo | sudoku.py:218-221 | Resetting a tentatively filled empty cell to 0 gives back the entry board |
| SudokuEngine.SetCell | sudoku.py:218 | The write board[row][col] = v changes that one cell and nothing else |
| SudokuEngine.TryCandidate | sudoku.py:216-221 | One pass of the candidate loop: when the digit is safe it is placed, the rest filled, and the cell reset on failure; on success the board completes its entry state with no 0 left; on failure the board is back to its entry state and the digit is excluded from the cell (by a clash when unsafe) |
| SudokuEngine.FillBoard | sudoku.py:207-223 | On success the board completes its entry state (filled cells kept, every former 0 a digit that differs from all its peers) and has no 0; on failure it equals its entry state and no completion exists; a board with no 0 is accepted unchanged without a draw; terminates on the number of 0 cells |
| SudokuGenerator.RandInt | sudoku.py:180-183 | randint(lo, hi) lies in [lo, hi] |
| SudokuGenerator.RandIntOnto | sudoku.py:180-183 | Every value of [lo, hi] is drawn by some roll |
| SudokuGenerator.GetRemovalCount | sudoku.py:177-183 | "easy" gives 35..40, "hard" 55..60, any other argument (the default "medium" included) 45..50 |
| SudokuGenerator.GetRemovalCountOnto | sudoku.py:177-183 | Every count of a difficulty's range is produced by some roll |
| SudokuGenerator.RemovalStop | sudoku.py:230-233 | The number of cells the loop clears: every earlier check had fewer cells cleared than its count, and the check at the stop point (unless all cells are used) stops it |
| SudokuGenerator.RemovalStopBounds | sudoku.py:230-236 | Over 81 cells the loop clears between 45 and 50 cells, whatever the rolls |
| SudokuGenerator.LateStopBound | sudoku.py:230-233 | Once 45 cells are cleared, the loop stops by 50 at the latest |
| SudokuGenerator.ClearCells | sudoku.py:229-235 | Clearing a list of cells sets exactly the listed cells to 0 and keeps every other cell |
| SudokuGenerator.ClearCellsStep | sudoku.py:235 | Clearing one more cell of the list extends the cleared prefix by that cell |
| SudokuGenerator.ClearedSolutionCompletes | sudoku.py:242-245 | A solution completes every puzzle cut from it |
| SudokuGenerator.ClearedZeroCells | sudoku.py:229-236 | Cutting cells from a full board makes exactly those cells empty |
| SudokuGenerator.DistinctCellsCount | sudoku.py:227-228 | A list of distinct cells has as many elements as its set |
| SudokuGenerator.DistinctPrefix | sudoku.py:227-228 | Every prefix of the shuffled cell list is free of repeats |
| SudokuGenerator.ClearedCount | sudoku.py:227-236 | Clearing the first s cells of the shuffled list from a full board leaves exactly s empty cells |
| SudokuGenerator.PuzzleFromSolution | sudoku.py:240-245 | The puzzle cut from a solution is completed by it and has 45 to 50 empty cells |
| SudokuGenerator.BoardFrom | sudoku.py:280 | A fresh board holding the given grid |
| SudokuGenerator.CopyBoard | sudoku.py:242-244 | [row[:] for row in board]: a fresh board with the same contents |
| SudokuGenerator.NewSolution | sudoku.py:240-241 | Filling a fresh all-zero board yields a solved Sudoku |
| SudokuGenerator.SudokuGame.constructor | sudoku.py:13-16 | A new game has no mode and empty, distinct boards |
| SudokuGenerator.SudokuGame.RemoveNumbers | sudoku.py:225-236 | The puzzle becomes its old contents with the first RemovalStop(rolls, 0) cells of the list cleared, and nothing else changes |
| SudokuGenerator.SudokuGame.GenerateNewGame | sudoku.py:238-245 | solvedBoard is a solved Sudoku (no 0), baseBoard equals it, the puzzle is the solution with the stopped prefix of cells cleared, every non-zero puzzle cell equals the solution's cell, the solution completes the puzzle, and 45 to 50 puzzle cells are empty |
| SudokuGenerator.SudokuGame.SolveCurrentGame | sudoku.py:276-297 | Works on a copy of the puzzle (play mode) or of the entered board: on success solvedBoard is a new board completing that input with no 0; on failure solvedBoard is untouched and the input has no completion; a full input is accepted as it is; the puzzle is never changed |
| SudokuGenerator.SudokuGame.PrepareSolverMode | sudoku.py:251-254 | The puzzle and the solution become empty boards |
| SudokuGenerator.SudokuGame.StartGame | sudoku.py:52-68 | Records the mode, then play generates a puzzle with all of GenerateNewGame's guarantees (fresh boards, baseBoard equal to a solution, the puzzle that solution with the stopped prefix of the cell list cleared, 45 to 50 empty cells) and the solver mode empties the puzzle and solution boards while keeping baseBoard |

## Left out

- All Tkinter code is not part of this model. That covers windows, `Entry`
  widgets, colours, `populate_grid`, `display_solved_board`, `create_grid`,
  `create_buttons`, `clear_frame`, `show_start_menu`, the widget resets of
  `prepare_solver_mode`, and the main loop. It is presentation, not engine
  logic.
- `get_current_board` is not part of this model: it reads widget text. The
  board it builds is the `entered` parameter of `SolveCurrentGame`.
- `check_input` and `check_win` are not part of this model: they compare
  widget text with `solved_board` and show message boxes. What they rely on
  is stated by `GenerateNewGame` and `SolveCurrentGame`.
- `validate_input` is not part of this model. It is a Tkinter validation
  callback built on Python's Unicode `str.isdigit`.
- `messagebox` calls in `solve_current_game` are not modelled. Only the
  success flag and the `solved_board` update are.
- The `random` module is not modelled. Shuffles and `randint` are inputs, as
  described above. The model does not tie the candidate shuffles and the
  removal rolls to one shared generator state.
- `__init__` starts with empty lists (`[]`) as boards and no `base_board`.
  The constructor uses all-zero 9x9 boards instead, because every use of
  the boards comes after `start_game`.
- SudokuGenerator.SudokuGame.StartGame: the mode is a datatype (`Play`
  for 'oyna', `SolverMode` for 'çöz', `NoMode`). Any other string
  `start_game` could receive is folded into `NoMode`, which leaves the boards
  as they are, as the source does.
- SudokuEngine.FillBoard: the boards are unbounded Dafny integers. The
  source's cells hold Python integers, so no width is lost. Values outside
  0..9 on a filled cell are kept and never checked, as in the source.
- The board shape (9x9) is a precondition: the source builds every board as
  a 9x9 list of lists and never checks it.
