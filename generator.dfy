/** The puzzle generator and the solve request of SudokuGame. The game object
    holds three boards: the generated solution (solvedBoard), the copy it was
    made from (baseBoard) and the puzzle shown to the player (puzzleBoard).
    Randomness is an input: randint(lo, hi) draws a roll, the shuffle of the
    81 cells is a given ordering of the coordinates, and the candidate shuffles
    of the fill are the stream of SudokuEngine.FillBoard. */
module SudokuGenerator {
  import opened SudokuGrid
  import opened SudokuEngine

  // ----- random choices as inputs -----

  /** randint(lo, hi) for a roll of the generator: a value in [lo, hi]. */
  function RandInt(lo: int, hi: int, roll: nat): (n: int)
    requires lo <= hi
    ensures lo <= n <= hi
  {
    lo + roll % (hi - lo + 1)
  }

  /** Every value of the range is drawn by some roll. */
  lemma RandIntOnto(lo: int, hi: int, n: int)
    requires lo <= n <= hi
    ensures exists roll: nat :: RandInt(lo, hi, roll) == n
  {
    var roll: nat := n - lo;
    assert RandInt(lo, hi, roll) == n;
  }

  /** The number of cells to clear for a difficulty: 35..40 for "easy",
      55..60 for "hard", 45..50 for anything else, "medium" being the default. */
  function GetRemovalCount(roll: nat, difficulty: string := "medium"): (n: int)
    ensures difficulty == "easy" ==> 35 <= n <= 40
    ensures difficulty == "hard" ==> 55 <= n <= 60
    ensures difficulty != "easy" && difficulty != "hard" ==> 45 <= n <= 50
  {
    if difficulty == "easy" then RandInt(35, 40, roll)
    else if difficulty == "hard" then RandInt(55, 60, roll)
    else RandInt(45, 50, roll)
  }

  /** Each difficulty can produce every count of its range. */
  lemma GetRemovalCountOnto(difficulty: string, n: int)
    requires if difficulty == "easy" then 35 <= n <= 40
             else if difficulty == "hard" then 55 <= n <= 60
             else 45 <= n <= 50
    ensures exists roll: nat :: GetRemovalCount(roll, difficulty) == n
  {
    var roll: nat;
    if difficulty == "easy" {
      roll := n - 35;
    } else if difficulty == "hard" {
      roll := n - 55;
    } else {
      roll := n - 45;
    }
    assert GetRemovalCount(roll, difficulty) == n;
  }

  // ----- which cells the removal clears -----

  /** The removal loop checks, before clearing its k-th cell, whether k cells are
      already cleared against a fresh count GetRemovalCount(rolls[k]) (always the
      default difficulty); there is one roll per cell. Starting from the k-th
      check, the number of cells cleared: the first check that stops the loop,
      or all cells. */
  function RemovalStop(rolls: seq<nat>, k: nat): (s: nat)
    requires k <= |rolls|
    ensures k <= s <= |rolls|
    ensures forall t :: k <= t < s ==> t < GetRemovalCount(rolls[t])
    ensures s < |rolls| ==> s >= GetRemovalCount(rolls[s])
    decreases |rolls| - k
  {
    if k == |rolls| then k
    else if k >= GetRemovalCount(rolls[k]) then k
    else RemovalStop(rolls, k + 1)
  }

  /** Over the 81 cells the loop clears between 45 and 50 of them, whatever the
      rolls: below 45 no medium count stops it, and at 50 every one does. */
  lemma {:induction false} RemovalStopBounds(rolls: seq<nat>, k: nat)
    requires |rolls| == 81 && k <= 45
    ensures 45 <= RemovalStop(rolls, k) <= 50
    decreases 45 - k
  {
    if k < 45 {
      assert k < GetRemovalCount(rolls[k]);
      RemovalStopBounds(rolls, k + 1);
    } else {
      LateStopBound(rolls, k);
    }
  }

  lemma {:induction false} LateStopBound(rolls: seq<nat>, k: nat)
    requires |rolls| == 81 && 45 <= k <= 50
    ensures RemovalStop(rolls, k) <= 50
    decreases 50 - k
  {
    if k < 50 && k < GetRemovalCount(rolls[k]) {
      LateStopBound(rolls, k + 1);
    }
  }

  predicate CellsInBounds(cs: seq<Cell>) {
    forall k :: 0 <= k < |cs| ==> InBounds(cs[k].0, cs[k].1)
  }

  /** No cell occurs twice in cs. */
  predicate Distinct(cs: seq<Cell>)
    decreases |cs|
  {
    |cs| == 0 || (cs[|cs| - 1] !in cs[..|cs| - 1] && Distinct(cs[..|cs| - 1]))
  }

  /** The shuffled list of all coordinates: 81 distinct cells of the board. */
  predicate IsCellOrder(cells: seq<Cell>) {
    |cells| == 81 && CellsInBounds(cells) && Distinct(cells)
  }

  /** g with every cell of cs set to 0, in the order of cs. */
  function ClearCells(g: Grid, cs: seq<Cell>): (h: Grid)
    requires IsGrid(g) && CellsInBounds(cs)
    ensures IsGrid(h)
    ensures forall i, j :: 0 <= i < 9 && 0 <= j < 9 ==> h[i][j] == if (i, j) in cs then 0 else g[i][j]
  {
    if |cs| == 0 then g
    else
      var last := cs[|cs| - 1];
      assert forall x :: x in cs <==> x in cs[..|cs| - 1] || x == last;
      Place(ClearCells(g, cs[..|cs| - 1]), last.0, last.1, 0)
  }

  /** Clearing one more cell of a list: the prefix of length k + 1 clears cs[k] after the first k. */
  lemma ClearCellsStep(g: Grid, cs: seq<Cell>, k: nat)
    requires IsGrid(g) && CellsInBounds(cs) && k < |cs|
    ensures ClearCells(g, cs[..k + 1]) == Place(ClearCells(g, cs[..k]), cs[k].0, cs[k].1, 0)
  {
    assert cs[..k + 1][..k] == cs[..k];
  }

  /** Clearing cells of a solution leaves a puzzle that the solution completes. */
  lemma ClearedSolutionCompletes(g: Grid, cs: seq<Cell>)
    requires IsSolution(g) && CellsInBounds(cs)
    ensures IsCompletion(ClearCells(g, cs), g)
  {
  }

  /** Clearing cells of a full grid empties exactly those cells. */
  lemma ClearedZeroCells(g: Grid, cs: seq<Cell>)
    requires IsGrid(g) && NoEmptyCell(g) && CellsInBounds(cs)
    ensures ZeroCells(ClearCells(g, cs)) == set x | x in cs
  {
    var h := ClearCells(g, cs);
    forall x | x in cs
      ensures x in ZeroCells(h)
    {
      var k :| 0 <= k < |cs| && cs[k] == x;
      assert InBounds(x.0, x.1);
    }
  }

  /** A list of distinct cells has as many elements as its set. */
  lemma {:induction false} DistinctCellsCount(cs: seq<Cell>)
    requires Distinct(cs)
    ensures |set x | x in cs| == |cs|
  {
    if |cs| > 0 {
      var init := cs[..|cs| - 1];
      var last := cs[|cs| - 1];
      DistinctCellsCount(init);
      assert (set x | x in cs) == (set x | x in init) + {last};
    }
  }

  /** Every prefix of a distinct list is distinct. */
  lemma {:induction false} DistinctPrefix(cs: seq<Cell>, s: nat)
    requires Distinct(cs) && s <= |cs|
    ensures Distinct(cs[..s])
    decreases |cs|
  {
    if s < |cs| {
      assert cs[..|cs| - 1][..s] == cs[..s];
      DistinctPrefix(cs[..|cs| - 1], s);
    } else {
      assert cs[..s] == cs;
    }
  }

  /** Clearing the first s cells of a cell order from a full grid leaves exactly s empty cells. */
  lemma ClearedCount(g: Grid, cells: seq<Cell>, s: nat)
    requires IsGrid(g) && NoEmptyCell(g) && IsCellOrder(cells) && s <= 81
    ensures |ZeroCells(ClearCells(g, cells[..s]))| == s
  {
    ClearedZeroCells(g, cells[..s]);
    DistinctPrefix(cells, s);
    DistinctCellsCount(cells[..s]);
  }

  /** The puzzle cut from a solution: the solution completes it, and it has
      between 45 and 50 empty cells. */
  lemma PuzzleFromSolution(g: Grid, cells: seq<Cell>, rolls: seq<nat>)
    requires IsSolution(g) && IsCellOrder(cells) && |rolls| == 81
    ensures IsCompletion(ClearCells(g, cells[..RemovalStop(rolls, 0)]), g)
    ensures 45 <= |ZeroCells(ClearCells(g, cells[..RemovalStop(rolls, 0)]))| <= 50
  {
    var s := RemovalStop(rolls, 0);
    RemovalStopBounds(rolls, 0);
    ClearedSolutionCompletes(g, cells[..s]);
    ClearedCount(g, cells, s);
  }

  // ----- the game object -----

  /** current_mode: unset, 'oyna' (play a generated puzzle) or 'çöz' (solve an entered board). */
  datatype Mode = NoMode | Play | SolverMode

  /** A board holding a copy of g. */
  method BoardFrom(g: Grid) returns (b: array2<int>)
    requires IsGrid(g)
    ensures fresh(b) && IsBoard(b) && Snapshot(b) == g
  {
    b := new int[9, 9];
    for i := 0 to 9
      invariant forall k, l :: 0 <= k < i && 0 <= l < 9 ==> b[k, l] == g[k][l]
    {
      for j := 0 to 9
        invariant forall k, l :: 0 <= k < i && 0 <= l < 9 ==> b[k, l] == g[k][l]
        invariant forall l :: 0 <= l < j ==> b[i, l] == g[i][l]
      {
        b[i, j] := g[i][j];
      }
    }
    GridExt(Snapshot(b), g);
  }

  /** A fresh board filled from all zeros; the fill always succeeds there, so
      the board holds a solved Sudoku. */
  method NewSolution(shuffle: nat -> seq<int>, draw: nat) returns (b: array2<int>, next: nat)
    requires forall k :: IsDigitOrder(shuffle(k))
    ensures fresh(b) && IsBoard(b) && IsSolution(Snapshot(b)) && draw <= next
  {
    b := BoardFrom(EmptyGrid());
    var filled;
    filled, next := FillBoard(b, shuffle, draw);
    EmptyGridHasCompletion();
    CompletionOfEmptyIsSolution(Snapshot(b));
  }

  /** A fresh board with the contents of b, as [row[:] for row in b]. */
  method CopyBoard(b: array2<int>) returns (c: array2<int>)
    requires IsBoard(b)
    ensures fresh(c) && IsBoard(c) && Snapshot(c) == Snapshot(b)
  {
    c := BoardFrom(Snapshot(b));
  }

  class SudokuGame {
    var puzzleBoard: array2<int>
    var solvedBoard: array2<int>
    var baseBoard: array2<int>
    var currentMode: Mode

    /** Three distinct 9x9 boards. */
    ghost predicate Valid()
      reads this
    {
      IsBoard(puzzleBoard) && IsBoard(solvedBoard) && IsBoard(baseBoard) &&
      puzzleBoard != solvedBoard && puzzleBoard != baseBoard && solvedBoard != baseBoard
    }

    /** A new game: no mode chosen and empty boards. */
    constructor()
      ensures Valid() && currentMode == NoMode
      ensures Snapshot(puzzleBoard) == EmptyGrid() && Snapshot(solvedBoard) == EmptyGrid()
      ensures Snapshot(baseBoard) == EmptyGrid()
    {
      var p := BoardFrom(EmptyGrid());
      var s := BoardFrom(EmptyGrid());
      var b := BoardFrom(EmptyGrid());
      puzzleBoard, solvedBoard, baseBoard := p, s, b;
      currentMode := NoMode;
    }

    /** Clears cells of the puzzle in the order of cells, stopping once the
        number cleared reaches a count redrawn from the medium range before
        each cell. */
    method RemoveNumbers(cells: seq<Cell>, rolls: seq<nat>)
      requires Valid() && CellsInBounds(cells) && |rolls| == |cells|
      modifies puzzleBoard
      ensures Snapshot(puzzleBoard) == ClearCells(old(Snapshot(puzzleBoard)), cells[..RemovalStop(rolls, 0)])
    {
      var board := puzzleBoard;
      ghost var entry := Snapshot(board);
      var removedCount := 0;
      var k := 0;
      while k < |cells|
        invariant 0 <= k <= |cells| && removedCount == k
        invariant RemovalStop(rolls, k) == RemovalStop(rolls, 0)
        invariant Snapshot(board) == ClearCells(entry, cells[..k])
      {
        if removedCount >= GetRemovalCount(rolls[k]) {
          break;
        }
        var (r, c) := cells[k];
        SetCell(board, r, c, 0);
        ClearCellsStep(entry, cells, k);
        removedCount := removedCount + 1;
        k := k + 1;
      }
    }

    /** Fills an empty board into a solution, keeps it as baseBoard and
        solvedBoard, and clears cells of a copy of it into the puzzle: the
        solution completes the puzzle, and 45 to 50 cells of the puzzle are empty. */
    method GenerateNewGame(shuffle: nat -> seq<int>, draw: nat, cells: seq<Cell>, rolls: seq<nat>)
      returns (next: nat)
      requires forall k :: IsDigitOrder(shuffle(k))
      requires IsCellOrder(cells) && |rolls| == 81
      modifies this
      ensures Valid() && fresh(puzzleBoard) && fresh(solvedBoard) && fresh(baseBoard)
      ensures currentMode == old(currentMode) && draw <= next
      ensures IsSolution(Snapshot(solvedBoard))
      ensures Snapshot(baseBoard) == Snapshot(solvedBoard)
      ensures Snapshot(puzzleBoard) ==
        ClearCells(Snapshot(solvedBoard), cells[..RemovalStop(rolls, 0)])
      ensures IsCompletion(Snapshot(puzzleBoard), Snapshot(solvedBoard))
      ensures 45 <= |ZeroCells(Snapshot(puzzleBoard))| <= 50
    {
      var b;
      b, next := NewSolution(shuffle, draw);
      ghost var solution := Snapshot(b);
      baseBoard := b;
      solvedBoard := CopyBoard(baseBoard);
      puzzleBoard := CopyBoard(solvedBoard);
      RemoveNumbers(cells, rolls);
      PuzzleFromSolution(solution, cells, rolls);
    }

    /** Runs the fill on a copy of the board to solve: the entered board, or the
        puzzle in play mode. Only a successful fill replaces solvedBoard. */
    method SolveCurrentGame(entered: Grid, shuffle: nat -> seq<int>, draw: nat)
      returns (ok: bool, next: nat)
      requires Valid() && IsGrid(entered)
      requires forall k :: IsDigitOrder(shuffle(k))
      modifies this
      ensures Valid() && draw <= next
      ensures puzzleBoard == old(puzzleBoard) && baseBoard == old(baseBoard) && currentMode == old(currentMode)
      ensures Snapshot(puzzleBoard) == old(Snapshot(puzzleBoard))
      ensures ok ==>
        fresh(solvedBoard) && NoEmptyCell(Snapshot(solvedBoard)) &&
        IsCompletion(SolveInput(old(currentMode), old(Snapshot(puzzleBoard)), entered), Snapshot(solvedBoard))
      ensures !ok ==>
        solvedBoard == old(solvedBoard) && Snapshot(solvedBoard) == old(Snapshot(solvedBoard)) &&
        !HasCompletion(SolveInput(old(currentMode), old(Snapshot(puzzleBoard)), entered))
      ensures NoEmptyCell(SolveInput(old(currentMode), old(Snapshot(puzzleBoard)), entered)) ==>
        ok && Snapshot(solvedBoard) == SolveInput(old(currentMode), old(Snapshot(puzzleBoard)), entered)
    {
      var solving := BoardFrom(entered);
      if currentMode == Play {
        solving := CopyBoard(puzzleBoard);
      }
      ok, next := FillBoard(solving, shuffle, draw);
      if ok {
        solvedBoard := solving;
      }
    }

    /** The board part of the solver mode: an empty puzzle and an empty solution. */
    method PrepareSolverMode()
      requires Valid()
      modifies this
      ensures Valid() && baseBoard == old(baseBoard) && currentMode == old(currentMode)
      ensures Snapshot(puzzleBoard) == EmptyGrid() && Snapshot(solvedBoard) == EmptyGrid()
    {
      puzzleBoard := BoardFrom(EmptyGrid());
      solvedBoard := BoardFrom(EmptyGrid());
    }

    /** Records the chosen mode; play generates a new puzzle, the solver mode
        empties the boards, any other mode leaves them as they are. */
    method StartGame(mode: Mode, shuffle: nat -> seq<int>, draw: nat, cells: seq<Cell>, rolls: seq<nat>)
      returns (next: nat)
      requires Valid()
      requires forall k :: IsDigitOrder(shuffle(k))
      requires IsCellOrder(cells) && |rolls| == 81
      modifies this
      ensures Valid() && currentMode == mode && draw <= next
      ensures mode == Play ==>
        fresh(puzzleBoard) && fresh(solvedBoard) && fresh(baseBoard) &&
        IsSolution(Snapshot(solvedBoard)) && Snapshot(baseBoard) == Snapshot(solvedBoard) &&
        Snapshot(puzzleBoard) == ClearCells(Snapshot(solvedBoard), cells[..RemovalStop(rolls, 0)]) &&
        IsCompletion(Snapshot(puzzleBoard), Snapshot(solvedBoard)) &&
        45 <= |ZeroCells(Snapshot(puzzleBoard))| <= 50
      ensures mode == SolverMode ==>
        baseBoard == old(baseBoard) && Snapshot(puzzleBoard) == EmptyGrid() && Snapshot(solvedBoard) == EmptyGrid()
      ensures mode == NoMode ==>
        puzzleBoard == old(puzzleBoard) && solvedBoard == old(solvedBoard) && baseBoard == old(baseBoard)
    {
      currentMode := mode;
      next := draw;
      if mode == Play {
        next := GenerateNewGame(shuffle, draw, cells, rolls);
      } else if mode == SolverMode {
        PrepareSolverMode();
      }
    }
  }

  /** The board a solve request works on: the puzzle in play mode, otherwise the entered board. */
  function SolveInput(mode: Mode, puzzle: Grid, entered: Grid): Grid {
    if mode == Play then puzzle else entered
  }
}
