/** The grid engine of SudokuGame: the legality check, the row-major scan for an
    empty cell and the randomized depth-first fill that works in place on a 9x9
    board. The random shuffle of the candidates 1..9 is an input: a stream of
    permutations, read one per fill call at a draw counter. */
module SudokuEngine {
  import opened SudokuGrid

  datatype Option<T> = None | Some(value: T)

  // ----- legality check (_is_safe) -----

  /** The row/column loop of _is_safe from index i on. */
  function RowColFree(g: Grid, row: int, col: int, num: int, i: nat): (r: bool)
    requires IsGrid(g) && InBounds(row, col) && i <= 9
    ensures r <==> forall k :: i <= k < 9 ==> g[row][k] != num && g[k][col] != num
    decreases 9 - i
  {
    i == 9 || (g[row][i] != num && g[i][col] != num && RowColFree(g, row, col, num, i + 1))
  }

  /** The inner box loop: row r, columns sc + j .. sc + 2. */
  function BoxRowFree(g: Grid, r: int, sc: int, num: int, j: nat): (res: bool)
    requires IsGrid(g) && 0 <= r < 9 && 0 <= sc <= 6 && j <= 3
    ensures res <==> forall l :: sc + j <= l < sc + 3 ==> g[r][l] != num
    decreases 3 - j
  {
    j == 3 || (g[r][sc + j] != num && BoxRowFree(g, r, sc, num, j + 1))
  }

  /** The outer box loop: rows sr + i .. sr + 2 of the box with corner (sr, sc). */
  function BoxFree(g: Grid, sr: int, sc: int, num: int, i: nat): (res: bool)
    requires IsGrid(g) && 0 <= sr <= 6 && 0 <= sc <= 6 && i <= 3
    ensures res <==> forall k, l :: sr + i <= k < sr + 3 && sc <= l < sc + 3 ==> g[k][l] != num
    decreases 3 - i
  {
    i == 3 || (BoxRowFree(g, sr + i, sc, num, 0) && BoxFree(g, sr, sc, num, i + 1))
  }

  /** num may go in (row, col): it occurs nowhere in row `row`, nowhere in
      column `col` and nowhere in the 3x3 box whose corner is (row - row % 3, col - col % 3). */
  function IsSafe(g: Grid, row: int, col: int, num: int): (r: bool)
    requires IsGrid(g) && InBounds(row, col)
    ensures r <==>
      (forall l :: 0 <= l < 9 ==> g[row][l] != num) &&
      (forall k :: 0 <= k < 9 ==> g[k][col] != num) &&
      (forall k, l :: BoxStart(row) <= k < BoxStart(row) + 3 && BoxStart(col) <= l < BoxStart(col) + 3 ==> g[k][l] != num)
  {
    var startRow, startCol := BoxStart(row), BoxStart(col);
    RowColFree(g, row, col, num, 0) && BoxFree(g, startRow, startCol, num, 0)
  }

  /** The same rule stated over units: num is safe in (row, col) exactly when no
      cell sharing a row, a column or a box with (row, col) holds it. */
  lemma IsSafeIffNoUnitHolds(g: Grid, row: int, col: int, num: int)
    requires IsGrid(g) && InBounds(row, col)
    ensures IsSafe(g, row, col, num) <==>
      forall k, l :: 0 <= k < 9 && 0 <= l < 9 && SameUnit(row, col, k, l) ==> g[k][l] != num
  {
    forall k, l | 0 <= k < 9 && 0 <= l < 9
      ensures SameBox(row, col, k, l) <==>
        BoxStart(row) <= k < BoxStart(row) + 3 && BoxStart(col) <= l < BoxStart(col) + 3
    {
      BoxStartBand(row, k);
      BoxStartBand(col, l);
    }
    if !IsSafe(g, row, col, num) {
      if !(forall l :: 0 <= l < 9 ==> g[row][l] != num) {
        var l :| 0 <= l < 9 && g[row][l] == num;
        assert InBounds(row, l) && SameUnit(row, col, row, l);
      } else if !(forall k :: 0 <= k < 9 ==> g[k][col] != num) {
        var k :| 0 <= k < 9 && g[k][col] == num;
        assert InBounds(k, col) && SameUnit(row, col, k, col);
      }
    }
  }

  // ----- empty-cell scan (_find_empty_location) -----

  /** (k, l) comes before (i, j) in row-major order. */
  predicate RowMajorBefore(k: int, l: int, i: int, j: int) {
    k < i || (k == i && l < j)
  }

  /** The inner scan loop over row i from column j on. */
  function ScanRow(g: Grid, i: int, j: nat): (r: Option<int>)
    requires IsGrid(g) && 0 <= i < 9 && j <= 9
    ensures r.None? <==> forall l :: j <= l < 9 ==> g[i][l] != 0
    ensures r.Some? ==> j <= r.value < 9 && g[i][r.value] == 0 &&
                        forall l :: j <= l < r.value ==> g[i][l] != 0
    decreases 9 - j
  {
    if j == 9 then None
    else if g[i][j] == 0 then Some(j)
    else ScanRow(g, i, j + 1)
  }

  /** The outer scan loop from row i on. */
  function ScanRows(g: Grid, i: nat): (r: Option<Cell>)
    requires IsGrid(g) && i <= 9
    ensures r.None? <==> forall k, l :: i <= k < 9 && 0 <= l < 9 ==> g[k][l] != 0
    ensures r.Some? ==> i <= r.value.0 < 9 && 0 <= r.value.1 < 9 && g[r.value.0][r.value.1] == 0 &&
                        forall k, l :: i <= k < 9 && 0 <= l < 9 && RowMajorBefore(k, l, r.value.0, r.value.1) ==> g[k][l] != 0
    decreases 9 - i
  {
    if i == 9 then None
    else match ScanRow(g, i, 0)
      case Some(j) => Some((i, j))
      case None => ScanRows(g, i + 1)
  }

  /** The first empty cell in row-major order, or None (the source's (None, None))
      exactly when the board has no empty cell. */
  function FindEmptyLocation(g: Grid): (r: Option<Cell>)
    requires IsGrid(g)
    ensures r.None? <==> NoEmptyCell(g)
    ensures r.Some? ==> InBounds(r.value.0, r.value.1) && g[r.value.0][r.value.1] == 0
    ensures r.Some? ==> forall k, l :: 0 <= k < 9 && 0 <= l < 9 && RowMajorBefore(k, l, r.value.0, r.value.1) ==> g[k][l] != 0
  {
    ScanRows(g, 0)
  }

  // ----- the board as an array -----

  predicate IsBoard(b: array2<int>) {
    b.Length0 == 9 && b.Length1 == 9
  }

  /** Cells (i, 0) .. (i, n - 1) of the board. */
  function RowOf(b: array2<int>, i: int, n: nat): (r: seq<int>)
    reads b
    requires IsBoard(b) && 0 <= i < 9 && n <= 9
    ensures |r| == n && forall j :: 0 <= j < n ==> r[j] == b[i, j]
  {
    if n == 0 then [] else RowOf(b, i, n - 1) + [b[i, n - 1]]
  }

  /** Rows 0 .. n - 1 of the board. */
  function RowsOf(b: array2<int>, n: nat): (g: seq<seq<int>>)
    reads b
    requires IsBoard(b) && n <= 9
    ensures |g| == n && forall i :: 0 <= i < n ==> g[i] == RowOf(b, i, 9)
  {
    if n == 0 then [] else RowsOf(b, n - 1) + [RowOf(b, n - 1, 9)]
  }

  /** The current contents of a board. */
  function Snapshot(b: array2<int>): (g: Grid)
    reads b
    requires IsBoard(b)
    ensures IsGrid(g) && forall i, j :: 0 <= i < 9 && 0 <= j < 9 ==> g[i][j] == b[i, j]
  {
    RowsOf(b, 9)
  }

  /** The shuffled candidate list: 1..9 in some order. */
  predicate IsDigitOrder(p: seq<int>) {
    |p| == 9 && (forall k :: 0 <= k < 9 ==> IsDigit(p[k])) && (forall v :: 1 <= v <= 9 ==> v in p)
  }

  // ----- facts the fill's proof is built from -----

  /** No completion of e puts v in (r, c). */
  ghost predicate Excluded(e: Grid, r: int, c: int, v: int)
    requires InBounds(r, c)
  {
    forall g {:trigger IsCompletion(e, g)} :: IsCompletion(e, g) ==> g[r][c] != v
  }

  /** A candidate that clashes with a filled cell of e cannot be in any completion. */
  lemma ExcludedByClash(e: Grid, r: int, c: int, v: int)
    requires IsGrid(e) && InBounds(r, c) && e[r][c] == 0 && IsDigit(v)
    requires !IsSafe(e, r, c, v)
    ensures Excluded(e, r, c, v)
  {
    IsSafeIffNoUnitHolds(e, r, c, v);
    var k, l :| InBounds(k, l) && SameUnit(r, c, k, l) && e[k][l] == v;
    assert IsPeer(r, c, k, l);
    forall g | IsCompletion(e, g)
      ensures g[r][c] != v
    {
      assert g[k][l] == v;
      assert ClashFree(g, r, c);
    }
  }

  /** Every completion of e with v in (r, c) is a completion of e with v placed there. */
  lemma CompletionOfPlaced(e: Grid, r: int, c: int, v: int, g: Grid)
    requires IsGrid(e) && InBounds(r, c) && e[r][c] == 0
    requires IsCompletion(e, g) && g[r][c] == v
    ensures IsCompletion(Place(e, r, c, v), g)
  {
  }

  /** If e with v placed in (r, c) cannot be completed, no completion of e puts v there. */
  lemma ExcludedByFailure(e: Grid, r: int, c: int, v: int)
    requires IsGrid(e) && InBounds(r, c) && e[r][c] == 0
    requires !HasCompletion(Place(e, r, c, v))
    ensures Excluded(e, r, c, v)
  {
    forall g | IsCompletion(e, g)
      ensures g[r][c] != v
    {
      if g[r][c] == v {
        CompletionOfPlaced(e, r, c, v, g);
      }
    }
  }

  /** A completion of e with a safe digit placed in an empty cell completes e. */
  lemma ExtendPlaced(e: Grid, r: int, c: int, v: int, g: Grid)
    requires IsGrid(e) && InBounds(r, c) && e[r][c] == 0 && IsDigit(v)
    requires IsSafe(e, r, c, v)
    requires IsCompletion(Place(e, r, c, v), g)
    ensures IsCompletion(e, g)
  {
    var p := Place(e, r, c, v);
    IsSafeIffNoUnitHolds(e, r, c, v);
    assert g[r][c] == v;
    forall k, l | 0 <= k < 9 && 0 <= l < 9 && IsPeer(r, c, k, l)
      ensures g[k][l] != g[r][c]
    {
      if p[k][l] == 0 {
        assert ClashFree(g, k, l);
        assert IsPeer(k, l, r, c);
      }
    }
    assert ClashFree(g, r, c);
  }

  /** Every digit has a position in a shuffled candidate list. */
  lemma DigitPosition(nums: seq<int>, v: int) returns (m: nat)
    requires IsDigitOrder(nums) && IsDigit(v)
    ensures m < 9 && nums[m] == v
  {
    assert v in nums;
    m :| 0 <= m < 9 && nums[m] == v;
  }

  /** Extends the set of excluded candidates by one. */
  lemma ExcludedStep(e: Grid, r: int, c: int, nums: seq<int>, i: int)
    requires InBounds(r, c) && 0 <= i < |nums|
    requires forall m :: 0 <= m < i ==> Excluded(e, r, c, nums[m])
    requires Excluded(e, r, c, nums[i])
    ensures forall m :: 0 <= m < i + 1 ==> Excluded(e, r, c, nums[m])
  {
  }

  /** When every digit is excluded from an empty cell, e has no completion. */
  lemma NoCandidateNoCompletion(e: Grid, r: int, c: int, nums: seq<int>)
    requires IsGrid(e) && InBounds(r, c) && e[r][c] == 0
    requires IsDigitOrder(nums)
    requires forall m :: 0 <= m < 9 ==> Excluded(e, r, c, nums[m])
    ensures !HasCompletion(e)
  {
    if HasCompletion(e) {
      var g :| IsCompletion(e, g);
      var m := DigitPosition(nums, g[r][c]);
      assert false;
    }
  }

  /** Undoing a placement in an empty cell gives back the original grid. */
  lemma PlaceUndo(e: Grid, r: int, c: int, v: int)
    requires IsGrid(e) && InBounds(r, c) && e[r][c] == 0
    ensures Place(Place(e, r, c, v), r, c, 0) == e
  {
    GridExt(Place(Place(e, r, c, v), r, c, 0), e);
  }

  // ----- the backtracking fill (_fill_board) -----

  /** The single-cell write board[row][col] = v. */
  method SetCell(board: array2<int>, row: int, col: int, v: int)
    requires IsBoard(board) && InBounds(row, col)
    modifies board
    ensures Snapshot(board) == Place(old(Snapshot(board)), row, col, v)
  {
    board[row, col] := v;
    GridExt(Snapshot(board), Place(old(Snapshot(board)), row, col, v));
  }

  /** One pass of the fill's candidate loop: when num is safe in the empty cell
      (row, col), writes it there, fills the rest recursively and, when that
      fails, empties the cell again. */
  method TryCandidate(board: array2<int>, row: int, col: int, num: int, shuffle: nat -> seq<int>, draw: nat)
    returns (ok: bool, next: nat)
    requires IsBoard(board) && InBounds(row, col) && board[row, col] == 0 && IsDigit(num)
    requires forall k :: IsDigitOrder(shuffle(k))
    modifies board
    ensures draw <= next
    ensures ok ==> IsCompletion(old(Snapshot(board)), Snapshot(board)) && NoEmptyCell(Snapshot(board))
    ensures !ok ==> Snapshot(board) == old(Snapshot(board)) && Excluded(old(Snapshot(board)), row, col, num)
    decreases ZeroCells(Snapshot(board)), 0
  {
    ghost var entry := Snapshot(board);
    next := draw;
    if !IsSafe(Snapshot(board), row, col, num) {
      ExcludedByClash(entry, row, col, num);
      return false, next;
    }
    SetCell(board, row, col, num);
    PlaceShrinksZeroCells(entry, row, col, num);
    ok, next := FillBoard(board, shuffle, draw);
    if ok {
      ExtendPlaced(entry, row, col, num, Snapshot(board));
      return;
    }
    SetCell(board, row, col, 0);
    PlaceUndo(entry, row, col, num);
    ExcludedByFailure(entry, row, col, num);
  }

  /** Fills the empty cells of board in place by depth-first search, trying the
      candidates of each empty cell in the order shuffle(draw), shuffle(draw + 1), ...
      (one draw per call). On success every empty cell of the entry board holds a
      digit no peer repeats and every filled cell keeps its value; on failure the
      board is back to its entry state and no such completion exists. A board with
      no empty cell is accepted unchanged without looking at its contents. */
  method FillBoard(board: array2<int>, shuffle: nat -> seq<int>, draw: nat) returns (ok: bool, next: nat)
    requires IsBoard(board)
    requires forall k :: IsDigitOrder(shuffle(k))
    modifies board
    ensures draw <= next
    ensures ok ==> IsCompletion(old(Snapshot(board)), Snapshot(board)) && NoEmptyCell(Snapshot(board))
    ensures !ok ==> Snapshot(board) == old(Snapshot(board)) && !HasCompletion(old(Snapshot(board)))
    ensures NoEmptyCell(old(Snapshot(board))) ==> ok && next == draw && Snapshot(board) == old(Snapshot(board))
    decreases ZeroCells(Snapshot(board)), 1
  {
    ghost var entry := Snapshot(board);
    var cell := FindEmptyLocation(Snapshot(board));
    if cell.None? {
      // the base case: the termination measure is empty
      NoEmptyCellIffNoZeroCells(entry);
      FullGridCompletesItself(entry);
      return true, draw;
    }
    var row, col := cell.value.0, cell.value.1;
    var nums := shuffle(draw);
    next := draw + 1;
    var i := 0;
    while i < 9
      invariant 0 <= i <= 9
      invariant draw < next
      invariant Snapshot(board) == entry
      invariant forall m :: 0 <= m < i ==> Excluded(entry, row, col, nums[m])
    {
      var num := nums[i];
      ok, next := TryCandidate(board, row, col, num, shuffle, next);
      if ok {
        return;
      }
      ExcludedStep(entry, row, col, nums, i);
      i := i + 1;
    }
    NoCandidateNoCompletion(entry, row, col, nums);
    ok := false;
  }
}
