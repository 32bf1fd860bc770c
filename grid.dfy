/** Value-level view of a Sudoku board: nine rows of nine cells, 0 for an empty
    cell and 1..9 for a placed digit. The engine works on a mutable 9x9 array;
    its contracts speak about snapshots of that array as values of type Grid. */
module SudokuGrid {

  type Grid = seq<seq<int>>

  type Cell = (int, int)

  predicate IsGrid(g: Grid) {
    |g| == 9 && forall i :: 0 <= i < 9 ==> |g[i]| == 9
  }

  predicate InBounds(i: int, j: int) {
    0 <= i < 9 && 0 <= j < 9
  }

  predicate IsDigit(v: int) {
    1 <= v <= 9
  }

  /** The first row (or column) of the 3x3 band holding x: x - x % 3. */
  function BoxStart(x: int): (s: int)
    requires 0 <= x < 9
    ensures 0 <= s <= 6 && s % 3 == 0 && s <= x < s + 3
  {
    x - x % 3
  }

  /** k lies in the band that starts at BoxStart(r) exactly when both have the same start. */
  lemma BoxStartBand(r: int, k: int)
    requires 0 <= r < 9 && 0 <= k < 9
    ensures BoxStart(k) == BoxStart(r) <==> BoxStart(r) <= k < BoxStart(r) + 3
  {
  }

  /** (r, c) and (i, j) lie in the same 3x3 box: their box corners
      (r - r % 3, c - c % 3) and (i - i % 3, j - j % 3) coincide. */
  predicate SameBox(r: int, c: int, i: int, j: int)
    requires InBounds(r, c) && InBounds(i, j)
  {
    BoxStart(r) == BoxStart(i) && BoxStart(c) == BoxStart(j)
  }

  /** (i, j) shares a row, a column or a box with (r, c); every cell is in its own units. */
  predicate SameUnit(r: int, c: int, i: int, j: int)
    requires InBounds(r, c) && InBounds(i, j)
  {
    r == i || c == j || SameBox(r, c, i, j)
  }

  /** A peer is a different cell in one of the units of (r, c). */
  predicate IsPeer(r: int, c: int, i: int, j: int)
    requires InBounds(r, c) && InBounds(i, j)
  {
    (r != i || c != j) && SameUnit(r, c, i, j)
  }

  predicate NoEmptyCell(g: Grid)
    requires IsGrid(g)
  {
    forall i, j :: 0 <= i < 9 && 0 <= j < 9 ==> g[i][j] != 0
  }

  /** The value in (i, j) differs from the value of every peer of (i, j). */
  ghost predicate ClashFree(g: Grid, i: int, j: int)
    requires IsGrid(g) && InBounds(i, j)
  {
    forall k, l :: 0 <= k < 9 && 0 <= l < 9 && IsPeer(i, j, k, l) ==> g[k][l] != g[i][j]
  }

  /** A complete, rule-satisfying Sudoku: every cell a digit that no peer repeats. */
  ghost predicate IsSolution(g: Grid) {
    IsGrid(g) && forall i, j :: 0 <= i < 9 && 0 <= j < 9 ==> IsDigit(g[i][j]) && ClashFree(g, i, j)
  }

  /** g completes e: every filled cell of e keeps its value, and every empty cell
      of e holds a digit that differs from all of its peers in g. Filled cells of e
      are not required to be clash-free themselves. */
  ghost predicate IsCompletion(e: Grid, g: Grid) {
    IsGrid(e) && IsGrid(g) &&
    forall i, j :: 0 <= i < 9 && 0 <= j < 9 ==>
      if e[i][j] != 0 then g[i][j] == e[i][j] else IsDigit(g[i][j]) && ClashFree(g, i, j)
  }

  ghost predicate HasCompletion(e: Grid) {
    exists g :: IsCompletion(e, g)
  }

  /** The set of empty cells; the fill's termination measure. */
  ghost function ZeroCells(g: Grid): set<Cell>
    requires IsGrid(g)
  {
    set i, j | 0 <= i < 9 && 0 <= j < 9 && g[i][j] == 0 :: (i, j)
  }

  /** g with (r, c) set to v. */
  function Place(g: Grid, r: int, c: int, v: int): (h: Grid)
    requires IsGrid(g) && InBounds(r, c)
    ensures IsGrid(h)
    ensures forall i, j :: 0 <= i < 9 && 0 <= j < 9 ==> h[i][j] == if i == r && j == c then v else g[i][j]
  {
    g[r := g[r][c := v]]
  }

  function EmptyGrid(): (g: Grid)
    ensures IsGrid(g) && forall i, j :: 0 <= i < 9 && 0 <= j < 9 ==> g[i][j] == 0
  {
    seq(9, i => seq(9, j => 0))
  }

  /** Two grids that agree cell by cell are equal. */
  lemma GridExt(g: Grid, h: Grid)
    requires IsGrid(g) && IsGrid(h)
    requires forall i, j :: 0 <= i < 9 && 0 <= j < 9 ==> g[i][j] == h[i][j]
    ensures g == h
  {
    forall i | 0 <= i < 9
      ensures g[i] == h[i]
    {
      assert forall j :: 0 <= j < 9 ==> g[i][j] == h[i][j] by {
        forall j | 0 <= j < 9 ensures g[i][j] == h[i][j] {
          assert InBounds(i, j);
        }
      }
    }
  }

  lemma NoEmptyCellIffNoZeroCells(g: Grid)
    requires IsGrid(g)
    ensures NoEmptyCell(g) <==> ZeroCells(g) == {}
  {
    if !NoEmptyCell(g) {
      var r, c :| 0 <= r < 9 && 0 <= c < 9 && g[r][c] == 0;
      assert (r, c) in ZeroCells(g);
    }
  }

  /** Filling an empty cell removes exactly that cell from the empty cells. */
  lemma PlaceShrinksZeroCells(g: Grid, r: int, c: int, v: int)
    requires IsGrid(g) && InBounds(r, c) && g[r][c] == 0 && v != 0
    ensures ZeroCells(Place(g, r, c, v)) == ZeroCells(g) - {(r, c)}
    ensures ZeroCells(Place(g, r, c, v)) < ZeroCells(g)
    ensures |ZeroCells(Place(g, r, c, v))| == |ZeroCells(g)| - 1
  {
    assert (r, c) in ZeroCells(g);
  }

  /** A board with no empty cell is its own completion, whatever duplicates its
      filled cells hold. */
  lemma FullGridCompletesItself(g: Grid)
    requires IsGrid(g) && NoEmptyCell(g)
    ensures IsCompletion(g, g)
  {
  }

  /** The board with 5 in every cell breaks every rule, yet it is its own
      completion: filled cells are never checked. */
  lemma FullGridNotValidated()
    ensures var g := seq(9, i => seq(9, j => 5));
      IsGrid(g) && NoEmptyCell(g) && IsCompletion(g, g) && !IsSolution(g)
  {
    var g := seq(9, i => seq(9, j => 5));
    FullGridCompletesItself(g);
    assert IsPeer(0, 0, 0, 1) && g[0][1] == g[0][0];
    assert !ClashFree(g, 0, 0);
  }

  /** A completion of the empty grid is exactly a solved Sudoku. */
  lemma CompletionOfEmptyIsSolution(g: Grid)
    ensures IsCompletion(EmptyGrid(), g) <==> IsSolution(g)
  {
  }

  // ----- a concrete solved Sudoku: the empty grid has a completion -----

  function PatternValue(i: int, j: int): int {
    (PatternShift(i) + j) % 9 + 1
  }

  function Pattern(): (g: Grid)
    ensures IsGrid(g) && forall i, j :: 0 <= i < 9 && 0 <= j < 9 ==> g[i][j] == PatternValue(i, j)
  {
    seq(9, i => seq(9, j => PatternValue(i, j)))
  }

  lemma ModDiffers(x: int, y: int)
    requires 0 <= x && 0 <= y && x != y && -9 < x - y < 9
    ensures x % 9 != y % 9
  {
  }

  /** The row offset 3 * (i % 3) + i / 3 of the pattern. */
  function PatternShift(i: int): int {
    3 * (i % 3) + i / 3
  }

  lemma PatternShiftInjective(i: int, k: int)
    requires 0 <= i < 9 && 0 <= k < 9 && i != k
    ensures 0 <= PatternShift(i) < 9 && 0 <= PatternShift(k) < 9
    ensures PatternShift(i) != PatternShift(k)
  {
  }

  lemma PatternRowDiffers(i: int, j: int, l: int)
    requires 0 <= i < 9 && 0 <= j < 9 && 0 <= l < 9 && j != l
    ensures PatternValue(i, j) != PatternValue(i, l)
  {
    ModDiffers(PatternShift(i) + j, PatternShift(i) + l);
  }

  lemma PatternColumnDiffers(i: int, k: int, j: int)
    requires 0 <= i < 9 && 0 <= k < 9 && 0 <= j < 9 && i != k
    ensures PatternValue(i, j) != PatternValue(k, j)
  {
    PatternShiftInjective(i, k);
    ModDiffers(PatternShift(i) + j, PatternShift(k) + j);
  }

  lemma PatternBoxDiffers(i: int, j: int, k: int, l: int)
    requires 0 <= i < 9 && 0 <= j < 9 && 0 <= k < 9 && 0 <= l < 9
    requires i / 3 == k / 3 && j / 3 == l / 3 && i != k
    ensures PatternValue(i, j) != PatternValue(k, l)
  {
    assert i % 3 != k % 3;
    assert -3 < j - l < 3;
    ModDiffers(PatternShift(i) + j, PatternShift(k) + l);
  }

  lemma PatternPeersDiffer(i: int, j: int, k: int, l: int)
    requires InBounds(i, j) && InBounds(k, l) && IsPeer(i, j, k, l)
    ensures PatternValue(i, j) != PatternValue(k, l)
  {
    if i == k {
      PatternRowDiffers(i, j, l);
    } else if j == l {
      PatternColumnDiffers(i, k, j);
    } else {
      BoxStartBand(i, k);
      BoxStartBand(j, l);
      assert i / 3 == k / 3 && j / 3 == l / 3;
      PatternBoxDiffers(i, j, k, l);
    }
  }

  lemma PatternIsSolution()
    ensures IsSolution(Pattern())
  {
    var g := Pattern();
    forall i, j | 0 <= i < 9 && 0 <= j < 9
      ensures IsDigit(g[i][j]) && ClashFree(g, i, j)
    {
      forall k, l | 0 <= k < 9 && 0 <= l < 9 && IsPeer(i, j, k, l)
        ensures g[k][l] != g[i][j]
      {
        PatternPeersDiffer(i, j, k, l);
      }
    }
  }

  /** The empty grid can always be completed, which is what lets the generator
      rely on the fill succeeding from an all-zero board. */
  lemma EmptyGridHasCompletion()
    ensures HasCompletion(EmptyGrid())
  {
    PatternIsSolution();
    CompletionOfEmptyIsSolution(Pattern());
    assert IsCompletion(EmptyGrid(), Pattern());
  }
}
