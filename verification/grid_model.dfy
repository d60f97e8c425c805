/**
 * The values behind the keyboard-navigable data grid `aria.Grid`
 * (reference.js): the focus matrix of cells, the neighbour rule of
 * `getNextCell`, the hidden-cell scan of `getNextVisibleCell`, the
 * pagination window of `showFromRow`, the numeric row order of `handleSort`
 * and the greedy row packing of `restructureGrid`.
 *
 * The DOM is abstracted: each focusable element of the grid is a `Cell`
 * value carrying the attributes the grid reads and writes on it (its
 * `hidden` class, its `tabindex`, `aria-rowindex`/`aria-colindex`, its text
 * and its rendered width).  A cell's state travels with it when rows are
 * re-ordered or re-packed.
 */
module GridModel {
  import opened Wrappers
  import Strings

  /** Values of the `aria-sort` attribute; `Unsorted` is "none". */
  datatype SortType = Ascending | Descending | Unsorted

  datatype Pos = Pos(row: int, col: int)

  /**
   * A focusable element of the grid: `node` identifies the DOM element,
   * `isInput` says whether it is an `<input>`, `text` is its `innerText`
   * (or `value` for an input) and `width` its `offsetWidth`.
   */
  datatype Cell = Cell(node: nat, isInput: bool, hidden: bool, tabIndex: int,
                       text: string, rowIndex: int, colIndex: int, width: nat)

  /** The focus matrix: one row per DOM row that holds a focusable cell. */
  type Matrix = seq<seq<Cell>>

  /** `isValidCell`: the coordinates lie inside the (jagged) matrix. */
  predicate ValidCell(g: Matrix, row: int, col: int) {
    0 <= row < |g| && 0 <= col < |g[row]|
  }

  predicate ValidPos(g: Matrix, p: Pos) {
    ValidCell(g, p.row, p.col)
  }

  predicate IsHidden(g: Matrix, p: Pos)
    requires ValidPos(g, p)
  {
    g[p.row][p.col].hidden
  }

  /** One arrow-key step: exactly one of the two components is +1 or -1. */
  predicate IsDirection(dx: int, dy: int) {
    (dx == 0 && (dy == 1 || dy == -1)) || (dy == 0 && (dx == 1 || dx == -1))
  }

  /**
   * The wrapping rules of `getNextCell` applied to the moved coordinates
   * (`row`, `col`).  Column wrapping compares against the width of the
   * first row; row wrapping moves to the next (or previous) column.
   */
  function Wrapped(g: Matrix, wrapCols: bool, wrapRows: bool, row: int, col: int, isLeftRight: bool): Pos
    requires |g| > 0
  {
    var colCount := |g[0]|;
    var p1 := if col < 0 && wrapCols && isLeftRight then Pos(row - 1, colCount - 1) else Pos(row, col);
    var p2 := if p1.col >= colCount && wrapCols && isLeftRight then Pos(p1.row + 1, 0) else p1;
    if wrapRows && !isLeftRight then
      if p2.row < 0 then
        var last := |g| - 1;
        if p2.col - 1 >= 0 && p2.col - 1 >= |g[last]| then Pos(last - 1, p2.col - 1)
        else Pos(last, p2.col - 1)
      else if p2.row >= |g| || !(0 <= p2.col < |g[p2.row]|) then Pos(0, p2.col + 1)
      else p2
    else p2
  }

  /**
   * `getNextCell`: the wrapped neighbour if it is a cell of the matrix,
   * otherwise the starting cell if that is one, otherwise `None` (the
   * source's `false`).
   */
  function NextCell(g: Matrix, wrapCols: bool, wrapRows: bool, currRow: int, currCol: int, dx: int, dy: int): (next: Option<Pos>)
    ensures |g| == 0 ==> next.None?
    ensures ValidCell(g, currRow, currCol) ==> next.Some?
    ensures next.Some? ==> ValidPos(g, next.value)
    ensures next.Some? && next.value != Pos(currRow, currCol) ==>
              next.value == Wrapped(g, wrapCols, wrapRows, currRow + dy, currCol + dx, dx != 0)
  {
    if |g| == 0 then None
    else
      var p := Wrapped(g, wrapCols, wrapRows, currRow + dy, currCol + dx, dx != 0);
      if ValidPos(g, p) then Some(p)
      else if ValidCell(g, currRow, currCol) then Some(Pos(currRow, currCol))
      else None
  }

  /** The widest row: every column index of the matrix lies below it. */
  function MaxWidth(g: Matrix): (w: nat)
    ensures forall r :: 0 <= r < |g| ==> |g[r]| <= w
  {
    if |g| == 0 then 0
    else
      var m := MaxWidth(g[1..]);
      assert forall r :: 1 <= r < |g| ==> g[r] == g[1..][r - 1];
      if |g[0]| > m then |g[0]| else m
  }

  /**
   * The shape the grid assumes of its DOM (reference.js:44-47, "a fully
   * filled in m x n grid"): every row is as wide as the first one, except
   * the last row, which may be shorter (as `restructureGrid` leaves it).
   */
  predicate FilledRows(g: Matrix) {
    |g| > 0 ==> (forall r :: 0 <= r < |g| - 1 ==> |g[r]| == |g[0]|) && |g[|g| - 1]| <= |g[0]|
  }

  /**
   * The distance still to travel in the direction of the step: row-major
   * order for Left/Right, column-major order for Up/Down.
   */
  function Rank(g: Matrix, p: Pos, dx: int, dy: int): (k: nat)
    requires ValidPos(g, p)
    ensures k < |g| * MaxWidth(g)
  {
    var h, w := |g|, MaxWidth(g);
    var r: nat, c: nat := p.row, p.col;
    var r': nat, c': nat := h - 1 - r, w - 1 - c;
    LexLess(r', c', h, 0, w);
    LexLess(r, c, h, 0, w);
    LexLess(c', r', w, 0, h);
    LexLess(c, r, w, 0, h);
    if dx == 1 then r' * w + c'
    else if dx == -1 then r * w + c
    else if dy == 1 then c' * h + r'
    else c * h + r
  }

  /** Lexicographic order on (a, b) with b below a bound embeds in the integers. */
  lemma LexLess(a1: int, b1: int, a2: int, b2: int, bound: int)
    requires a1 < a2 && 0 <= b1 < bound && 0 <= b2
    ensures a1 * bound + b1 < a2 * bound + b2
    ensures 0 <= a1 ==> 0 <= a1 * bound + b1
  {
    assert (a1 + 1) * bound <= a2 * bound by {
      assert (a2 - a1 - 1) * bound >= 0;
    }
  }

  /**
   * On a filled grid every step of `getNextCell` that moves, moves strictly
   * forward in the order of its direction.
   */
  lemma NextCellAdvances(g: Matrix, wrapCols: bool, wrapRows: bool, p: Pos, dx: int, dy: int)
    requires FilledRows(g) && ValidPos(g, p) && IsDirection(dx, dy)
    ensures var q := NextCell(g, wrapCols, wrapRows, p.row, p.col, dx, dy).value;
            q == p || Rank(g, q, dx, dy) < Rank(g, p, dx, dy)
  {
    var q := NextCell(g, wrapCols, wrapRows, p.row, p.col, dx, dy).value;
    if q != p {
      var h, w := |g|, MaxWidth(g);
      assert |g[p.row]| <= |g[0]|;
      assert p.col < w && q.col < w;
      if dx == 1 {
        if q.row == p.row {
          assert q.col == p.col + 1;
        } else {
          assert q.row == p.row + 1;
          LexLess(h - 1 - q.row, w - 1 - q.col, h - 1 - p.row, w - 1 - p.col, w);
        }
      } else if dx == -1 {
        if q.row == p.row {
          assert q.col == p.col - 1;
        } else {
          assert q.row == p.row - 1;
          LexLess(q.row, q.col, p.row, p.col, w);
        }
      } else if dy == 1 {
        if q.col == p.col {
          assert q.row == p.row + 1;
        } else {
          assert q.col == p.col + 1;
          LexLess(w - 1 - q.col, h - 1 - q.row, w - 1 - p.col, h - 1 - p.row, h);
        }
      } else {
        if q.col == p.col {
          assert q.row == p.row - 1;
        } else {
          assert q.col == p.col - 1;
          LexLess(q.col, q.row, p.col, p.row, h);
        }
      }
    }
  }

  /**
   * The loop of `getNextVisibleCell` as written, started at cell `p`: `p`
   * itself when it is not hidden; otherwise the scan continues from the
   * next cell, and gives up (`None`) when `getNextCell` no longer moves.
   * It is defined on filled grids only: see `JaggedScanCycles`.
   */
  function VisibleFrom(g: Matrix, wrapCols: bool, wrapRows: bool, p: Pos, dx: int, dy: int): (r: Option<Pos>)
    requires FilledRows(g) && ValidPos(g, p) && IsDirection(dx, dy)
    ensures r.Some? ==> ValidPos(g, r.value) && !IsHidden(g, r.value)
    ensures r.Some? ==> r.value == p || Rank(g, r.value, dx, dy) < Rank(g, p, dx, dy)
    ensures !IsHidden(g, p) ==> r == Some(p)
    decreases Rank(g, p, dx, dy)
  {
    if !g[p.row][p.col].hidden then Some(p)
    else
      var q := NextCell(g, wrapCols, wrapRows, p.row, p.col, dx, dy).value;
      if q == p then None
      else
        NextCellAdvances(g, wrapCols, wrapRows, p, dx, dy);
        VisibleFrom(g, wrapCols, wrapRows, q, dx, dy)
  }

  /** The cell reached from `p` after `n` calls of `getNextCell`. */
  function Walk(g: Matrix, wrapCols: bool, wrapRows: bool, p: Pos, dx: int, dy: int, n: nat): (q: Pos)
    requires ValidPos(g, p)
    ensures ValidPos(g, q)
    decreases n
  {
    if n == 0 then p
    else Walk(g, wrapCols, wrapRows, NextCell(g, wrapCols, wrapRows, p.row, p.col, dx, dy).value, dx, dy, n - 1)
  }

  /**
   * The first `n` + 1 cells of the walk from `p` are hidden, and
   * `getNextCell` cannot leave the last of them.
   */
  predicate StuckAfter(g: Matrix, wrapCols: bool, wrapRows: bool, p: Pos, dx: int, dy: int, n: nat)
    requires ValidPos(g, p)
  {
    (forall k: nat :: k <= n ==> IsHidden(g, Walk(g, wrapCols, wrapRows, p, dx, dy, k))) &&
    var q := Walk(g, wrapCols, wrapRows, p, dx, dy, n);
    NextCell(g, wrapCols, wrapRows, q.row, q.col, dx, dy) == Some(q)
  }

  /**
   * The scan returns `None` only if its own path from `p` runs through
   * hidden cells, step by step, into a hidden cell that `getNextCell`
   * cannot leave.
   */
  lemma {:induction false} VisibleFromNoneStuck(g: Matrix, wrapCols: bool, wrapRows: bool, p: Pos, dx: int, dy: int)
    requires FilledRows(g) && ValidPos(g, p) && IsDirection(dx, dy)
    requires VisibleFrom(g, wrapCols, wrapRows, p, dx, dy).None?
    ensures exists n: nat :: StuckAfter(g, wrapCols, wrapRows, p, dx, dy, n)
    decreases Rank(g, p, dx, dy)
  {
    var q := NextCell(g, wrapCols, wrapRows, p.row, p.col, dx, dy).value;
    if q == p {
      assert Walk(g, wrapCols, wrapRows, p, dx, dy, 0) == p;
      assert StuckAfter(g, wrapCols, wrapRows, p, dx, dy, 0);
    } else {
      NextCellAdvances(g, wrapCols, wrapRows, p, dx, dy);
      VisibleFromNoneStuck(g, wrapCols, wrapRows, q, dx, dy);
      var m: nat :| StuckAfter(g, wrapCols, wrapRows, q, dx, dy, m);
      StuckStep(g, wrapCols, wrapRows, p, q, dx, dy, m);
    }
  }

  /** A stuck walk from the next cell of a hidden `p` is a stuck walk from `p`, one step longer. */
  lemma StuckStep(g: Matrix, wrapCols: bool, wrapRows: bool, p: Pos, q: Pos, dx: int, dy: int, m: nat)
    requires ValidPos(g, p) && IsHidden(g, p)
    requires q == NextCell(g, wrapCols, wrapRows, p.row, p.col, dx, dy).value
    requires StuckAfter(g, wrapCols, wrapRows, q, dx, dy, m)
    ensures StuckAfter(g, wrapCols, wrapRows, p, dx, dy, m + 1)
  {
    forall k: nat | k <= m + 1
      ensures IsHidden(g, Walk(g, wrapCols, wrapRows, p, dx, dy, k))
    {
      if k > 0 {
        assert Walk(g, wrapCols, wrapRows, p, dx, dy, k) == Walk(g, wrapCols, wrapRows, q, dx, dy, k - 1);
      }
    }
    assert Walk(g, wrapCols, wrapRows, p, dx, dy, m + 1) == Walk(g, wrapCols, wrapRows, q, dx, dy, m);
  }

  /**
   * On a jagged grid (row widths 3, 1, 3) with row wrapping, Up from (0,2)
   * goes to (2,1) and Up from (2,1) goes back to (0,2): when both cells are
   * hidden, the loop of `getNextVisibleCell` never ends.
   */
  lemma JaggedScanCycles(x: Cell)
    requires x.hidden
    ensures var g := [[x, x, x], [x], [x, x, x]];
            !FilledRows(g) &&
            NextCell(g, false, true, 0, 2, 0, -1) == Some(Pos(2, 1)) &&
            NextCell(g, false, true, 2, 1, 0, -1) == Some(Pos(0, 2)) &&
            IsHidden(g, Pos(2, 1)) && IsHidden(g, Pos(0, 2))
  {
  }

  /**
   * The scan with the termination guard it evidently intends: it gives up
   * after `fuel` further steps, so it ends on every grid.
   */
  function ScanWithin(g: Matrix, wrapCols: bool, wrapRows: bool, p: Pos, dx: int, dy: int, fuel: nat): (r: Option<Pos>)
    requires ValidPos(g, p)
    ensures r.Some? ==> ValidPos(g, r.value) && !IsHidden(g, r.value)
    ensures !IsHidden(g, p) ==> r == Some(p)
    decreases fuel
  {
    if !g[p.row][p.col].hidden then Some(p)
    else if fuel == 0 then None
    else
      var q := NextCell(g, wrapCols, wrapRows, p.row, p.col, dx, dy).value;
      if q == p then None
      else ScanWithin(g, wrapCols, wrapRows, q, dx, dy, fuel - 1)
  }

  /** One step of the guarded scan from a hidden cell. */
  lemma ScanWithinStep(g: Matrix, wrapCols: bool, wrapRows: bool, p: Pos, dx: int, dy: int, fuel: nat)
    requires ValidPos(g, p) && g[p.row][p.col].hidden
    ensures fuel == 0 ==> ScanWithin(g, wrapCols, wrapRows, p, dx, dy, fuel) == None
    ensures fuel > 0 ==>
              var q := NextCell(g, wrapCols, wrapRows, p.row, p.col, dx, dy).value;
              ScanWithin(g, wrapCols, wrapRows, p, dx, dy, fuel) ==
              if q == p then None else ScanWithin(g, wrapCols, wrapRows, q, dx, dy, fuel - 1)
  {
  }

  /** With enough fuel, the guarded scan is the scan as written, on every filled grid. */
  lemma {:induction false} ScanWithinAgrees(g: Matrix, wrapCols: bool, wrapRows: bool, p: Pos, dx: int, dy: int, fuel: nat)
    requires FilledRows(g) && ValidPos(g, p) && IsDirection(dx, dy)
    requires fuel >= Rank(g, p, dx, dy)
    ensures ScanWithin(g, wrapCols, wrapRows, p, dx, dy, fuel) == VisibleFrom(g, wrapCols, wrapRows, p, dx, dy)
    decreases fuel
  {
    if IsHidden(g, p) {
      var q := NextCell(g, wrapCols, wrapRows, p.row, p.col, dx, dy).value;
      NextCellAdvances(g, wrapCols, wrapRows, p, dx, dy);
      if q != p {
        ScanWithinAgrees(g, wrapCols, wrapRows, q, dx, dy, fuel - 1);
      }
    }
  }

  /** The number of steps after which the guarded scan gives up. */
  function ScanBound(g: Matrix): nat {
    |g| * MaxWidth(g)
  }

  /** The bound exceeds the distance left from any cell, in any direction. */
  lemma ScanBoundRank(g: Matrix)
    ensures forall p, dx, dy :: ValidPos(g, p) ==> Rank(g, p, dx, dy) < ScanBound(g)
  {
  }

  /**
   * `getNextVisibleCell` from the focused cell `f`, with the termination
   * guard.  On a filled grid it is the loop as written (`NextVisibleAsWritten`).
   */
  function NextVisible(g: Matrix, wrapCols: bool, wrapRows: bool, f: Pos, dx: int, dy: int): (r: Option<Pos>)
    requires ValidPos(g, f)
    ensures r.Some? ==> ValidPos(g, r.value) && !IsHidden(g, r.value)
  {
    ScanWithin(g, wrapCols, wrapRows, NextCell(g, wrapCols, wrapRows, f.row, f.col, dx, dy).value, dx, dy, ScanBound(g))
  }

  /** The guarded `getNextVisibleCell` agrees with the source's loop on filled grids. */
  lemma NextVisibleAsWritten(g: Matrix, wrapCols: bool, wrapRows: bool, f: Pos, dx: int, dy: int)
    requires FilledRows(g) && ValidPos(g, f) && IsDirection(dx, dy)
    ensures NextVisible(g, wrapCols, wrapRows, f, dx, dy) ==
            VisibleFrom(g, wrapCols, wrapRows, NextCell(g, wrapCols, wrapRows, f.row, f.col, dx, dy).value, dx, dy)
  {
    var n := NextCell(g, wrapCols, wrapRows, f.row, f.col, dx, dy).value;
    ScanBoundRank(g);
    ScanWithinAgrees(g, wrapCols, wrapRows, n, dx, dy, ScanBound(g));
  }

  /** Two matrices with the same rows, row widths and hidden cells: they differ at most in other attributes. */
  predicate SameLayout(g: Matrix, g': Matrix) {
    |g| == |g'| &&
    (forall r :: 0 <= r < |g| ==> |g[r]| == |g'[r]|) &&
    (forall r, c :: 0 <= r < |g| && 0 <= c < |g[r]| ==> g[r][c].hidden == g'[r][c].hidden)
  }

  lemma {:induction false} MaxWidthLayout(g: Matrix, g': Matrix)
    requires |g| == |g'| && forall r :: 0 <= r < |g| ==> |g[r]| == |g'[r]|
    ensures MaxWidth(g) == MaxWidth(g')
  {
    if |g| > 0 {
      assert forall r :: 0 <= r < |g| - 1 ==> g[1..][r] == g[r + 1] && g'[1..][r] == g'[r + 1];
      MaxWidthLayout(g[1..], g'[1..]);
    }
  }

  lemma NextCellLayout(g: Matrix, g': Matrix, wrapCols: bool, wrapRows: bool, row: int, col: int, dx: int, dy: int)
    requires |g| == |g'| && forall r :: 0 <= r < |g| ==> |g[r]| == |g'[r]|
    ensures NextCell(g, wrapCols, wrapRows, row, col, dx, dy) == NextCell(g', wrapCols, wrapRows, row, col, dx, dy)
  {
    if |g| > 0 {
      assert |g[0]| == |g'[0]| && |g[|g| - 1]| == |g'[|g| - 1]|;
      assert Wrapped(g, wrapCols, wrapRows, row + dy, col + dx, dx != 0) == Wrapped(g', wrapCols, wrapRows, row + dy, col + dx, dx != 0);
    }
  }

  lemma {:induction false} ScanWithinLayout(g: Matrix, g': Matrix, wrapCols: bool, wrapRows: bool, p: Pos, dx: int, dy: int, fuel: nat)
    requires SameLayout(g, g') && ValidPos(g, p)
    ensures ScanWithin(g, wrapCols, wrapRows, p, dx, dy, fuel) == ScanWithin(g', wrapCols, wrapRows, p, dx, dy, fuel)
    decreases fuel
  {
    if g[p.row][p.col].hidden && fuel > 0 {
      var q := NextCell(g, wrapCols, wrapRows, p.row, p.col, dx, dy).value;
      NextCellLayout(g, g', wrapCols, wrapRows, p.row, p.col, dx, dy);
      if q != p {
        ScanWithinLayout(g, g', wrapCols, wrapRows, q, dx, dy, fuel - 1);
      }
    }
  }

  /** Navigation reads only the layout: moving the tab stop does not change where the arrows go. */
  lemma NextVisibleLayout(g: Matrix, g': Matrix, wrapCols: bool, wrapRows: bool, f: Pos, dx: int, dy: int)
    requires SameLayout(g, g') && ValidPos(g, f)
    ensures NextVisible(g, wrapCols, wrapRows, f, dx, dy) == NextVisible(g', wrapCols, wrapRows, f, dx, dy)
  {
    MaxWidthLayout(g, g');
    var n := NextCell(g, wrapCols, wrapRows, f.row, f.col, dx, dy).value;
    NextCellLayout(g, g', wrapCols, wrapRows, f.row, f.col, dx, dy);
    ScanWithinLayout(g, g', wrapCols, wrapRows, n, dx, dy, ScanBound(g));
  }

  // ----- The wrap rules of getNextCell, one lemma per promise -----

  /** Without column wrapping, Left in column 0 stays put. */
  lemma LeftAtFirstColumnStays(g: Matrix, wrapRows: bool, r: int)
    requires ValidCell(g, r, 0)
    ensures NextCell(g, false, wrapRows, r, 0, -1, 0) == Some(Pos(r, 0))
  {
  }

  /** Without column wrapping, Right in the last column of a row stays put. */
  lemma RightAtLastColumnStays(g: Matrix, wrapRows: bool, r: int)
    requires 0 <= r < |g| && |g[r]| > 0
    ensures NextCell(g, false, wrapRows, r, |g[r]| - 1, 1, 0) == Some(Pos(r, |g[r]| - 1))
  {
  }

  /** With column wrapping, Right from the last column of the first row's width goes to the next row. */
  lemma RightWrapsToNextRow(g: Matrix, wrapRows: bool, r: int)
    requires 0 <= r && r + 1 < |g| && |g[0]| > 0 && |g[r + 1]| > 0
    ensures NextCell(g, true, wrapRows, r, |g[0]| - 1, 1, 0) == Some(Pos(r + 1, 0))
  {
  }

  /** With column wrapping, Left from column 0 goes to the previous row's last column. */
  lemma LeftWrapsToPreviousRow(g: Matrix, wrapRows: bool, r: int)
    requires 1 <= r < |g| && |g[0]| > 0 && |g[r - 1]| >= |g[0]|
    ensures NextCell(g, true, wrapRows, r, 0, -1, 0) == Some(Pos(r - 1, |g[0]| - 1))
  {
  }

  /** With row wrapping, Down past the last row goes to the top of the next column. */
  lemma DownWrapsToNextColumn(g: Matrix, wrapCols: bool, c: int)
    requires |g| > 0 && 0 <= c && c + 1 < |g[0]| && c < |g[|g| - 1]|
    ensures NextCell(g, wrapCols, true, |g| - 1, c, 0, 1) == Some(Pos(0, c + 1))
  {
  }

  /** With row wrapping, Down into a cell missing from a short row also goes to the next column. */
  lemma DownIntoGapWrapsToNextColumn(g: Matrix, wrapCols: bool, r: int, c: int)
    requires ValidCell(g, r, c) && r + 1 < |g| && c >= |g[r + 1]| && c + 1 < |g[0]|
    ensures NextCell(g, wrapCols, true, r, c, 0, 1) == Some(Pos(0, c + 1))
  {
  }

  /** With row wrapping, Up past row 0 goes to the last row of the previous column. */
  lemma UpWrapsToPreviousColumn(g: Matrix, wrapCols: bool, c: int)
    requires |g| > 0 && 1 <= c < |g[0]| && c - 1 < |g[|g| - 1]|
    ensures NextCell(g, wrapCols, true, 0, c, 0, -1) == Some(Pos(|g| - 1, c - 1))
  {
  }

  /** ... one row higher when the last row lacks that column. */
  lemma UpWrapsAboveShortLastRow(g: Matrix, wrapCols: bool, c: int)
    requires |g| >= 2 && 1 <= c < |g[0]| && c - 1 >= |g[|g| - 1]| && c - 1 < |g[|g| - 2]|
    ensures NextCell(g, wrapCols, true, 0, c, 0, -1) == Some(Pos(|g| - 2, c - 1))
  {
  }

  /** In a 2 x 3 grid with column wrapping, Left at (0,0) stays and Right at (0,2) gives (1,0). */
  lemma TwoByThreeExample(g: Matrix)
    requires |g| == 2 && |g[0]| == 3 && |g[1]| == 3
    ensures NextCell(g, true, false, 0, 0, -1, 0) == Some(Pos(0, 0))
    ensures NextCell(g, true, false, 0, 2, 1, 0) == Some(Pos(1, 0))
  {
  }

  // ----- Tab stops (setFocusPointer) -----

  /** The matrix with the `tabindex` of the cell at `p` set to `t`. */
  function WithTab(g: Matrix, p: Pos, t: int): (g': Matrix)
    requires ValidPos(g, p)
    ensures |g'| == |g| && forall r :: 0 <= r < |g| ==> |g'[r]| == |g[r]|
    ensures forall r, c :: ValidCell(g, r, c) ==>
              g'[r][c] == if Pos(r, c) == p then g[r][c].(tabIndex := t) else g[r][c]
  {
    g[p.row := g[p.row][p.col := g[p.row][p.col].(tabIndex := t)]]
  }

  /**
   * The roving tab index: the cell under the focus pointer is the only one
   * with `tabindex` 0, and no cell has it while the pointer is unset.
   */
  ghost predicate SingleTabStop(g: Matrix, focus: Option<Pos>) {
    forall r, c :: ValidCell(g, r, c) ==> (g[r][c].tabIndex == 0 <==> focus == Some(Pos(r, c)))
  }

  /** What `setFocusPointer` does to the cells: the old stop gets -1, the new one 0. */
  function MoveTabStop(g: Matrix, focus: Option<Pos>, p: Pos): (g': Matrix)
    requires ValidPos(g, p) && (focus.Some? ==> ValidPos(g, focus.value))
    ensures |g'| == |g| && forall r :: 0 <= r < |g| ==> |g'[r]| == |g[r]|
    ensures forall r, c :: ValidCell(g, r, c) ==> g'[r][c].(tabIndex := 0) == g[r][c].(tabIndex := 0)
    ensures g'[p.row][p.col].tabIndex == 0
    ensures focus.Some? && focus.value != p ==> g'[focus.value.row][focus.value.col].tabIndex == -1
    ensures forall r, c :: ValidCell(g, r, c) && Pos(r, c) != p && focus != Some(Pos(r, c)) ==> g'[r][c] == g[r][c]
  {
    WithTab(if focus.Some? then WithTab(g, focus.value, -1) else g, p, 0)
  }

  /** Moving the tab stop keeps exactly one cell at tabindex 0: the new target. */
  lemma MoveTabStopSingle(g: Matrix, focus: Option<Pos>, p: Pos)
    requires ValidPos(g, p) && (focus.Some? ==> ValidPos(g, focus.value))
    requires SingleTabStop(g, focus)
    ensures SingleTabStop(MoveTabStop(g, focus, p), Some(p))
  {
    var g' := MoveTabStop(g, focus, p);
    forall r, c | ValidCell(g', r, c)
      ensures g'[r][c].tabIndex == 0 <==> Some(p) == Some(Pos(r, c))
    {
      assert ValidCell(g, r, c);
      if Pos(r, c) != p && focus != Some(Pos(r, c)) {
        assert g'[r][c] == g[r][c];
      }
    }
  }

  /** Re-setting the tab stop on the cell that already holds it changes nothing. */
  lemma MoveTabStopInPlace(g: Matrix, p: Pos)
    requires ValidPos(g, p) && SingleTabStop(g, Some(p))
    ensures MoveTabStop(g, Some(p), p) == g
  {
    var g' := MoveTabStop(g, Some(p), p);
    assert g[p.row][p.col].tabIndex == 0;
    assert forall r :: 0 <= r < |g| ==> g'[r] == g[r];
  }

  /** Moving the tab stop changes no row, width or hidden class. */
  lemma MoveTabStopLayout(g: Matrix, focus: Option<Pos>, p: Pos)
    requires ValidPos(g, p) && (focus.Some? ==> ValidPos(g, focus.value))
    ensures SameLayout(g, MoveTabStop(g, focus, p))
  {
    var g': Matrix := MoveTabStop(g, focus, p);
    forall r: int, c: int | ValidCell(g, r, c)
      ensures g[r][c].hidden == g'[r][c].hidden
    {
      assert g'[r][c].(tabIndex := 0).hidden == g[r][c].(tabIndex := 0).hidden;
    }
  }

  // ----- findFocusedItem / focusClickedCell -----

  /** `a` comes before `b` in the row-major order of the nested search loops. */
  predicate Before(a: Pos, b: Pos) {
    a.row < b.row || (a.row == b.row && a.col < b.col)
  }

  /** The first column of `row` holding the element `target`. */
  function FindInRow(row: seq<Cell>, target: nat, j: nat): (c: Option<nat>)
    requires j <= |row|
    ensures c.Some? ==> j <= c.value < |row| && row[c.value].node == target
    ensures c.Some? ==> forall k :: j <= k < c.value ==> row[k].node != target
    ensures c.None? ==> forall k :: j <= k < |row| ==> row[k].node != target
    decreases |row| - j
  {
    if j == |row| then None
    else if row[j].node == target then Some(j)
    else FindInRow(row, target, j + 1)
  }

  /** The first cell, from row `i` on, holding the element `target`. */
  function FindNodeFrom(g: Matrix, target: nat, i: nat): (p: Option<Pos>)
    requires i <= |g|
    ensures p.Some? ==> ValidPos(g, p.value) && i <= p.value.row && g[p.value.row][p.value.col].node == target
    ensures p.Some? ==> forall r, c :: ValidCell(g, r, c) && i <= r && Before(Pos(r, c), p.value) ==> g[r][c].node != target
    ensures p.None? ==> forall r, c :: ValidCell(g, r, c) && i <= r ==> g[r][c].node != target
    decreases |g| - i
  {
    if i == |g| then None
    else match FindInRow(g[i], target, 0)
      case Some(c) => Some(Pos(i, c))
      case None => FindNodeFrom(g, target, i + 1)
  }

  /** The first cell of the matrix, in row-major order, that is the element `target`. */
  function FindNode(g: Matrix, target: nat): (p: Option<Pos>)
    ensures p.Some? ==> ValidPos(g, p.value) && g[p.value.row][p.value.col].node == target
    ensures p.Some? ==> forall r, c :: ValidCell(g, r, c) && Before(Pos(r, c), p.value) ==> g[r][c].node != target
    ensures p.None? <==> forall r, c :: ValidCell(g, r, c) ==> g[r][c].node != target
  {
    FindNodeFrom(g, target, 0)
  }

  /**
   * Where `findFocusedItem` leaves the focus pointer `f`: unchanged when
   * the focused cell is the event target; otherwise the first cell that is
   * the target, when `setFocusPointer` accepts it (it is not hidden).
   */
  function FocusAfterFind(g: Matrix, f: Pos, target: nat): (f': Pos)
    requires ValidPos(g, f)
    ensures ValidPos(g, f')
    ensures f' != f ==> g[f'.row][f'.col].node == target && !IsHidden(g, f') && FindNode(g, target) == Some(f')
    ensures g[f.row][f.col].node == target ==> f' == f
    ensures g[f.row][f.col].node != target && FindNode(g, target).Some? && !IsHidden(g, FindNode(g, target).value) ==>
              f' == FindNode(g, target).value
  {
    if g[f.row][f.col].node == target then f
    else match FindNode(g, target)
      case Some(p) => if !g[p.row][p.col].hidden then p else f
      case None => f
  }

  // ----- aria-rowindex / aria-colindex (setupIndices) and toggleColumn -----

  /** `setupIndices`: every cell gets aria-rowindex row+1 and aria-colindex col+1. */
  function WithIndices(g: Matrix): (g': Matrix)
    ensures |g'| == |g| && forall r :: 0 <= r < |g| ==> |g'[r]| == |g[r]|
    ensures forall r, c :: ValidCell(g, r, c) ==>
              g'[r][c] == g[r][c].(rowIndex := r + 1, colIndex := c + 1)
  {
    seq(|g|, r requires 0 <= r < |g| => seq(|g[r]|, c requires 0 <= c < |g[r]| => g[r][c].(rowIndex := r + 1, colIndex := c + 1)))
  }

  /** `setupIndices` touches neither the tab stop, the layout nor what each cell is. */
  lemma IndicesKeepFocus(g: Matrix, focus: Option<Pos>)
    ensures SingleTabStop(WithIndices(g), focus) == SingleTabStop(g, focus)
    ensures SameLayout(g, WithIndices(g))
    ensures forall r, c :: ValidCell(g, r, c) ==>
              WithIndices(g)[r][c].isInput == g[r][c].isInput && WithIndices(g)[r][c].node == g[r][c].node
  {
  }

  /** `toggleColumn`'s effect on the cells: the hidden class of the column's cells. */
  function ToggledColumn(g: Matrix, colIndex: int, isShown: bool): (g': Matrix)
    ensures |g'| == |g| && forall r :: 0 <= r < |g| ==> |g'[r]| == |g[r]|
    ensures forall r, c :: ValidCell(g, r, c) && g[r][c].colIndex != colIndex ==> g'[r][c] == g[r][c]
    ensures forall r, c :: ValidCell(g, r, c) && g[r][c].colIndex == colIndex ==>
              g'[r][c] == g[r][c].(hidden := !isShown)
  {
    seq(|g|, r requires 0 <= r < |g| =>
      seq(|g[r]|, c requires 0 <= c < |g[r]| =>
        if g[r][c].colIndex == colIndex then g[r][c].(hidden := !isShown) else g[r][c]))
  }

  /** Hiding a column and showing it again leaves it visible and every other cell as it was. */
  lemma HideThenShow(g: Matrix, k: int)
    ensures ToggledColumn(ToggledColumn(g, k, false), k, true) == ToggledColumn(g, k, true)
    ensures (forall r, c :: ValidCell(g, r, c) && g[r][c].colIndex == k ==> !g[r][c].hidden) ==>
              ToggledColumn(ToggledColumn(g, k, false), k, true) == g
  {
    var a := ToggledColumn(ToggledColumn(g, k, false), k, true);
    var b := ToggledColumn(g, k, true);
    assert forall r :: 0 <= r < |g| ==> a[r] == b[r];
    if forall r, c :: ValidCell(g, r, c) && g[r][c].colIndex == k ==> !g[r][c].hidden {
      assert forall r :: 0 <= r < |g| ==> b[r] == g[r];
    }
  }

  /** After `setupIndices`, toggling aria-colindex k touches exactly the cells of column k-1. */
  lemma ToggleIndexedColumn(g: Matrix, k: int, isShown: bool)
    ensures var g' := ToggledColumn(WithIndices(g), k, isShown);
            forall r, c :: ValidCell(g, r, c) ==>
              g'[r][c].hidden == (if c == k - 1 then !isShown else g[r][c].hidden)
  {
  }

  // ----- setupFocusGrid -----

  /**
   * A DOM cell of a row: `self` is the cell itself when it carries a
   * tabindex, `inner` its first descendant that does.
   */
  datatype DomCell = DomCell(self: Option<Cell>, inner: Option<Cell>)

  /** The focusable element `setupFocusGrid` takes from a DOM cell, if any. */
  function Focusable(d: DomCell): Option<Cell> {
    if d.self.Some? then d.self else d.inner
  }

  /** The focusable elements of a DOM row, in document order. */
  function FocusRow(row: seq<DomCell>): (cells: seq<Cell>)
    ensures |cells| <= |row|
  {
    if row == [] then []
    else
      match Focusable(row[|row| - 1])
      case None => FocusRow(row[..|row| - 1])
      case Some(x) => FocusRow(row[..|row| - 1]) + [x]
  }

  /** `setupFocusGrid`: one matrix row per DOM row that has a focusable element. */
  function FocusMatrix(dom: seq<seq<DomCell>>): (g: Matrix)
    ensures |g| <= |dom|
    ensures forall r :: 0 <= r < |g| ==> g[r] != []
  {
    if dom == [] then []
    else
      var init := FocusMatrix(dom[..|dom| - 1]);
      var row := FocusRow(dom[|dom| - 1]);
      if row == [] then init else init + [row]
  }

  /**
   * A matrix row holds only focusable elements of its DOM row, and a DOM
   * row with a focusable element yields a non-empty matrix row.
   */
  lemma {:induction false} FocusRowSound(row: seq<DomCell>)
    ensures forall x :: x in FocusRow(row) ==> exists d :: d in row && Focusable(d) == Some(x)
    ensures (exists d :: d in row && Focusable(d).Some?) ==> FocusRow(row) != []
  {
    if row != [] {
      var init := row[..|row| - 1];
      FocusRowSound(init);
      FocusRowKeeps(row);
      assert forall d :: d in init ==> d in row;
    }
  }

  /** Every row of the matrix is the focusable elements of some DOM row. */
  lemma {:induction false} FocusMatrixSound(dom: seq<seq<DomCell>>)
    ensures forall r :: 0 <= r < |FocusMatrix(dom)| ==>
              exists i :: 0 <= i < |dom| && FocusMatrix(dom)[r] == FocusRow(dom[i])
  {
    if dom != [] {
      var init := dom[..|dom| - 1];
      FocusMatrixSound(init);
      forall r | 0 <= r < |FocusMatrix(init)|
        ensures exists i :: 0 <= i < |dom| && FocusMatrix(init)[r] == FocusRow(dom[i])
      {
        var i :| 0 <= i < |init| && FocusMatrix(init)[r] == FocusRow(init[i]);
        assert init[i] == dom[i];
      }
      var last := FocusRow(dom[|dom| - 1]);
      assert FocusMatrix(dom) == if last == [] then FocusMatrix(init) else FocusMatrix(init) + [last];
      forall r | 0 <= r < |FocusMatrix(dom)|
        ensures exists i :: 0 <= i < |dom| && FocusMatrix(dom)[r] == FocusRow(dom[i])
      {
        if r == |FocusMatrix(init)| {
          assert FocusMatrix(dom)[r] == FocusRow(dom[|dom| - 1]);
        } else {
          assert FocusMatrix(dom)[r] == FocusMatrix(init)[r];
        }
      }
    } else {
      assert FocusMatrix(dom) == [];
    }
  }

  /** Every focusable element of the DOM row is in its matrix row. */
  lemma {:induction false} FocusRowKeeps(row: seq<DomCell>)
    ensures forall d :: d in row && Focusable(d).Some? ==> Focusable(d).value in FocusRow(row)
  {
    if row != [] {
      var init := row[..|row| - 1];
      FocusRowKeeps(init);
      assert forall d :: d in row ==> d in init || d == row[|row| - 1];
    }
  }

  /** Every DOM row with a focusable element yields its row of the matrix. */
  lemma {:induction false} FocusMatrixKeeps(dom: seq<seq<DomCell>>)
    ensures forall i :: 0 <= i < |dom| && FocusRow(dom[i]) != [] ==> FocusRow(dom[i]) in FocusMatrix(dom)
  {
    if dom != [] {
      var init := dom[..|dom| - 1];
      FocusMatrixKeeps(init);
      forall i | 0 <= i < |dom| && FocusRow(dom[i]) != []
        ensures FocusRow(dom[i]) in FocusMatrix(dom)
      {
        if i < |dom| - 1 {
          assert dom[i] == init[i];
        }
      }
    }
  }

  /** The focusable elements of two runs of DOM cells, in document order. */
  lemma {:induction false} FocusRowAppend(a: seq<DomCell>, b: seq<DomCell>)
    ensures FocusRow(a + b) == FocusRow(a) + FocusRow(b)
    decreases |b|
  {
    if b == [] {
      assert a + b == a;
    } else {
      assert (a + b)[..|a + b| - 1] == a + b[..|b| - 1];
      FocusRowAppend(a, b[..|b| - 1]);
    }
  }

  /** The matrix rows of two runs of DOM rows, in document order. */
  lemma {:induction false} FocusMatrixAppend(a: seq<seq<DomCell>>, b: seq<seq<DomCell>>)
    ensures FocusMatrix(a + b) == FocusMatrix(a) + FocusMatrix(b)
    decreases |b|
  {
    if b == [] {
      assert a + b == a;
    } else {
      assert (a + b)[..|a + b| - 1] == a + b[..|b| - 1];
      FocusMatrixAppend(a, b[..|b| - 1]);
    }
  }

  // ----- Pagination (showFromRow, movePageUp, movePageDown) -----

  function Max(a: int, b: int): int { if a < b then b else a }
  function Min(a: int, b: int): int { if a < b then a else b }

  /** The first row `showFromRow` shows. */
  function WindowLo(start: int, down: bool, perPage: int): int {
    if down then start else Max(0, start - perPage + 1)
  }

  /** The last row `showFromRow` shows. */
  function WindowHi(n: int, start: int, down: bool, perPage: int): int {
    if down then Min(n - 1, start + perPage - 1) else start
  }

  /**
   * The hidden flags `showFromRow` leaves on the `n` scrollable rows: a row
   * is shown when it lies in [start, start+perPage) scrolling down, or in
   * (start-perPage, start] scrolling up.  The shown rows are exactly the
   * clipped interval [WindowLo, WindowHi], which always holds `start`.
   */
  function PageWindow(n: nat, start: int, down: bool, perPage: int): (hidden: seq<bool>)
    requires 0 <= start < n && perPage >= 1
    ensures |hidden| == n
    ensures forall i :: 0 <= i < n ==> (!hidden[i] <==> WindowLo(start, down, perPage) <= i <= WindowHi(n, start, down, perPage))
    ensures 0 <= WindowLo(start, down, perPage) <= start <= WindowHi(n, start, down, perPage) < n
    ensures WindowHi(n, start, down, perPage) - WindowLo(start, down, perPage) < perPage
  {
    seq(n, i requires 0 <= i < n =>
      !((down && i >= start && i < start + perPage) || (!down && i <= start && i > start - perPage)))
  }

  /** The start row of `movePageUp`. */
  function PageUpStart(perPage: int, topIndex: int): int {
    Max(perPage - 1, topIndex - 1)
  }

  /** The start row of `movePageDown`. */
  function PageDownStart(perPage: int, topIndex: int): int {
    topIndex + perPage
  }

  /**
   * The page state `checkFocusChange` leaves after scrolling to `row`
   * (`h0`/`top0` before, `h`/`top` after): a row above the page starts the
   * new page, a row below it ends the new page, and otherwise, or when the
   * row is not a scrollable row, nothing changes.
   */
  predicate ScrolledTo(h0: seq<bool>, top0: int, h: seq<bool>, top: int, perPage: int, row: int)
    requires perPage >= 1
  {
    if 0 <= row < |h0| && row < top0 then
      h == PageWindow(|h0|, row, true, perPage) && top == WindowLo(row, true, perPage)
    else if 0 <= row < |h0| && row >= top0 + perPage then
      h == PageWindow(|h0|, row, false, perPage) && top == WindowLo(row, false, perPage)
    else
      h == h0 && top == top0
  }

  /** Scrolling keeps a whole page on show, and a scrollable target row ends up on it. */
  lemma ScrolledShows(h0: seq<bool>, top0: int, h: seq<bool>, top: int, perPage: int, row: int)
    requires perPage >= 1 && 0 <= top0 && ShowsPage(h0, top0, perPage)
    requires ScrolledTo(h0, top0, h, top, perPage, row)
    ensures |h| == |h0| && ShowsPage(h, top, perPage) && 0 <= top
    ensures 0 <= row < |h| ==> !h[row]
  {
    if 0 <= row < |h0| && row < top0 {
      WindowIsPage(|h0|, row, true, perPage);
    } else if 0 <= row < |h0| && row >= top0 + perPage {
      WindowIsPage(|h0|, row, false, perPage);
    }
  }

  /** 5 rows, 2 per page: the first page is {0,1}; paging down shows {2,3} from row 2. */
  lemma PaginationExample()
    ensures PageWindow(5, 0, true, 2) == [false, false, true, true, true]
    ensures WindowLo(0, true, 2) == 0
    ensures PageWindow(5, PageDownStart(2, 0), true, 2) == [true, true, false, false, true]
    ensures WindowLo(PageDownStart(2, 0), true, 2) == 2
  {
    var a := PageWindow(5, 0, true, 2);
    assert !a[0] && !a[1] && a[2] && a[3] && a[4];
    var b := PageWindow(5, 2, true, 2);
    assert b[0] && b[1] && !b[2] && !b[3] && b[4];
  }

  /** Paging down from a full page and back up restores the page and its top row. */
  lemma PageDownThenUp(n: nat, perPage: int, top: int)
    requires perPage >= 1 && 0 <= top && top + 2 * perPage <= n
    ensures var down := PageDownStart(perPage, top);
            var up := PageUpStart(perPage, WindowLo(down, true, perPage));
            0 <= up < n && WindowLo(up, false, perPage) == top &&
            PageWindow(n, up, false, perPage) == PageWindow(n, top, true, perPage)
  {
    var up := PageUpStart(perPage, top + perPage);
    var a := PageWindow(n, up, false, perPage);
    var b := PageWindow(n, top, true, perPage);
    assert forall i :: 0 <= i < n ==> a[i] == b[i];
  }

  /** Exactly the rows [top, top+perPage) of the scrollable rows are shown. */
  predicate ShowsPage(hidden: seq<bool>, top: int, perPage: int) {
    forall i :: 0 <= i < |hidden| ==> (!hidden[i] <==> top <= i < top + perPage)
  }

  /**
   * Scrolling down, or up from a row at least a page below the top, shows
   * exactly the page of `perPage` rows that starts at the new top row.
   */
  lemma WindowIsPage(n: nat, start: int, down: bool, perPage: int)
    requires 0 <= start < n && perPage >= 1
    requires down || start >= perPage - 1
    ensures ShowsPage(PageWindow(n, start, down, perPage), WindowLo(start, down, perPage), perPage)
  {
  }

  /** Scrolling up from a row near the top shows a short page: the window is clipped at row 0. */
  lemma ShortPageNearTop()
    ensures PageWindow(4, 0, false, 2) == [false, true, true, true]
    ensures WindowLo(0, false, 2) == 0 && !ShowsPage(PageWindow(4, 0, false, 2), 0, 2)
  {
    var w := PageWindow(4, 0, false, 2);
    assert !w[0] && w[1] && w[2] && w[3];
  }

  // ----- handleSort / sortRows -----

  predicate IsDigit(c: char) {
    '0' <= c <= '9'
  }

  /** `text.replace(/[^0-9.]+/g, "")`: only the digits and dots remain, in order. */
  function NumericChars(s: string): (r: string)
    ensures |r| <= |s|
    ensures forall i :: 0 <= i < |r| ==> IsDigit(r[i]) || r[i] == '.'
  {
    if s == [] then []
    else
      (if IsDigit(s[0]) || s[0] == '.' then [s[0]] else []) + NumericChars(s[1..])
  }

  /**
   * The filter drops nothing it should keep: every digit and dot of `s`
   * survives, and `s` comes back unchanged exactly when it holds nothing else.
   */
  lemma {:induction false} NumericCharsKeeps(s: string)
    ensures forall c :: IsDigit(c) || c == '.' ==> multiset(NumericChars(s))[c] == multiset(s)[c]
    ensures (forall i :: 0 <= i < |s| ==> IsDigit(s[i]) || s[i] == '.') <==> NumericChars(s) == s
  {
    if s != [] {
      NumericCharsKeeps(s[1..]);
      assert s == [s[0]] + s[1..];
      assert forall i :: 1 <= i < |s| ==> s[i] == s[1..][i - 1];
      if NumericChars(s) == s {
        assert forall i :: 0 <= i < |s| ==> s[i] == NumericChars(s)[i];
      }
    }
  }

  /** The filter keeps the order: it works piece by piece. */
  lemma {:induction false} NumericCharsAppend(a: string, b: string)
    ensures NumericChars(a + b) == NumericChars(a) + NumericChars(b)
  {
    if a != [] {
      assert (a + b)[1..] == a[1..] + b;
      NumericCharsAppend(a[1..], b);
    } else {
      assert a + b == b;
    }
  }

  /** The digits `parseInt` reads: the longest all-digit prefix. */
  function LeadingDigits(s: string): (d: string)
    ensures |d| <= |s| && d == s[..|d|]
    ensures forall i :: 0 <= i < |d| ==> IsDigit(d[i])
    ensures |d| < |s| ==> !IsDigit(s[|d|])
  {
    if s != [] && IsDigit(s[0]) then [s[0]] + LeadingDigits(s[1..]) else []
  }

  /** The decimal value of a run of digits. */
  function DigitsValue(d: string): nat
    requires forall i :: 0 <= i < |d| ==> IsDigit(d[i])
  {
    if d == [] then 0
    else
      assert IsDigit(d[|d| - 1]);
      DigitsValue(d[..|d| - 1]) * 10 + (d[|d| - 1] as int - '0' as int)
  }

  /**
   * The comparator's key: `parseInt` of the text with everything but digits
   * and dots removed; `None` is NaN (no digit before the first dot).
   */
  function SortKey(text: string): (k: Option<nat>)
    ensures k.None? <==> (NumericChars(text) == [] || NumericChars(text)[0] == '.')
  {
    var d := LeadingDigits(NumericChars(text));
    if d == [] then None else Some(DigitsValue(d))
  }

  /** Every data row has a cell in column `col` whose key is a number. */
  predicate Sortable(rows: Matrix, col: nat) {
    forall i :: 0 <= i < |rows| ==> col < |rows[i]| && SortKey(rows[i][col].text).Some?
  }

  /** The row's key in column `col` (-1 where there is none, which `Sortable` excludes). */
  function RowKey(row: seq<Cell>, col: nat): int {
    if col < |row| && SortKey(row[col].text).Some? then SortKey(row[col].text).value else -1
  }

  /** The comparator allows `a` before `b`: `compareFn(a, b) <= 0`. */
  predicate InOrder(a: seq<Cell>, b: seq<Cell>, col: nat, dir: SortType) {
    if dir == Descending then RowKey(b, col) <= RowKey(a, col) else RowKey(a, col) <= RowKey(b, col)
  }

  predicate SortedBy(rows: Matrix, col: nat, dir: SortType) {
    forall i, j :: 0 <= i < j < |rows| ==> InOrder(rows[i], rows[j], col, dir)
  }

  /** Inserts `x` after every row the comparator allows before it (a stable insertion). */
  function InsertRow(x: seq<Cell>, s: Matrix, col: nat, dir: SortType): (r: Matrix)
    ensures multiset(r) == multiset(s) + multiset{x}
  {
    if s == [] then [x]
    else if InOrder(s[0], x, col, dir) then
      assert s == [s[0]] + s[1..];
      [s[0]] + InsertRow(x, s[1..], col, dir)
    else
      [x] + s
  }

  /** Every row of `InsertRow(x, s, ..)` is `x` or a row of `s`. */
  lemma {:induction false} InsertRowMembers(x: seq<Cell>, s: Matrix, col: nat, dir: SortType)
    ensures forall y :: y in InsertRow(x, s, col, dir) ==> y == x || y in s
  {
    if s != [] && InOrder(s[0], x, col, dir) {
      InsertRowMembers(x, s[1..], col, dir);
      assert forall y :: y in s[1..] ==> y in s;
    }
  }

  /** The comparator's order is transitive, and total where it fails. */
  lemma InOrderChain(a: seq<Cell>, b: seq<Cell>, c: seq<Cell>, col: nat, dir: SortType)
    ensures InOrder(a, b, col, dir) && InOrder(b, c, col, dir) ==> InOrder(a, c, col, dir)
    ensures !InOrder(b, a, col, dir) && InOrder(b, c, col, dir) ==> InOrder(a, c, col, dir)
  {
  }

  lemma {:induction false} InsertRowSorted(x: seq<Cell>, s: Matrix, col: nat, dir: SortType)
    requires SortedBy(s, col, dir)
    ensures SortedBy(InsertRow(x, s, col, dir), col, dir)
  {
    if s != [] && InOrder(s[0], x, col, dir) {
      InsertRowSorted(x, s[1..], col, dir);
      InsertRowMembers(x, s[1..], col, dir);
      SortedCons(s[0], InsertRow(x, s[1..], col, dir), col, dir) by {
        var rest := InsertRow(x, s[1..], col, dir);
        forall y | y in rest
          ensures InOrder(s[0], y, col, dir)
        {
          if y != x {
            var k :| 0 <= k < |s[1..]| && s[1..][k] == y;
            assert s[k + 1] == y;
          }
        }
      }
    } else if s != [] {
      forall y | y in s
        ensures InOrder(x, y, col, dir)
      {
        var k :| 0 <= k < |s| && s[k] == y;
        if k > 0 {
          assert InOrder(s[0], s[k], col, dir);
        }
        InOrderChain(x, s[0], y, col, dir);
      }
      SortedCons(x, s, col, dir);
    }
  }

  /** A row the comparator allows before every row of a sorted `rest` can head it. */
  lemma SortedCons(y: seq<Cell>, rest: Matrix, col: nat, dir: SortType)
    requires SortedBy(rest, col, dir)
    requires forall z :: z in rest ==> InOrder(y, z, col, dir)
    ensures SortedBy([y] + rest, col, dir)
  {
    var r := [y] + rest;
    forall i, j | 0 <= i < j < |r|
      ensures InOrder(r[i], r[j], col, dir)
    {
      assert r[j] == rest[j - 1];
      if i > 0 {
        assert r[i] == rest[i - 1];
      }
    }
  }

  /**
   * `sortRows`: the data rows ordered by the comparator, ascending or
   * descending on their numeric key.
   */
  function SortRows(rows: Matrix, col: nat, dir: SortType): (r: Matrix)
    requires Sortable(rows, col)
    ensures SortedBy(r, col, dir)
    ensures multiset(r) == multiset(rows)
  {
    if rows == [] then []
    else
      assert rows == rows[..|rows| - 1] + [rows[|rows| - 1]];
      var sorted := SortRows(rows[..|rows| - 1], col, dir);
      InsertRowSorted(rows[|rows| - 1], sorted, col, dir);
      InsertRow(rows[|rows| - 1], sorted, col, dir)
  }

  /** The rows whose key in column `col` is `k`, in the order they come. */
  function WithKey(rows: Matrix, col: nat, k: int): Matrix {
    if rows == [] then []
    else (if RowKey(rows[0], col) == k then [rows[0]] else []) + WithKey(rows[1..], col, k)
  }

  lemma WithKeyCons(y: seq<Cell>, t: Matrix, col: nat, k: int)
    ensures WithKey([y] + t, col, k) == (if RowKey(y, col) == k then [y] else []) + WithKey(t, col, k)
  {
    assert ([y] + t)[0] == y && ([y] + t)[1..] == t;
  }

  lemma WithKeySingle(y: seq<Cell>, col: nat, k: int)
    ensures WithKey([y], col, k) == if RowKey(y, col) == k then [y] else []
  {
    assert [y][1..] == [];
  }

  lemma {:induction false} WithKeyAppend(a: Matrix, b: Matrix, col: nat, k: int)
    ensures WithKey(a + b, col, k) == WithKey(a, col, k) + WithKey(b, col, k)
  {
    if a == [] {
      assert a + b == b;
    } else {
      assert a + b == [a[0]] + (a[1..] + b);
      assert a == [a[0]] + a[1..];
      WithKeyCons(a[0], a[1..] + b, col, k);
      WithKeyCons(a[0], a[1..], col, k);
      WithKeyAppend(a[1..], b, col, k);
    }
  }

  /** No row of `rows` has key `k`, so none is kept. */
  lemma {:induction false} WithKeyNone(rows: Matrix, col: nat, k: int)
    requires forall j :: 0 <= j < |rows| ==> RowKey(rows[j], col) != k
    ensures WithKey(rows, col, k) == []
  {
    if rows != [] {
      WithKeyNone(rows[1..], col, k);
    }
  }

  lemma SortedTail(s: Matrix, col: nat, dir: SortType)
    requires s != [] && SortedBy(s, col, dir)
    ensures SortedBy(s[1..], col, dir)
  {
    forall i, j | 0 <= i < j < |s[1..]|
      ensures InOrder(s[1..][i], s[1..][j], col, dir)
    {
      assert s[1..][i] == s[i + 1] && s[1..][j] == s[j + 1];
    }
  }

  lemma ConcatAssoc(a: Matrix, b: Matrix, c: Matrix)
    ensures a + (b + c) == (a + b) + c
  {
  }

  /** `x` goes in front of sorted rows that all come after it, so none shares its key. */
  lemma InsertFrontStable(x: seq<Cell>, s: Matrix, col: nat, dir: SortType, k: int)
    requires s != [] && SortedBy(s, col, dir) && !InOrder(s[0], x, col, dir)
    ensures WithKey([x] + s, col, k) == WithKey(s, col, k) + (if RowKey(x, col) == k then [x] else [])
  {
    WithKeyCons(x, s, col, k);
    if RowKey(x, col) == k {
      forall j | 0 <= j < |s|
        ensures RowKey(s[j], col) != k
      {
        if j > 0 {
          assert InOrder(s[0], s[j], col, dir);
        }
      }
      WithKeyNone(s, col, k);
    }
  }

  /** `x` goes after the first row: the rows keyed `k` keep their order around it. */
  lemma InsertLaterStable(x: seq<Cell>, y: seq<Cell>, rest: Matrix, t: Matrix, col: nat, k: int)
    requires WithKey(t, col, k) == WithKey(rest, col, k) + (if RowKey(x, col) == k then [x] else [])
    ensures WithKey([y] + t, col, k) ==
            WithKey([y] + rest, col, k) + (if RowKey(x, col) == k then [x] else [])
  {
    var e := if RowKey(x, col) == k then [x] else [];
    var h := if RowKey(y, col) == k then [y] else [];
    WithKeyCons(y, t, col, k);
    WithKeyCons(y, rest, col, k);
    ConcatAssoc(h, WithKey(rest, col, k), e);
  }

  /** Inserting `x` into sorted rows puts it after every row with the same key. */
  lemma {:induction false} InsertRowStable(x: seq<Cell>, s: Matrix, col: nat, dir: SortType, k: int)
    requires SortedBy(s, col, dir)
    ensures WithKey(InsertRow(x, s, col, dir), col, k) ==
            WithKey(s, col, k) + (if RowKey(x, col) == k then [x] else [])
  {
    if s == [] {
      WithKeySingle(x, col, k);
    } else if InOrder(s[0], x, col, dir) {
      var t := InsertRow(x, s[1..], col, dir);
      assert InsertRow(x, s, col, dir) == [s[0]] + t;
      SortedTail(s, col, dir);
      InsertRowStable(x, s[1..], col, dir, k);
      InsertLaterStable(x, s[0], s[1..], t, col, k);
      assert s == [s[0]] + s[1..];
    } else {
      assert InsertRow(x, s, col, dir) == [x] + s;
      InsertFrontStable(x, s, col, dir, k);
    }
  }

  lemma SortableInit(rows: Matrix, col: nat)
    requires rows != [] && Sortable(rows, col)
    ensures Sortable(rows[..|rows| - 1], col)
  {
    var init: Matrix := rows[..|rows| - 1];
    forall i | 0 <= i < |init|
      ensures col < |init[i]| && SortKey(init[i][col].text).Some?
    {
      assert init[i] == rows[i];
    }
  }

  /**
   * `SortRows` is stable: for every key, the rows with that key come out in
   * the order they went in.
   */
  lemma {:induction false} SortRowsStable(rows: Matrix, col: nat, dir: SortType, k: int)
    requires Sortable(rows, col)
    ensures WithKey(SortRows(rows, col, dir), col, k) == WithKey(rows, col, k)
    decreases |rows|
  {
    if rows != [] {
      var init, last := rows[..|rows| - 1], rows[|rows| - 1];
      assert rows == init + [last];
      SortableInit(rows, col);
      var sorted := SortRows(init, col, dir);
      assert SortRows(rows, col, dir) == InsertRow(last, sorted, col, dir);
      SortRowsStable(init, col, dir, k);
      InsertRowStable(last, sorted, col, dir, k);
      WithKeyAppend(init, [last], col, k);
      WithKeySingle(last, col, k);
      var e := if RowKey(last, col) == k then [last] else [];
      calc {
        WithKey(SortRows(rows, col, dir), col, k);
        WithKey(sorted, col, k) + e;
        WithKey(init, col, k) + e;
        WithKey(init + [last], col, k);
      }
    }
  }

  /** The new `aria-sort` of the activated header: descending iff it was ascending. */
  function NextSort(current: SortType): (next: SortType)
    ensures next != Unsorted
    ensures next == Descending <==> current == Ascending
  {
    if current == Ascending then Descending else Ascending
  }

  /** The matrix after `handleSort`: the header row, then the data rows in comparator order. */
  function SortedGrid(g: Matrix, col: nat, dir: SortType): (g': Matrix)
    requires |g| >= 1 && Sortable(g[1..], col)
    ensures |g'| == |g| && g'[0] == g[0]
    ensures multiset(g'[1..]) == multiset(g[1..])
    ensures SortedBy(g'[1..], col, dir)
  {
    var sorted := SortRows(g[1..], col, dir);
    assert multiset(sorted) == multiset(g[1..]);
    assert |sorted| == |multiset(sorted)| == |multiset(g[1..])| == |g| - 1;
    var g' := [g[0]] + sorted;
    assert g'[1..] == sorted;
    g'
  }

  /** Every row of the sorted matrix is a row of the original one, the header staying first. */
  lemma SortedGridRow(g: Matrix, col: nat, dir: SortType, r: int)
    requires |g| >= 1 && Sortable(g[1..], col) && 0 <= r < |g|
    ensures exists i :: 0 <= i < |g| && (i == 0 <==> r == 0) && SortedGrid(g, col, dir)[r] == g[i]
  {
    var g' := SortedGrid(g, col, dir);
    if r == 0 {
      assert g'[0] == g[0];
    } else {
      assert g'[r] == g'[1..][r - 1];
      assert g'[r] in multiset(g[1..]);
      var k :| 0 <= k < |g[1..]| && g[1..][k] == g'[r];
      assert g[k + 1] == g'[r];
    }
  }

  /**
   * `handleSort` moves rows under an unchanged focus pointer; with the
   * pointer in the header row (or unset) the tab stop stays under it, and no
   * row becomes empty.
   */
  lemma SortKeepsTabStop(g: Matrix, col: nat, dir: SortType, focus: Option<Pos>)
    requires |g| >= 1 && Sortable(g[1..], col)
    requires focus.None? || (focus.value.row == 0 && ValidPos(g, focus.value))
    requires SingleTabStop(g, focus)
    requires forall r :: 0 <= r < |g| ==> g[r] != []
    ensures SingleTabStop(SortedGrid(g, col, dir), focus)
    ensures forall r :: 0 <= r < |g| ==> SortedGrid(g, col, dir)[r] != []
  {
    var g' := SortedGrid(g, col, dir);
    forall r, c | ValidCell(g', r, c)
      ensures g'[r][c].tabIndex == 0 <==> focus == Some(Pos(r, c))
    {
      SortedGridRow(g, col, dir, r);
      var i :| 0 <= i < |g| && (i == 0 <==> r == 0) && g'[r] == g[i];
      assert ValidCell(g, i, c);
    }
    forall r | 0 <= r < |g|
      ensures g'[r] != []
    {
      SortedGridRow(g, col, dir, r);
    }
  }

  lemma SortKeyExamples()
    ensures SortKey("10") == Some(10) && SortKey("2") == Some(2) && SortKey("33") == Some(33)
  {
    DigitsKey("10");
    DigitsKey("2");
    DigitsKey("33");
    assert DigitsValue("1") == 1 && DigitsValue("3") == 3;
    assert "10"[..1] == "1" && "33"[..1] == "3" && "1"[..0] == "" && "3"[..0] == "";
  }

  /** A text of digits only is its own decimal key. */
  lemma DigitsKey(s: string)
    requires s != [] && forall i :: 0 <= i < |s| ==> IsDigit(s[i])
    ensures SortKey(s) == Some(DigitsValue(s))
  {
    NumericCharsKeeps(s);
    assert LeadingDigits(s) == s;
  }

  /** Non-digit characters are skipped; the key stops at the first dot. */
  lemma SortKeyDropsOthers()
    ensures SortKey("$1.5") == Some(1) && SortKey("n/a") == None
  {
    assert NumericChars("5") == "5";
    assert NumericChars(".5") == ".5";
    assert NumericChars("1.5") == "1.5";
    assert "$1.5"[1..] == "1.5";
    assert NumericChars("$1.5") == "1.5";
    assert LeadingDigits(".5") == "";
    assert LeadingDigits("1.5") == "1";
    assert "1"[..0] == "";
    assert NumericChars("a") == "";
    assert NumericChars("/a") == "";
    assert "n/a"[1..] == "/a" && "/a"[1..] == "a";
  }

  lemma SortExampleStart(r10: seq<Cell>, r2: seq<Cell>)
    requires RowKey(r10, 0) == 10 && RowKey(r2, 0) == 2
    ensures Sortable([r10, r2], 0)
    ensures SortRows([r10, r2], 0, Ascending) == [r2, r10]
    ensures SortRows([r10, r2], 0, Descending) == [r10, r2]
  {
    assert [r10, r2][..1] == [r10];
    assert SortRows([r10], 0, Ascending) == [r10];
    assert SortRows([r10], 0, Descending) == [r10];
  }

  /**
   * Rows whose keys are 10, 2 and 33 (the texts "10", "2" and "33", by
   * `SortKeyExamples`) sort numerically, not as text: ascending 2, 10, 33.
   */
  lemma SortExampleAscending(r10: seq<Cell>, r2: seq<Cell>, r33: seq<Cell>)
    requires RowKey(r10, 0) == 10 && RowKey(r2, 0) == 2 && RowKey(r33, 0) == 33
    ensures Sortable([r10, r2, r33], 0)
    ensures SortRows([r10, r2, r33], 0, Ascending) == [r2, r10, r33]
  {
    SortExampleStart(r10, r2);
    assert [r10, r2, r33][..2] == [r10, r2];
    assert InsertRow(r33, [r10], 0, Ascending) == [r10, r33];
  }

  /** The same rows sorted descending: 33, 10, 2. */
  lemma SortExampleDescending(r10: seq<Cell>, r2: seq<Cell>, r33: seq<Cell>)
    requires RowKey(r10, 0) == 10 && RowKey(r2, 0) == 2 && RowKey(r33, 0) == 33
    ensures Sortable([r10, r2, r33], 0)
    ensures SortRows([r10, r2, r33], 0, Descending) == [r33, r10, r2]
  {
    SortExampleStart(r10, r2);
    assert [r10, r2, r33][..2] == [r10, r2];
  }

  // ----- restructureGrid -----

  /** The cells of the matrix in document (row-major) order. */
  function Flatten(g: Matrix): (cells: seq<Cell>)
  {
    if g == [] then [] else Flatten(g[..|g| - 1]) + g[|g| - 1]
  }

  /** The sum of the cells' `offsetWidth`s. */
  function RowWidth(row: seq<Cell>): nat {
    if row == [] then 0 else RowWidth(row[..|row| - 1]) + row[|row| - 1].width
  }

  /**
   * A row is narrower than the grid unless all of its cells but the last
   * have no width (a lone cell, or cells after zero-width ones).
   */
  predicate NarrowRow(row: seq<Cell>, gridWidth: int) {
    row != [] ==> RowWidth(row) < gridWidth || RowWidth(row[..|row| - 1]) == 0
  }

  /** The rows and the current width after placing a prefix of the cells. */
  datatype Packing = Packing(rows: Matrix, width: int)

  /**
   * `restructureGrid`'s loop after the first `n` cells: a cell opens a new
   * row when the current row has width and the cell would not fit.
   */
  function PackPrefix(cells: seq<Cell>, gridWidth: int, n: nat): (p: Packing)
    requires n <= |cells|
    ensures |p.rows| >= 1
  {
    if n == 0 then Packing([[]], 0)
    else PackStep(PackPrefix(cells, gridWidth, n - 1), cells[n - 1], gridWidth)
  }

  /** One turn of the loop: the cell `x` opens a new row or joins the open one. */
  function PackStep(p: Packing, x: Cell, gridWidth: int): (p': Packing)
    requires |p.rows| >= 1
    ensures |p'.rows| >= 1
  {
    if p.width > 0 && p.width >= gridWidth - x.width then
      Packing(p.rows + [[x]], x.width)
    else
      Packing(p.rows[..|p.rows| - 1] + [p.rows[|p.rows| - 1] + [x]], p.width + x.width)
  }

  /** A turn appends `x` to the flattened rows and keeps the width the open row's. */
  lemma PackStepCells(p: Packing, x: Cell, gridWidth: int)
    requires |p.rows| >= 1 && p.width == RowWidth(p.rows[|p.rows| - 1])
    ensures var p' := PackStep(p, x, gridWidth);
            Flatten(p'.rows) == Flatten(p.rows) + [x] && p'.width == RowWidth(p'.rows[|p'.rows| - 1])
  {
    if p.width > 0 && p.width >= gridWidth - x.width {
      FlattenNewRow(p.rows, x);
      RowWidthAppend([], x);
    } else {
      FlattenExtendLast(p.rows, x);
      RowWidthAppend(p.rows[|p.rows| - 1], x);
    }
  }

  /** A turn keeps every row fitting and leaves the open row non-empty. */
  lemma PackStepRows(p: Packing, x: Cell, gridWidth: int)
    requires |p.rows| >= 1 && p.width == RowWidth(p.rows[|p.rows| - 1])
    requires RowsFit(p.rows, gridWidth)
    requires p.width > 0 ==> p.rows[|p.rows| - 1] != []
    ensures var p' := PackStep(p, x, gridWidth);
            RowsFit(p'.rows, gridWidth) && p'.rows[|p'.rows| - 1] != []
  {
    if p.width > 0 && p.width >= gridWidth - x.width {
      RowsFitNewRow(p.rows, x, gridWidth);
    } else {
      RowsFitExtend(p.rows, x, gridWidth);
    }
  }

  lemma FlattenNewRow(rows: Matrix, x: Cell)
    ensures Flatten(rows + [[x]]) == Flatten(rows) + [x]
  {
    assert (rows + [[x]])[..|rows|] == rows;
  }

  lemma FlattenExtendLast(rows: Matrix, x: Cell)
    requires |rows| >= 1
    ensures Flatten(rows[..|rows| - 1] + [rows[|rows| - 1] + [x]]) == Flatten(rows) + [x]
  {
    var rows' := rows[..|rows| - 1] + [rows[|rows| - 1] + [x]];
    assert rows'[..|rows'| - 1] == rows[..|rows| - 1];
  }

  lemma RowWidthAppend(row: seq<Cell>, x: Cell)
    ensures RowWidth(row + [x]) == RowWidth(row) + x.width
  {
    assert (row + [x])[..|row|] == row;
  }

  /** After `n` cells the rows hold exactly those cells, in order, and the width is the open row's. */
  lemma {:induction false} PackPrefixCells(cells: seq<Cell>, gridWidth: int, n: nat)
    requires n <= |cells|
    ensures var p := PackPrefix(cells, gridWidth, n);
            Flatten(p.rows) == cells[..n] && p.width == RowWidth(p.rows[|p.rows| - 1])
  {
    if n > 0 {
      PackPrefixCells(cells, gridWidth, n - 1);
      PackStepCells(PackPrefix(cells, gridWidth, n - 1), cells[n - 1], gridWidth);
      Strings.TakeSnoc(cells, n);
    }
  }

  /** A cell joins the open row only when the row has no width or the cell still fits. */
  lemma NarrowAfterAppend(last: seq<Cell>, x: Cell, gridWidth: int)
    requires !(RowWidth(last) > 0 && RowWidth(last) >= gridWidth - x.width)
    ensures NarrowRow(last + [x], gridWidth)
  {
    RowWidthAppend(last, x);
    assert (last + [x])[..|last|] == last;
  }

  /** Only the last row may be empty, and every row fits the grid width. */
  predicate RowsFit(rows: Matrix, gridWidth: int) {
    (forall r :: 0 <= r < |rows| - 1 ==> rows[r] != []) &&
    (forall r {:trigger NarrowRow(rows[r], gridWidth)} :: 0 <= r < |rows| ==> NarrowRow(rows[r], gridWidth))
  }

  lemma RowsFitNewRow(rows: Matrix, x: Cell, gridWidth: int)
    requires |rows| >= 1 && rows[|rows| - 1] != [] && RowsFit(rows, gridWidth)
    ensures RowsFit(rows + [[x]], gridWidth)
  {
    assert [x][..0] == [];
    assert NarrowRow([x], gridWidth);
  }

  lemma RowsFitExtend(rows: Matrix, x: Cell, gridWidth: int)
    requires |rows| >= 1 && RowsFit(rows, gridWidth)
    requires !(RowWidth(rows[|rows| - 1]) > 0 && RowWidth(rows[|rows| - 1]) >= gridWidth - x.width)
    ensures RowsFit(rows[..|rows| - 1] + [rows[|rows| - 1] + [x]], gridWidth)
  {
    NarrowAfterAppend(rows[|rows| - 1], x, gridWidth);
  }

  /**
   * After `n` cells only the open row can be empty (before the first
   * cell), and every row fits the grid width.
   */
  lemma {:induction false} PackPrefixRows(cells: seq<Cell>, gridWidth: int, n: nat)
    requires n <= |cells|
    ensures var p := PackPrefix(cells, gridWidth, n);
            RowsFit(p.rows, gridWidth) && (n > 0 ==> p.rows[|p.rows| - 1] != []) &&
            p.width == RowWidth(p.rows[|p.rows| - 1])
  {
    if n > 0 {
      var p := PackPrefix(cells, gridWidth, n - 1);
      PackPrefixRows(cells, gridWidth, n - 1);
      PackStepCells(p, cells[n - 1], gridWidth);
      PackPrefixStepRows(p, cells[n - 1], gridWidth);
    }
  }

  /** `PackStepRows` for a packing whose open row has no width exactly when it is empty or zero-width. */
  lemma PackPrefixStepRows(p: Packing, x: Cell, gridWidth: int)
    requires |p.rows| >= 1 && p.width == RowWidth(p.rows[|p.rows| - 1]) && RowsFit(p.rows, gridWidth)
    ensures var p' := PackStep(p, x, gridWidth);
            RowsFit(p'.rows, gridWidth) && p'.rows[|p'.rows| - 1] != []
  {
    assert RowWidth([]) == 0;
    PackStepRows(p, x, gridWidth);
  }

  /**
   * The grid `restructureGrid` leaves: the packed rows, with the empty
   * starting row dropped by `setupFocusGrid` when there are no cells.
   */
  function Repacked(cells: seq<Cell>, gridWidth: int): (g: Matrix)
    ensures Flatten(g) == cells
    ensures forall r :: 0 <= r < |g| ==> g[r] != []
    ensures cells != [] <==> |g| > 0
  {
    if cells == [] then []
    else
      assert cells[..|cells|] == cells;
      PackPrefixCells(cells, gridWidth, |cells|);
      PackPrefixRows(cells, gridWidth, |cells|);
      PackPrefix(cells, gridWidth, |cells|).rows
  }

  /**
   * `restructureGrid`'s loop as written, after the first `n` cells.  The
   * script runs in strict mode and the `forEach` callback is not bound, so
   * its `this` is undefined: `this.gridNode.append(newRow)` throws a
   * TypeError the first time a new row is opened.  `None` is that throw.
   */
  function PackPrefixAsWritten(cells: seq<Cell>, gridWidth: int, n: nat): (r: Option<Packing>)
    requires n <= |cells|
    ensures r.Some? ==> |r.value.rows| == 1
  {
    if n == 0 then Some(Packing([[]], 0))
    else
      match PackPrefixAsWritten(cells, gridWidth, n - 1)
      case None => None
      case Some(p) =>
        if p.width > 0 && p.width >= gridWidth - cells[n - 1].width then None
        else Some(PackStep(p, cells[n - 1], gridWidth))
  }

  /** The whole loop as written: the one row it builds, or `None` when it throws. */
  function PackAsWritten(cells: seq<Cell>, gridWidth: int): Option<Matrix> {
    match PackPrefixAsWritten(cells, gridWidth, |cells|)
    case None => None
    case Some(p) => Some(p.rows)
  }

  /** A turn of the intended loop never removes a row, and opens one exactly on the new-row test. */
  lemma PackStepCount(p: Packing, x: Cell, gridWidth: int)
    requires |p.rows| >= 1
    ensures |PackStep(p, x, gridWidth).rows| ==
            if p.width > 0 && p.width >= gridWidth - x.width then |p.rows| + 1 else |p.rows|
  {
  }

  /** The loop as written agrees with the intended one for as long as the latter has a single row, and has thrown after. */
  lemma {:induction false} PackAsWrittenAgrees(cells: seq<Cell>, gridWidth: int, n: nat)
    requires n <= |cells|
    ensures PackPrefixAsWritten(cells, gridWidth, n) ==
            if |PackPrefix(cells, gridWidth, n).rows| == 1 then Some(PackPrefix(cells, gridWidth, n)) else None
  {
    if n > 0 {
      PackAsWrittenAgrees(cells, gridWidth, n - 1);
      PackStepCount(PackPrefix(cells, gridWidth, n - 1), cells[n - 1], gridWidth);
    }
  }

  /** One turn of the loop as written while it still has one row: it throws, or the cell joins the row. */
  lemma AsWrittenStep(cells: seq<Cell>, gridWidth: int, i: nat, row: seq<Cell>, width: int)
    requires i < |cells| && PackPrefixAsWritten(cells, gridWidth, i) == Some(Packing([row], width))
    ensures width > 0 && width >= gridWidth - cells[i].width ==> PackPrefixAsWritten(cells, gridWidth, i + 1).None?
    ensures !(width > 0 && width >= gridWidth - cells[i].width) ==>
              PackPrefixAsWritten(cells, gridWidth, i + 1) == Some(Packing([row + [cells[i]]], width + cells[i].width))
  {
    assert [row][..0] + [[row][0] + [cells[i]]] == [row + [cells[i]]];
  }

  /** Once the loop as written has thrown, it stays thrown. */
  lemma AsWrittenStaysThrown(cells: seq<Cell>, gridWidth: int, n: nat, m: nat)
    requires n <= m <= |cells| && PackPrefixAsWritten(cells, gridWidth, n).None?
    ensures PackPrefixAsWritten(cells, gridWidth, m).None?
  {
    var k := n;
    while k < m
      invariant n <= k <= m
      invariant PackPrefixAsWritten(cells, gridWidth, k).None?
    {
      k := k + 1;
    }
  }

  /**
   * The loop as written throws exactly when the intended packing needs a
   * second row, and otherwise yields that packing.
   */
  lemma PackAsWrittenThrows(cells: seq<Cell>, gridWidth: int)
    requires cells != []
    ensures PackAsWritten(cells, gridWidth).None? <==> |Repacked(cells, gridWidth)| > 1
    ensures PackAsWritten(cells, gridWidth).Some? ==> PackAsWritten(cells, gridWidth).value == Repacked(cells, gridWidth)
  {
    PackAsWrittenAgrees(cells, gridWidth, |cells|);
  }

  /** Two cells 60 wide in a grid 100 wide: the intended packing has two rows, and the loop as written throws. */
  lemma PackThrowsExample(x: Cell, y: Cell)
    requires x.width == 60 && y.width == 60
    ensures Repacked([x, y], 100) == [[x], [y]]
    ensures PackAsWritten([x, y], 100).None?
  {
    var cells := [x, y];
    assert PackPrefix(cells, 100, 0) == Packing([[]], 0);
    var start: Matrix := [[]];
    assert start[0] + [x] == [x];
    assert start[..0] == [];
    assert start[..0] + [start[0] + [x]] == [[x]];
    assert PackPrefix(cells, 100, 1) == Packing([[x]], 60);
    assert cells[1] == y && [[x]] + [[y]] == [[x], [y]];
    assert PackPrefix(cells, 100, 2) == Packing([[x], [y]], 60);
    PackAsWrittenThrows(cells, 100);
  }

  /** Every re-packed row fits the grid width, unless it holds one cell of width (or more after zero-width ones). */
  lemma RepackedRowsFit(cells: seq<Cell>, gridWidth: int)
    ensures forall r :: 0 <= r < |Repacked(cells, gridWidth)| ==> NarrowRow(Repacked(cells, gridWidth)[r], gridWidth)
  {
    if cells != [] {
      PackPrefixRows(cells, gridWidth, |cells|);
    }
  }

  predicate UniformWidth(cells: seq<Cell>, w: nat) {
    forall i :: 0 <= i < |cells| ==> cells[i].width == w
  }

  /** The row-closing test for a row of `count` cells of width `w`. */
  predicate Closes(count: int, w: nat, gridWidth: int) {
    count * w > 0 && count * w >= gridWidth - w
  }

  /**
   * With cells of width `w`, a finished row was closed at its length and at
   * no shorter length, and the open row has not reached a closing length.
   */
  predicate ClosedAtLength(p: Packing, w: nat, gridWidth: int)
    requires |p.rows| >= 1
  {
    var last := p.rows[|p.rows| - 1];
    p.width == |last| * w &&
    (forall j :: 1 <= j < |last| ==> !Closes(j, w, gridWidth)) &&
    (forall r :: 0 <= r < |p.rows| - 1 ==> Closes(|p.rows[r]|, w, gridWidth)) &&
    (forall r, j :: 0 <= r < |p.rows| - 1 && 1 <= j < |p.rows[r]| ==> !Closes(j, w, gridWidth))
  }

  lemma ClosedAtNewRow(p: Packing, x: Cell, w: nat, gridWidth: int)
    requires |p.rows| >= 1 && ClosedAtLength(p, w, gridWidth) && x.width == w
    requires Closes(|p.rows[|p.rows| - 1]|, w, gridWidth)
    ensures ClosedAtLength(Packing(p.rows + [[x]], x.width), w, gridWidth)
  {
    var q := Packing(p.rows + [[x]], x.width);
    assert q.rows[|q.rows| - 1] == [x];
    forall r | 0 <= r < |q.rows| - 1
      ensures q.rows[r] == p.rows[r]
    {
    }
  }

  lemma ClosedAtAppend(p: Packing, x: Cell, w: nat, gridWidth: int)
    requires |p.rows| >= 1 && ClosedAtLength(p, w, gridWidth) && x.width == w
    requires !Closes(|p.rows[|p.rows| - 1]|, w, gridWidth)
    ensures var last := p.rows[|p.rows| - 1];
            ClosedAtLength(Packing(p.rows[..|p.rows| - 1] + [last + [x]], p.width + x.width), w, gridWidth)
  {
    var last := p.rows[|p.rows| - 1];
    var q := Packing(p.rows[..|p.rows| - 1] + [last + [x]], p.width + x.width);
    assert (|last| + 1) * w == |last| * w + w;
    assert q.rows[|q.rows| - 1] == last + [x];
    forall r | 0 <= r < |q.rows| - 1
      ensures q.rows[r] == p.rows[r]
    {
    }
  }

  /** A turn of the loop on a cell of width `w` keeps the rows closed at their lengths. */
  lemma ClosedAtStep(p: Packing, x: Cell, w: nat, gridWidth: int)
    requires |p.rows| >= 1 && ClosedAtLength(p, w, gridWidth) && x.width == w
    ensures ClosedAtLength(PackStep(p, x, gridWidth), w, gridWidth)
  {
    if p.width > 0 && p.width >= gridWidth - x.width {
      ClosedAtNewRow(p, x, w, gridWidth);
    } else {
      ClosedAtAppend(p, x, w, gridWidth);
    }
  }

  lemma {:induction false} PackUniform(cells: seq<Cell>, gridWidth: int, w: nat, n: nat)
    requires n <= |cells| && UniformWidth(cells, w)
    ensures ClosedAtLength(PackPrefix(cells, gridWidth, n), w, gridWidth)
  {
    if n > 0 {
      PackUniform(cells, gridWidth, w, n - 1);
      ClosedAtStep(PackPrefix(cells, gridWidth, n - 1), cells[n - 1], w, gridWidth);
    }
  }

  /** Cells of one common width pack into a filled grid. */
  lemma UniformPacksFilled(cells: seq<Cell>, gridWidth: int, w: nat)
    requires UniformWidth(cells, w)
    ensures FilledRows(Repacked(cells, gridWidth))
  {
    if cells != [] {
      PackUniform(cells, gridWidth, w, |cells|);
      var g := Repacked(cells, gridWidth);
      assert g == PackPrefix(cells, gridWidth, |cells|).rows;
      forall r | 0 <= r < |g| - 1
        ensures |g[r]| == |g[0]|
      {
      }
    }
  }

  lemma DivModUnique(r: int, c: int, w: int)
    requires 0 <= r && 0 <= c < w
    ensures (r * w + c) / w == r && (r * w + c) % w == c
  {
    var k := r * w + c;
    var q, m := k / w, k % w;
    assert k == q * w + m;
    if q > r {
      LexLess(r, c, q, m, w);
    }
    if q < r {
      LexLess(q, m, r, c, w);
    }
  }

  lemma {:induction false} FlattenPrefix(g: Matrix, m: nat)
    requires m <= |g|
    ensures |Flatten(g[..m])| <= |Flatten(g)| && Flatten(g[..m]) == Flatten(g)[..|Flatten(g[..m])|]
  {
    if m < |g| {
      FlattenPrefix(g[..|g| - 1], m);
      assert g[..|g| - 1][..m] == g[..m];
    } else {
      assert g[..m] == g;
    }
  }

  lemma {:induction false} FilledPrefixLength(g: Matrix, r: nat)
    requires FilledRows(g) && r < |g|
    ensures |Flatten(g[..r])| == r * |g[0]|
  {
    if r > 0 {
      FilledPrefixLength(g, r - 1);
      assert g[..r][..r - 1] == g[..r - 1];
    }
  }

  /** In a filled grid, cell (r, c) is the (r*w + c)-th cell in document order. */
  lemma FilledAt(g: Matrix, p: Pos)
    requires FilledRows(g) && ValidPos(g, p)
    ensures p.row * |g[0]| + p.col < |Flatten(g)|
    ensures Flatten(g)[p.row * |g[0]| + p.col] == g[p.row][p.col]
  {
    FilledPrefixLength(g, p.row);
    FlattenPrefix(g, p.row + 1);
    assert g[..p.row + 1][..p.row] == g[..p.row];
  }

  lemma FilledLength(g: Matrix)
    requires FilledRows(g) && |g| > 0
    ensures |Flatten(g)| == (|g| - 1) * |g[0]| + |g[|g| - 1]|
  {
    FilledPrefixLength(g, |g| - 1);
    assert g[..|g| - 1] == g[..|g|][..|g| - 1];
    assert g[..|g|] == g;
  }

  lemma DivModSplit(k: int, w: int)
    requires w > 0 && k >= 0
    ensures (k / w) * w + k % w == k
  {
  }

  lemma FilledIndexValid(g: Matrix, k: int)
    requires FilledRows(g) && |g| > 0 && |g[0]| > 0 && 0 <= k < |Flatten(g)|
    ensures ValidCell(g, k / |g[0]|, k % |g[0]|)
  {
    var w, h, last := |g[0]|, |g| - 1, |g[|g| - 1]|;
    FilledLength(g);
    var r, c := k / w, k % w;
    DivModSplit(k, w);
    RowBound(r, c, w, h, last);
    FilledCell(g, r, c);
  }

  /** Position (r, c) of a flat index below h full rows of width w and `last` more cells. */
  lemma RowBound(r: int, c: int, w: int, h: int, last: int)
    requires 0 <= r && 0 <= c < w && h >= 0 && 0 <= last <= w && r * w + c < h * w + last
    ensures r <= h && (r == h ==> c < last)
  {
    if r > h {
      LexLess(h, w - 1, r, c, w);
    }
  }

  /** A position of a filled grid is a cell when it lies within its row's width. */
  lemma FilledCell(g: Matrix, r: int, c: int)
    requires FilledRows(g) && 0 <= r < |g| && 0 <= c
    requires r < |g| - 1 ==> c < |g[0]|
    requires r == |g| - 1 ==> c < |g[r]|
    ensures ValidCell(g, r, c)
  {
    if r < |g| - 1 {
      assert |g[r]| == |g[0]|;
    }
  }

  lemma FilledAtIndex(g: Matrix, r: int, c: int, k: int)
    requires FilledRows(g) && ValidCell(g, r, c) && k == r * |g[0]| + c
    ensures 0 <= k < |Flatten(g)| && Flatten(g)[k] == g[r][c]
  {
    FilledAt(g, Pos(r, c));
    LexLess(r, c, r + 1, 0, |g[0]|);
  }

  /** In a filled grid of width w, the k-th cell in document order sits at (k / w, k % w). */
  lemma FilledIndex(g: Matrix, k: int)
    requires FilledRows(g) && |g| > 0 && |g[0]| > 0 && 0 <= k < |Flatten(g)|
    ensures ValidCell(g, k / |g[0]|, k % |g[0]|)
    ensures g[k / |g[0]|][k % |g[0]|] == Flatten(g)[k]
  {
    var w := |g[0]|;
    FilledIndexValid(g, k);
    DivModSplit(k, w);
    FilledAtIndex(g, k / w, k % w, k);
  }

  /**
   * The focus transfer of `restructureGrid`: when the old and the new grid
   * are filled and hold the same cells in the same order, the pointer
   * computed from the flat index `row*w + col` addresses the same cell.
   */
  lemma RestructureKeepsFocusedCell(g: Matrix, g': Matrix, p: Pos)
    requires FilledRows(g) && FilledRows(g') && Flatten(g') == Flatten(g)
    requires ValidPos(g, p) && |g'| > 0 && |g'[0]| > 0
    ensures var q := RepackedFocus(g, g', p);
            ValidPos(g', q) && g'[q.row][q.col] == g[p.row][p.col] &&
            q.row * |g'[0]| + q.col == p.row * |g[0]| + p.col
  {
    var k := p.row * |g[0]| + p.col;
    FilledAtIndex(g, p.row, p.col, k);
    FilledIndex(g', k);
    DivModSplit(k, |g'[0]|);
    assert RepackedFocus(g, g', p) == Pos(k / |g'[0]|, k % |g'[0]|);
  }

  /** (r, c) is the position of flat index k in rows of width w. */
  lemma FlatIndexIff(r: int, c: int, w: int, k: int)
    requires 0 <= r && 0 <= c < w && 0 <= k
    ensures r * w + c == k <==> (r == k / w && c == k % w)
  {
    DivModUnique(r, c, w);
    DivModSplit(k, w);
  }

  /** The cell at (r, c) of the new grid is the focused cell exactly when it sits at the focus's flat index. */
  lemma TabStopCell(g: Matrix, g': Matrix, p: Pos, r: int, c: int)
    requires FilledRows(g) && FilledRows(g') && Flatten(g') == Flatten(g)
    requires ValidPos(g, p) && ValidCell(g', r, c) && |g[0]| > 0 && |g'[0]| > 0
    requires SingleTabStop(g, Some(p))
    ensures var k := p.row * |g[0]| + p.col;
            g'[r][c].tabIndex == 0 <==> Pos(r, c) == Pos(k / |g'[0]|, k % |g'[0]|)
  {
    var w, w' := |g[0]|, |g'[0]|;
    var k := p.row * w + p.col;
    var j := r * w' + c;
    FilledAtIndex(g, p.row, p.col, k);
    FilledAtIndex(g', r, c, j);
    FilledIndex(g, j);
    var at := Pos(j / w, j % w);
    assert g'[r][c] == g[at.row][at.col];
    assert g'[r][c].tabIndex == 0 <==> at == p;
    FlatIndexIff(p.row, p.col, w, j);
    FlatIndexIff(r, c, w', k);
  }

  /** No tab stop before re-packing means none after. */
  lemma NoTabStopCell(g: Matrix, g': Matrix, r: int, c: int)
    requires FilledRows(g) && FilledRows(g') && Flatten(g') == Flatten(g)
    requires ValidCell(g', r, c) && |g'[0]| > 0 && (|g| > 0 ==> |g[0]| > 0)
    requires SingleTabStop(g, None)
    ensures g'[r][c].tabIndex != 0
  {
    var j := r * |g'[0]| + c;
    FilledAtIndex(g', r, c, j);
    FilledIndex(g, j);
  }

  /** `restructureGrid`'s new focus pointer: the old flat index read in rows of the new width. */
  function RepackedFocus(g: Matrix, g': Matrix, p: Pos): Pos
    requires |g| > 0 && |g'| > 0 && |g'[0]| > 0
  {
    var k := p.row * |g[0]| + p.col;
    Pos(k / |g'[0]|, k % |g'[0]|)
  }

  /** Re-packing the same cells moves the single tab stop along with the focus pointer. */
  lemma RestructureTabStop(g: Matrix, g': Matrix, p: Pos)
    requires FilledRows(g) && FilledRows(g') && Flatten(g') == Flatten(g)
    requires |g'| > 0 && |g'[0]| > 0
    requires ValidPos(g, p) && SingleTabStop(g, Some(p))
    ensures SingleTabStop(g', Some(RepackedFocus(g, g', p)))
  {
    var q := RepackedFocus(g, g', p);
    forall r, c | ValidCell(g', r, c)
      ensures g'[r][c].tabIndex == 0 <==> Some(q) == Some(Pos(r, c))
    {
      TabStopCell(g, g', p, r, c);
    }
  }

  /** Re-packing a grid without a tab stop leaves it without one. */
  lemma RestructureNoTabStop(g: Matrix, g': Matrix)
    requires FilledRows(g) && FilledRows(g') && Flatten(g') == Flatten(g)
    requires |g'| > 0 && |g'[0]| > 0 && (|g| > 0 ==> |g[0]| > 0)
    requires SingleTabStop(g, None)
    ensures SingleTabStop(g', None)
  {
    forall r, c | ValidCell(g', r, c)
      ensures g'[r][c].tabIndex != 0
    {
      NoTabStopCell(g, g', r, c);
    }
  }
}
