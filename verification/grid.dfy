/**
 * The keyboard-navigable data grid `aria.Grid` (reference.js:54-874) as an
 * object whose methods update its state in place: the focus matrix of
 * cells, the focus pointer (`focusedRow`, `focusedCol`), the roving tab
 * stop, the pagination window and the sort state of the headers.
 *
 * The browser is abstracted: the DOM elements are the `Cell` values of
 * GridModel, event targets are element identifiers, `element.focus()` is
 * reported by a boolean result, and the timer of `checkRestructureGrid`
 * is left to the caller, which calls `RestructureGrid` when it fires.
 */
module AriaGrid {
  import opened Wrappers
  import opened GridModel

  /** The keys the grid reacts to (`aria.KeyCode`); every other key is `OtherKey`. */
  datatype Key = Up | Down | Left | Right | Home | End | PageUp | PageDown | OtherKey

  /** An `.editable-text` cell: its `.edit-text-button` and its `.edit-text-input`. */
  datatype EditableCell = EditableCell(button: Cell, input: Cell)

  /** The cells all have tabindex -1: the grid's assumption about its markup (reference.js:48). */
  predicate AllUntabbed(g: Matrix) {
    forall r, c :: 0 <= r < |g| && 0 <= c < |g[r]| ==> g[r][c].tabIndex == -1
  }

  /** Every cell has the width of the first one. */
  predicate SameWidths(cells: seq<Cell>) {
    forall i :: 0 <= i < |cells| ==> cells[i].width == cells[0].width
  }

  /** Markup without a tab stop leaves the grid without one. */
  lemma UntabbedNoStop(g: Matrix)
    requires AllUntabbed(g)
    ensures SingleTabStop(g, None)
  {
  }

  /** Toggling a column's hidden class touches no tab stop, input or element. */
  lemma ToggleKeepsFocus(g: Matrix, colIndex: int, isShown: bool, focus: Option<Pos>)
    ensures var g' := ToggledColumn(g, colIndex, isShown);
            SingleTabStop(g', focus) == SingleTabStop(g, focus) &&
            forall r, c :: ValidCell(g, r, c) ==> g'[r][c].isInput == g[r][c].isInput && g'[r][c].node == g[r][c].node
  {
  }

  /**
   * One iteration of the packing loop: from the finished rows `done`, the
   * row `current` being filled and its width `w` to the same after the
   * next cell.
   */
  lemma PackStep(cells: seq<Cell>, gridWidth: int, i: nat, done: Matrix, current: seq<Cell>, w: int,
                 done': Matrix, current': seq<Cell>, w': int)
    requires i < |cells|
    requires done + [current] == PackPrefix(cells, gridWidth, i).rows && w == PackPrefix(cells, gridWidth, i).width
    requires w > 0 && w >= gridWidth - cells[i].width ==>
               done' == done + [current] && current' == [cells[i]] && w' == cells[i].width
    requires !(w > 0 && w >= gridWidth - cells[i].width) ==>
               done' == done && current' == current + [cells[i]] && w' == w + cells[i].width
    ensures done' + [current'] == PackPrefix(cells, gridWidth, i + 1).rows
    ensures w' == PackPrefix(cells, gridWidth, i + 1).width
  {
    var p := PackPrefix(cells, gridWidth, i);
    assert p.rows[..|p.rows| - 1] == done;
  }

  /**
   * The packing loop of `restructureGrid`: each cell goes to the current
   * row unless that row has width and the cell would reach the grid
   * width, in which case a new row is started first.
   */
  method PackRows(cells: seq<Cell>, gridWidth: int) returns (rows: Matrix)
    requires cells != []
    ensures rows == Repacked(cells, gridWidth)
  {
    var done: Matrix := [];
    var newRow: seq<Cell> := [];
    var currentWidth := 0;
    var i := 0;
    while i < |cells|
      invariant 0 <= i <= |cells|
      invariant done + [newRow] == PackPrefix(cells, gridWidth, i).rows
      invariant currentWidth == PackPrefix(cells, gridWidth, i).width
    {
      ghost var done0, newRow0, width0 := done, newRow, currentWidth;
      var cell := cells[i];
      if currentWidth > 0 && currentWidth >= gridWidth - cell.width {
        done := done + [newRow];
        newRow := [];
        currentWidth := 0;
      }
      newRow := newRow + [cell];
      currentWidth := currentWidth + cell.width;
      PackStep(cells, gridWidth, i, done0, newRow0, width0, done, newRow, currentWidth);
      i := i + 1;
    }
    rows := done + [newRow];
    assert cells[..i] == cells;
  }

  /**
   * The packing loop of `restructureGrid` as written: the unbound callback
   * throws at the first new row (`PackPrefixAsWritten`), so the loop only
   * ever fills the first row, and `None` is the throw.
   */
  method PackRowsAsWritten(cells: seq<Cell>, gridWidth: int) returns (rows: Option<Matrix>)
    ensures rows == PackAsWritten(cells, gridWidth)
  {
    var newRow: seq<Cell> := [];
    var currentWidth := 0;
    var i := 0;
    while i < |cells|
      invariant 0 <= i <= |cells|
      invariant PackPrefixAsWritten(cells, gridWidth, i) == Some(Packing([newRow], currentWidth))
    {
      var cell := cells[i];
      AsWrittenStep(cells, gridWidth, i, newRow, currentWidth);
      if currentWidth > 0 && currentWidth >= gridWidth - cell.width {
        // `this.gridNode.append(newRow)` with `this` undefined
        AsWrittenStaysThrown(cells, gridWidth, i + 1, |cells|);
        return None;
      }
      newRow := newRow + [cell];
      currentWidth := currentWidth + cell.width;
      i := i + 1;
    }
    rows := Some([newRow]);
  }

  /**
   * The loop of `getNextVisibleCell`: from `p`, step with `getNextCell`
   * while the cell is hidden, giving up when a step does not move or the
   * `fuel` steps are spent.
   */
  method ScanVisible(g: Matrix, wrapCols: bool, wrapRows: bool, p: Pos, dx: int, dy: int, fuel: nat)
    returns (next: Option<Pos>)
    requires ValidPos(g, p)
    ensures next == ScanWithin(g, wrapCols, wrapRows, p, dx, dy, fuel)
  {
    var q, n := p, fuel;
    while g[q.row][q.col].hidden
      invariant ValidPos(g, q)
      invariant ScanWithin(g, wrapCols, wrapRows, q, dx, dy, n) == ScanWithin(g, wrapCols, wrapRows, p, dx, dy, fuel)
      decreases n
    {
      ScanWithinStep(g, wrapCols, wrapRows, q, dx, dy, n);
      if n == 0 {
        return None;
      }
      var q' := NextCell(g, wrapCols, wrapRows, q.row, q.col, dx, dy).value;
      if q' == q {
        return None;
      }
      q, n := q', n - 1;
    }
    return Some(q);
  }

  /** The arrow keys and the step `getNextVisibleCell` takes for each. */
  predicate IsArrow(key: Key) {
    key.Up? || key.Down? || key.Left? || key.Right?
  }

  function StepX(key: Key): int {
    if key.Left? then -1 else if key.Right? then 1 else 0
  }

  function StepY(key: Key): int {
    if key.Up? then -1 else if key.Down? then 1 else 0
  }

  /**
   * `rowCaret`/`colCaret` of `checkFocusChange` for a navigation key from
   * the focused cell `f`; `None` where `getNextVisibleCell` found nothing
   * (the source then reads `undefined` coordinates and moves nothing).
   */
  function Caret(g: Matrix, wrapCols: bool, wrapRows: bool, f: Pos, key: Key, ctrl: bool): Option<Pos>
    requires ValidPos(g, f)
  {
    if IsArrow(key) then NextVisible(g, wrapCols, wrapRows, f, StepX(key), StepY(key))
    else if key.Home? then Some(Pos(if ctrl then 0 else f.row, 0))
    else Some(Pos(if ctrl then |g| - 1 else f.row, |g[f.row]| - 1))
  }

  /** A cell `focusCell` accepts: inside the matrix and not hidden. */
  predicate CanFocus(g: Matrix, p: Pos) {
    ValidPos(g, p) && !IsHidden(g, p)
  }

  /** The caret depends on the layout only, so re-pointing the focus does not change it. */
  lemma CaretLayout(g: Matrix, g': Matrix, wrapCols: bool, wrapRows: bool, f: Pos, key: Key, ctrl: bool)
    requires SameLayout(g, g') && ValidPos(g, f)
    ensures Caret(g, wrapCols, wrapRows, f, key, ctrl) == Caret(g', wrapCols, wrapRows, f, key, ctrl)
    ensures forall p :: CanFocus(g, p) == CanFocus(g', p)
  {
    if IsArrow(key) {
      NextVisibleLayout(g, g', wrapCols, wrapRows, f, StepX(key), StepY(key));
    }
  }

  lemma LayoutTrans(g0: Matrix, g1: Matrix, g2: Matrix)
    requires SameLayout(g0, g1) && SameLayout(g1, g2)
    ensures SameLayout(g0, g2)
  {
  }

  class Grid {
    /** The focus matrix `this.grid`, with the state of every cell. */
    var grid: Matrix
    /** `focusedRow`/`focusedCol`; `None` while they are still unset (NaN). */
    var focus: Option<Pos>
    var navigationDisabled: bool
    var topIndex: int
    var perPage: int
    var waitingToRestructure: bool
    /** The `hidden` class of each scrollable row (`.scroll-row`). */
    var pageHidden: seq<bool>
    /** `aria-sort` of each sortable header, by column index. */
    var ariaSort: map<nat, SortType>
    const paginationEnabled: bool
    const shouldWrapCols: bool
    const shouldWrapRows: bool
    const shouldRestructure: bool

    /**
     * The focus invariant: rows are non-empty, the pointer addresses a
     * cell, that cell is the only tab stop, and navigation is disabled
     * exactly when the focused cell is an input.
     */
    ghost predicate FocusValid()
      reads this`grid, this`focus, this`navigationDisabled
    {
      (forall r :: 0 <= r < |grid| ==> grid[r] != []) &&
      (focus.Some? ==> ValidPos(grid, focus.value)) &&
      SingleTabStop(grid, focus) &&
      navigationDisabled == (focus.Some? && grid[focus.value.row][focus.value.col].isInput)
    }

    /** The page invariant: exactly one page of rows, starting at `topIndex`, is shown. */
    ghost predicate PageValid()
      reads this`perPage, this`pageHidden, this`topIndex
    {
      paginationEnabled ==>
        perPage >= 1 && 0 <= topIndex && (|pageHidden| > 0 ==> topIndex < |pageHidden|) &&
        ShowsPage(pageHidden, topIndex, perPage)
    }

    ghost predicate Valid()
      reads this
    {
      FocusValid() && PageValid()
    }

    /**
     * The constructor: `setupFocusGrid`, `setFocusPointer(0, 0)`, then the
     * first page (`setupPagination`) or `perPage` as the number of rows.
     */
    constructor (dom: seq<seq<DomCell>>, paginate: bool, wrapCols: bool, wrapRows: bool, restructure: bool,
                 perPageAttr: int, scrollRows: seq<bool>, headers: map<nat, SortType>)
      requires AllUntabbed(FocusMatrix(dom))
      requires ValidCell(FocusMatrix(dom), 0, 0) && !FocusMatrix(dom)[0][0].hidden
      requires paginate ==> perPageAttr >= 1
      ensures Valid()
      ensures paginationEnabled == paginate && shouldWrapCols == wrapCols
      ensures shouldWrapRows == wrapRows && shouldRestructure == restructure
      ensures var g0 := if paginate then WithIndices(FocusMatrix(dom)) else FocusMatrix(dom);
              focus == Some(Pos(0, 0)) && grid == MoveTabStop(g0, None, Pos(0, 0)) &&
              perPage == (if paginate then perPageAttr else |g0|)
      ensures paginate && |scrollRows| > 0 ==> pageHidden == PageWindow(|scrollRows|, 0, true, perPageAttr)
      ensures !(paginate && |scrollRows| > 0) ==> pageHidden == scrollRows
      ensures topIndex == 0 && !waitingToRestructure && ariaSort == headers
    {
      paginationEnabled := paginate;
      shouldWrapCols := wrapCols;
      shouldWrapRows := wrapRows;
      shouldRestructure := restructure;
      navigationDisabled := false;
      focus := None;
      grid := [];
      perPage := 0;
      topIndex := 0;
      waitingToRestructure := false;
      pageHidden := scrollRows;
      ariaSort := headers;
      new;
      Setup(dom, perPageAttr);
    }

    /** The constructor's calls: `setupFocusGrid`, `setFocusPointer(0, 0)`, then the first page. */
    method Setup(dom: seq<seq<DomCell>>, perPageAttr: int)
      requires AllUntabbed(FocusMatrix(dom))
      requires ValidCell(FocusMatrix(dom), 0, 0) && !FocusMatrix(dom)[0][0].hidden
      requires paginationEnabled ==> perPageAttr >= 1
      requires focus.None? && !navigationDisabled && topIndex == 0
      modifies this`grid, this`focus, this`navigationDisabled, this`perPage, this`pageHidden, this`topIndex
      ensures Valid()
      ensures var g0 := if paginationEnabled then WithIndices(FocusMatrix(dom)) else FocusMatrix(dom);
              focus == Some(Pos(0, 0)) && grid == MoveTabStop(g0, None, Pos(0, 0)) &&
              perPage == (if paginationEnabled then perPageAttr else |g0|)
      ensures paginationEnabled && |old(pageHidden)| > 0 ==> pageHidden == PageWindow(|old(pageHidden)|, 0, true, perPageAttr)
      ensures !(paginationEnabled && |old(pageHidden)| > 0) ==> pageHidden == old(pageHidden)
      ensures topIndex == 0 && waitingToRestructure == old(waitingToRestructure) && ariaSort == old(ariaSort)
    {
      InitFocus(dom);
      StartPaging(perPageAttr);
    }

    /** The constructor's tail: the first page, or `perPage` as the number of rows. */
    method StartPaging(perPageAttr: int)
      requires paginationEnabled ==> perPageAttr >= 1
      requires topIndex == 0
      modifies this`perPage, this`pageHidden, this`topIndex
      ensures PageValid() && topIndex == 0
      ensures perPage == if paginationEnabled then perPageAttr else |grid|
      ensures paginationEnabled && |old(pageHidden)| > 0 ==> pageHidden == PageWindow(|old(pageHidden)|, 0, true, perPageAttr)
      ensures !(paginationEnabled && |old(pageHidden)| > 0) ==> pageHidden == old(pageHidden)
    {
      if paginationEnabled {
        SetupPagination(perPageAttr);
      } else {
        perPage := |grid|;
      }
    }

    /** The constructor's `setupFocusGrid` and `setFocusPointer(0, 0)`. */
    method InitFocus(dom: seq<seq<DomCell>>)
      requires AllUntabbed(FocusMatrix(dom))
      requires ValidCell(FocusMatrix(dom), 0, 0) && !FocusMatrix(dom)[0][0].hidden
      requires focus.None? && !navigationDisabled
      modifies this`grid, this`focus, this`navigationDisabled
      ensures FocusValid()
      ensures var g0 := if paginationEnabled then WithIndices(FocusMatrix(dom)) else FocusMatrix(dom);
              focus == Some(Pos(0, 0)) && grid == MoveTabStop(g0, None, Pos(0, 0))
    {
      SetupFocusGrid(dom);
      assert FocusValid() && ValidCell(grid, 0, 0) && !grid[0][0].hidden by {
        UntabbedNoStop(FocusMatrix(dom));
        IndicesKeepFocus(FocusMatrix(dom), None);
      }
      var ok := SetFocusPointer(0, 0);
    }

    /** `setupPagination`: `perPage` from the data-per-page attribute, then the first page. */
    method SetupPagination(perPageAttr: int)
      requires paginationEnabled && perPageAttr >= 1 && 0 <= topIndex
      modifies this`perPage, this`pageHidden, this`topIndex
      ensures PageValid() && perPage == perPageAttr
      ensures |old(pageHidden)| > 0 ==> pageHidden == PageWindow(|old(pageHidden)|, 0, true, perPageAttr) && topIndex == 0
      ensures |old(pageHidden)| == 0 ==> pageHidden == old(pageHidden) && topIndex == old(topIndex)
    {
      perPage := perPageAttr;
      var _ := ShowFromRow(0, true);
      if |pageHidden| > 0 {
        WindowIsPage(|pageHidden|, 0, true, perPage);
      }
    }

    /** `setupFocusGrid`: one row per DOM row, holding its focusable elements. */
    method SetupFocusGrid(dom: seq<seq<DomCell>>)
      modifies this`grid
      ensures grid == if paginationEnabled then WithIndices(FocusMatrix(dom)) else FocusMatrix(dom)
    {
      grid := [];
      var i := 0;
      while i < |dom|
        invariant 0 <= i <= |dom|
        invariant grid == FocusMatrix(dom[..i])
      {
        var row := dom[i];
        var rowCells: seq<Cell> := [];
        var j := 0;
        while j < |row|
          invariant 0 <= j <= |row|
          invariant rowCells == FocusRow(row[..j])
        {
          assert row[..j + 1][..j] == row[..j];
          if row[j].self.Some? {
            rowCells := rowCells + [row[j].self.value];
          } else if row[j].inner.Some? {
            rowCells := rowCells + [row[j].inner.value];
          }
          j := j + 1;
        }
        assert row[..j] == row;
        assert dom[..i + 1][..i] == dom[..i];
        if |rowCells| > 0 {
          grid := grid + [rowCells];
        }
        i := i + 1;
      }
      assert dom[..i] == dom;
      if paginationEnabled {
        SetupIndices();
      }
    }

    /** `setupIndices`: aria-rowindex and aria-colindex, counted from 1. */
    method SetupIndices()
      modifies this`grid
      ensures grid == WithIndices(old(grid))
    {
      var row := 0;
      while row < |grid|
        invariant 0 <= row <= |grid| == |old(grid)|
        invariant forall r :: 0 <= r < row ==> grid[r] == WithIndices(old(grid))[r]
        invariant forall r :: row <= r < |grid| ==> grid[r] == old(grid)[r]
      {
        var cols := grid[row];
        var col := 0;
        while col < |cols|
          invariant 0 <= col <= |cols| == |old(grid)[row]|
          invariant forall c :: 0 <= c < col ==> cols[c] == WithIndices(old(grid))[row][c]
          invariant forall c :: col <= c < |cols| ==> cols[c] == old(grid)[row][c]
        {
          cols := cols[col := cols[col].(rowIndex := row + 1, colIndex := col + 1)];
          col := col + 1;
        }
        assert cols == WithIndices(old(grid))[row];
        grid := grid[row := cols];
        row := row + 1;
      }
      assert forall r :: 0 <= r < |grid| ==> grid[r] == WithIndices(old(grid))[r];
    }

    /**
     * `setFocusPointer`: refuses a cell outside the matrix or hidden;
     * otherwise moves the tab stop and the pointer there and disables
     * navigation iff the cell is an input.
     */
    method SetFocusPointer(row: int, col: int) returns (ok: bool)
      requires FocusValid()
      modifies this`grid, this`focus, this`navigationDisabled
      ensures FocusValid()
      ensures ok == (ValidCell(old(grid), row, col) && !old(grid)[row][col].hidden)
      ensures ok ==> focus == Some(Pos(row, col)) && grid == MoveTabStop(old(grid), old(focus), Pos(row, col))
      ensures !ok ==> focus == old(focus) && grid == old(grid) && navigationDisabled == old(navigationDisabled)
    {
      if !ValidCell(grid, row, col) || grid[row][col].hidden {
        return false;
      }
      MoveTabStopSingle(grid, focus, Pos(row, col));
      grid := MoveTabStop(grid, focus, Pos(row, col));
      navigationDisabled := grid[row][col].isInput;
      focus := Some(Pos(row, col));
      return true;
    }

    /** `focusCell`: `setFocusPointer`, and on success the element takes the browser focus. */
    method FocusCell(row: int, col: int) returns (focused: bool)
      requires FocusValid()
      modifies this`grid, this`focus, this`navigationDisabled
      ensures FocusValid()
      ensures focused == (ValidCell(old(grid), row, col) && !old(grid)[row][col].hidden)
      ensures focused ==> focus == Some(Pos(row, col)) && grid == MoveTabStop(old(grid), old(focus), Pos(row, col))
      ensures !focused ==> focus == old(focus) && grid == old(grid) && navigationDisabled == old(navigationDisabled)
    {
      focused := SetFocusPointer(row, col);
    }

    /** The nested search loops of `findFocusedItem` and `focusClickedCell`: the first cell that is `target`. */
    method FindCell(target: nat) returns (p: Option<Pos>)
      ensures p == FindNode(grid, target)
    {
      var i := 0;
      while i < |grid|
        invariant 0 <= i <= |grid|
        invariant FindNodeFrom(grid, target, i) == FindNode(grid, target)
      {
        var j := 0;
        while j < |grid[i]|
          invariant 0 <= j <= |grid[i]|
          invariant FindInRow(grid[i], target, j) == FindInRow(grid[i], target, 0)
        {
          if grid[i][j].node == target {
            return Some(Pos(i, j));
          }
          j := j + 1;
        }
        i := i + 1;
      }
      return None;
    }

    /**
     * `findFocusedItem`: when the event target is not the focused cell, the
     * pointer moves to the first cell that is.
     */
    method FindFocusedItem(target: nat)
      requires Valid() && focus.Some?
      modifies this`grid, this`focus, this`navigationDisabled
      ensures Valid()
      ensures focus == Some(FocusAfterFind(old(grid), old(focus).value, target))
      ensures focus == old(focus) ==> grid == old(grid)
      ensures focus != old(focus) ==> grid == MoveTabStop(old(grid), old(focus), focus.value)
      ensures SameLayout(old(grid), grid)
    {
      var f := focus.value;
      if grid[f.row][f.col].node == target {
        return;
      }
      var p := FindCell(target);
      if p.Some? {
        MoveTabStopLayout(grid, focus, p.value);
        var _ := SetFocusPointer(p.value.row, p.value.col);
      }
    }

    /**
     * `focusClickedCell`: the clicked cell gets the focus pointer and,
     * unless it is a menu button, the browser focus.  The second
     * `setFocusPointer` of `focusCell` changes nothing (`MoveTabStopInPlace`).
     */
    method FocusClickedCell(clicked: nat, isMenuButton: bool) returns (focused: bool)
      requires FocusValid()
      modifies this`grid, this`focus, this`navigationDisabled
      ensures FocusValid()
      ensures var p := FindNode(old(grid), clicked);
              if p.Some? && CanFocus(old(grid), p.value) then
                focus == p && grid == MoveTabStop(old(grid), old(focus), p.value) && focused == !isMenuButton
              else
                focus == old(focus) && grid == old(grid) && !focused
    {
      focused := false;
      var p := FindCell(clicked);
      if p.Some? {
        var ok := SetFocusPointer(p.value.row, p.value.col);
        if !isMenuButton {
          if ok {
            MoveTabStopInPlace(grid, p.value);
          }
          focused := FocusCell(p.value.row, p.value.col);
        }
      }
    }

    /**
     * `getNextVisibleCell`: the scan of `getNextCell` steps from the focused
     * cell that stops at the first visible cell, or gives up when a step
     * does not move.  The step bound `ScanBound` is the guard the source
     * lacks (see `JaggedScanCycles`); on filled grids it never cuts the
     * scan short (`NextVisibleAsWritten`).
     */
    method GetNextVisibleCell(dx: int, dy: int) returns (next: Option<Pos>)
      requires FocusValid()
      ensures focus.None? ==> next.None?
      ensures focus.Some? ==> next == NextVisible(grid, shouldWrapCols, shouldWrapRows, focus.value, dx, dy)
    {
      if focus.None? {
        return None;
      }
      var f := focus.value;
      var start := NextCell(grid, shouldWrapCols, shouldWrapRows, f.row, f.col, dx, dy).value;
      next := ScanVisible(grid, shouldWrapCols, shouldWrapRows, start, dx, dy, ScanBound(grid));
    }

    /**
     * `showFromRow`: shows the page that starts (scrolling down) or ends
     * (scrolling up) at `start` and hides every other scrollable row; the
     * result is the pair passed to `onPaginationChange`, `None` when
     * `start` is out of range and nothing changes.
     */
    method ShowFromRow(start: int, down: bool) returns (range: Option<(int, int)>)
      requires perPage >= 1
      modifies this`pageHidden, this`topIndex
      ensures |pageHidden| == |old(pageHidden)|
      ensures !(0 <= start < |pageHidden|) ==> range.None? && pageHidden == old(pageHidden) && topIndex == old(topIndex)
      ensures 0 <= start < |pageHidden| ==>
                pageHidden == PageWindow(|pageHidden|, start, down, perPage) &&
                topIndex == WindowLo(start, down, perPage) &&
                range == Some((WindowLo(start, down, perPage), WindowHi(|pageHidden|, start, down, perPage)))
    {
      var n := |pageHidden|;
      if start < 0 || start >= n {
        return None;
      }
      var reachedTop := false;
      var firstIndex := -1;
      var endIndex := -1;
      ghost var target := PageWindow(n, start, down, perPage);
      ghost var lo, hi := WindowLo(start, down, perPage), WindowHi(n, start, down, perPage);
      var i := 0;
      while i < n
        invariant 0 <= i <= n == |pageHidden|
        invariant forall j :: 0 <= j < i ==> pageHidden[j] == target[j]
        invariant reachedTop <==> lo < i
        invariant firstIndex == (if lo < i then lo else -1)
        invariant endIndex == (if lo < i then Min(i - 1, hi) else -1)
        invariant lo < i ==> topIndex == lo
      {
        if (down && i >= start && i < start + perPage) || (!down && i <= start && i > start - perPage) {
          pageHidden := pageHidden[i := false];
          if !reachedTop {
            topIndex := i;
            reachedTop := true;
          }
          if firstIndex < 0 {
            firstIndex := i;
          }
          endIndex := i;
        } else {
          pageHidden := pageHidden[i := true];
        }
        i := i + 1;
      }
      assert pageHidden == target;
      return Some((firstIndex, endIndex));
    }

    /** Scrolls so that row `row` is on the page: the two checks of `checkFocusChange`. */
    method ScrollToRow(row: int)
      requires Valid() && paginationEnabled
      modifies this`pageHidden, this`topIndex
      ensures Valid() && |pageHidden| == |old(pageHidden)|
      ensures 0 <= row < |pageHidden| ==> !pageHidden[row]
      ensures ScrolledTo(old(pageHidden), old(topIndex), pageHidden, topIndex, perPage, row)
    {
      if row < topIndex {
        var _ := ShowFromRow(row, true);
        if 0 <= row < |pageHidden| {
          WindowIsPage(|pageHidden|, row, true, perPage);
        }
      }
      if row >= topIndex + perPage {
        var _ := ShowFromRow(row, false);
        if 0 <= row < |pageHidden| {
          WindowIsPage(|pageHidden|, row, false, perPage);
        }
      }
    }

    /** The caret of `checkFocusChange` for an arrow, Home or End key, from the focused cell. */
    method NavigationCaret(key: Key, ctrl: bool) returns (caret: Option<Pos>)
      requires FocusValid() && focus.Some?
      requires IsArrow(key) || key.Home? || key.End?
      ensures caret == Caret(grid, shouldWrapCols, shouldWrapRows, focus.value, key, ctrl)
    {
      var f := focus.value;
      if IsArrow(key) {
        caret := GetNextVisibleCell(StepX(key), StepY(key));
      } else if key.Home? {
        caret := Some(Pos(if ctrl then 0 else f.row, 0));
      } else {
        caret := Some(Pos(if ctrl then |grid| - 1 else f.row, |grid[f.row]| - 1));
      }
    }

    /** The end of `checkFocusChange`: scroll the caret's row onto the page, then `focusCell`. */
    method GoToCaret(p: Pos)
      requires Valid()
      modifies this`grid, this`focus, this`navigationDisabled, this`pageHidden, this`topIndex
      ensures Valid() && SameLayout(old(grid), grid)
      ensures CanFocus(old(grid), p) ==> focus == Some(p)
      ensures !CanFocus(old(grid), p) ==> focus == old(focus) && grid == old(grid)
      ensures paginationEnabled && 0 <= p.row < |pageHidden| ==> !pageHidden[p.row]
      ensures paginationEnabled ==> ScrolledTo(old(pageHidden), old(topIndex), pageHidden, topIndex, perPage, p.row)
      ensures !paginationEnabled ==> pageHidden == old(pageHidden) && topIndex == old(topIndex)
    {
      if paginationEnabled {
        ScrollToRow(p.row);
      }
      if ValidPos(grid, p) {
        MoveTabStopLayout(grid, focus, p);
      }
      var _ := FocusCell(p.row, p.col);
    }

    /**
     * `checkFocusChange`: unless navigation is disabled, re-synchronises the
     * pointer with the event target, then moves it for an arrow, Home or
     * End key (Ctrl with Home/End: first/last row), scrolling the target
     * row onto the page first.  The result says whether the key was handled
     * (`preventDefault`).
     */
    method CheckFocusChange(key: Key, ctrl: bool, target: nat) returns (handled: bool)
      requires Valid()
      requires !navigationDisabled ==> focus.Some?
      modifies this`grid, this`focus, this`navigationDisabled, this`pageHidden, this`topIndex
      ensures Valid()
      ensures handled <==> !old(navigationDisabled) && (IsArrow(key) || key.Home? || key.End?)
      ensures old(navigationDisabled) ==>
                grid == old(grid) && focus == old(focus) && pageHidden == old(pageHidden) && topIndex == old(topIndex)
      ensures !old(navigationDisabled) ==>
                var f1 := FocusAfterFind(old(grid), old(focus).value, target);
                var caret := if handled then Caret(old(grid), shouldWrapCols, shouldWrapRows, f1, key, ctrl) else None;
                SameLayout(old(grid), grid) &&
                (caret.Some? && CanFocus(old(grid), caret.value) ==> focus == caret) &&
                (!(caret.Some? && CanFocus(old(grid), caret.value)) ==> focus == Some(f1)) &&
                (paginationEnabled && caret.Some? && 0 <= caret.value.row < |pageHidden| ==> !pageHidden[caret.value.row]) &&
                (paginationEnabled && caret.Some? ==>
                   ScrolledTo(old(pageHidden), old(topIndex), pageHidden, topIndex, perPage, caret.value.row)) &&
                ((!paginationEnabled || caret.None?) ==> pageHidden == old(pageHidden) && topIndex == old(topIndex))
    {
      if navigationDisabled {
        return false;
      }
      ghost var g0, h0, t0 := grid, pageHidden, topIndex;
      FindFocusedItem(target);
      if !(IsArrow(key) || key.Home? || key.End?) {
        return false;
      }
      ghost var caret := Caret(g0, shouldWrapCols, shouldWrapRows, focus.value, key, ctrl);
      MoveCaret(key, ctrl, g0);
      assert paginationEnabled && caret.Some? ==> ScrolledTo(h0, t0, pageHidden, topIndex, perPage, caret.value.row);
      return true;
    }

    /**
     * The arrow/Home/End branch of `checkFocusChange`, stated against the
     * grid `g0` the event started from (same layout, other tab stop).
     */
    method MoveCaret(key: Key, ctrl: bool, ghost g0: Matrix)
      requires Valid() && focus.Some? && SameLayout(g0, grid) && ValidPos(g0, focus.value)
      requires IsArrow(key) || key.Home? || key.End?
      modifies this`grid, this`focus, this`navigationDisabled, this`pageHidden, this`topIndex
      ensures Valid() && SameLayout(g0, grid)
      ensures var caret := Caret(g0, shouldWrapCols, shouldWrapRows, old(focus).value, key, ctrl);
                (caret.Some? && CanFocus(g0, caret.value) ==> focus == caret) &&
                (!(caret.Some? && CanFocus(g0, caret.value)) ==> focus == old(focus)) &&
                (paginationEnabled && caret.Some? && 0 <= caret.value.row < |pageHidden| ==> !pageHidden[caret.value.row]) &&
                (paginationEnabled && caret.Some? ==>
                   ScrolledTo(old(pageHidden), old(topIndex), pageHidden, topIndex, perPage, caret.value.row)) &&
                ((!paginationEnabled || caret.None?) ==> pageHidden == old(pageHidden) && topIndex == old(topIndex))
    {
      var f := focus.value;
      var caret := NavigationCaret(key, ctrl);
      CaretLayout(g0, grid, shouldWrapCols, shouldWrapRows, f, key, ctrl);
      if caret.Some? {
        ghost var g1 := grid;
        GoToCaret(caret.value);
        LayoutTrans(g0, g1, grid);
      }
    }

    /** `movePageUp`: the page ending one row above the current top (at least a full page), focus on its last row. */
    method MovePageUp() returns (focused: bool)
      requires Valid() && paginationEnabled
      modifies this`grid, this`focus, this`navigationDisabled, this`pageHidden, this`topIndex
      ensures Valid()
      ensures var start := PageUpStart(perPage, old(topIndex));
              (0 <= start < |pageHidden| ==>
                 pageHidden == PageWindow(|pageHidden|, start, false, perPage) && topIndex == WindowLo(start, false, perPage)) &&
              (!(0 <= start < |pageHidden|) ==> pageHidden == old(pageHidden) && topIndex == old(topIndex)) &&
              focused == (old(focus).Some? && ValidCell(old(grid), start, old(focus).value.col) &&
                          !old(grid)[start][old(focus).value.col].hidden) &&
              (focused ==> focus == Some(Pos(start, old(focus).value.col))) &&
              (!focused ==> focus == old(focus) && grid == old(grid))
    {
      var start := PageUpStart(perPage, topIndex);
      var _ := ShowFromRow(start, false);
      if 0 <= start < |pageHidden| {
        WindowIsPage(|pageHidden|, start, false, perPage);
      }
      if focus.Some? {
        focused := FocusCell(start, focus.value.col);
      } else {
        focused := false;
      }
    }

    /** `movePageDown`: the page starting right below the current one, focus on its first row. */
    method MovePageDown() returns (focused: bool)
      requires Valid() && paginationEnabled
      modifies this`grid, this`focus, this`navigationDisabled, this`pageHidden, this`topIndex
      ensures Valid()
      ensures var start := PageDownStart(perPage, old(topIndex));
              (0 <= start < |pageHidden| ==>
                 pageHidden == PageWindow(|pageHidden|, start, true, perPage) && topIndex == start) &&
              (!(0 <= start < |pageHidden|) ==> pageHidden == old(pageHidden) && topIndex == old(topIndex)) &&
              focused == (old(focus).Some? && ValidCell(old(grid), start, old(focus).value.col) &&
                          !old(grid)[start][old(focus).value.col].hidden) &&
              (focused ==> focus == Some(Pos(start, old(focus).value.col))) &&
              (!focused ==> focus == old(focus) && grid == old(grid))
    {
      var start := PageDownStart(perPage, topIndex);
      var _ := ShowFromRow(start, true);
      if 0 <= start < |pageHidden| {
        WindowIsPage(|pageHidden|, start, true, perPage);
      }
      if focus.Some? {
        focused := FocusCell(start, focus.value.col);
      } else {
        focused := false;
      }
    }

    /** `checkPageChange`: Page Up and Page Down turn the page; other keys are ignored. */
    method CheckPageChange(key: Key) returns (handled: bool)
      requires Valid() && paginationEnabled
      modifies this`grid, this`focus, this`navigationDisabled, this`pageHidden, this`topIndex
      ensures Valid()
      ensures handled == (key.PageUp? || key.PageDown?)
      ensures handled ==>
                var start := if key.PageUp? then PageUpStart(perPage, old(topIndex)) else PageDownStart(perPage, old(topIndex));
                var top := if key.PageUp? then WindowLo(start, false, perPage) else start;
                var f := old(focus);
                (0 <= start < |pageHidden| ==>
                   pageHidden == PageWindow(|pageHidden|, start, key.PageDown?, perPage) && topIndex == top) &&
                (!(0 <= start < |pageHidden|) ==> pageHidden == old(pageHidden) && topIndex == old(topIndex)) &&
                (f.Some? && ValidCell(old(grid), start, f.value.col) && !old(grid)[start][f.value.col].hidden ==>
                   focus == Some(Pos(start, f.value.col))) &&
                (!(f.Some? && ValidCell(old(grid), start, f.value.col) && !old(grid)[start][f.value.col].hidden) ==>
                   focus == f && grid == old(grid))
      ensures !handled ==>
                grid == old(grid) && focus == old(focus) && pageHidden == old(pageHidden) &&
                topIndex == old(topIndex) && navigationDisabled == old(navigationDisabled)
    {
      handled := false;
      if key.PageUp? {
        handled := true;
        var _ := MovePageUp();
      } else if key.PageDown? {
        handled := true;
        var _ := MovePageDown();
      }
    }

    /** `checkRestructureGrid`: schedules one restructuring at a time (the 300 ms timer is the caller's). */
    method CheckRestructureGrid() returns (scheduled: bool)
      modifies this`waitingToRestructure
      ensures scheduled == !old(waitingToRestructure)
      ensures waitingToRestructure
    {
      if waitingToRestructure {
        return false;
      }
      waitingToRestructure := true;
      return true;
    }

    /**
     * The rebuilding half of `restructureGrid`: the packed rows become the
     * matrix (`setupFocusGrid`) and the pointer moves to the same flat index
     * in rows of the new width.
     */
    method RebuildGrid(gridWidth: int)
      requires FocusValid() && |grid| > 0
      requires FilledRows(grid) && SameWidths(Flatten(grid))
      modifies this`grid, this`focus
      ensures FocusValid()
      ensures var packed := Repacked(Flatten(old(grid)), gridWidth);
              FilledRows(packed) && |packed| > 0 && grid == packed
      ensures old(focus).None? ==> focus.None?
      ensures old(focus).Some? ==>
                var f := old(focus).value;
                focus == Some(RepackedFocus(old(grid), grid, f)) &&
                grid[focus.value.row][focus.value.col].node == old(grid)[f.row][f.col].node
    {
      var cells := Flatten(grid);
      assert cells != [] by {
        FilledAt(grid, Pos(0, 0));
      }
      var packed := PackRows(cells, gridWidth);
      AdoptPacking(gridWidth, packed);
    }

    /** `setupFocusGrid` on the packed rows, and the pointer carried over by its flat index. */
    method AdoptPacking(gridWidth: int, packed: Matrix)
      requires FocusValid() && |grid| > 0
      requires FilledRows(grid) && SameWidths(Flatten(grid))
      requires packed == Repacked(Flatten(grid), gridWidth)
      modifies this`grid, this`focus
      ensures FocusValid()
      ensures FilledRows(packed) && |packed| > 0 && grid == packed
      ensures old(focus).None? ==> focus.None?
      ensures old(focus).Some? ==>
                var f := old(focus).value;
                focus == Some(RepackedFocus(old(grid), grid, f)) &&
                grid[focus.value.row][focus.value.col].node == old(grid)[f.row][f.col].node
    {
      var g0 := grid;
      var cells := Flatten(grid);
      assert cells != [] by {
        FilledAt(g0, Pos(0, 0));
      }
      assert FilledRows(packed) by {
        UniformPacksFilled(cells, gridWidth, cells[0].width);
      }
      grid := packed;
      MoveFocusByIndex(g0, packed);
    }

    /** The focus pointer follows its cell to the same flat index in the re-packed rows. */
    method MoveFocusByIndex(g0: Matrix, packed: Matrix)
      requires grid == packed
      requires FilledRows(g0) && FilledRows(packed) && Flatten(packed) == Flatten(g0)
      requires |g0| > 0 && |g0[0]| > 0 && |packed| > 0 && forall r :: 0 <= r < |packed| ==> packed[r] != []
      requires focus.Some? ==> ValidPos(g0, focus.value)
      requires SingleTabStop(g0, focus)
      requires navigationDisabled == (focus.Some? && g0[focus.value.row][focus.value.col].isInput)
      modifies this`focus
      ensures FocusValid()
      ensures old(focus).None? ==> focus.None?
      ensures old(focus).Some? ==>
                var f := old(focus).value;
                focus == Some(RepackedFocus(g0, grid, f)) &&
                grid[focus.value.row][focus.value.col].node == g0[f.row][f.col].node
    {
      if focus.Some? {
        var f := focus.value;
        focus := Some(RepackedFocus(g0, grid, f));
        RestructureKeepsFocusedCell(g0, packed, f);
        RestructureTabStop(g0, packed, f);
      } else {
        RestructureNoTabStop(g0, packed);
      }
    }

    /**
     * `restructureGrid`: re-packs the cells, in document order, into rows
     * that fit `gridWidth`, rebuilds the matrix and carries the focus
     * pointer over by its flat index.  `shouldRefocus` is whether the
     * browser focus was on the tab stop.
     */
    method RestructureGrid(gridWidth: int, shouldRefocus: bool) returns (focused: bool)
      requires Valid() && |grid| > 0
      requires FilledRows(grid) && SameWidths(Flatten(grid))
      modifies this`grid, this`focus, this`navigationDisabled, this`waitingToRestructure
      ensures Valid() && !waitingToRestructure
      ensures var packed := Repacked(Flatten(old(grid)), gridWidth);
              grid == packed && FilledRows(packed) && |grid| > 0
      ensures old(focus).None? ==> focus.None? && !focused
      ensures old(focus).Some? ==>
                var f := old(focus).value;
                focus == Some(RepackedFocus(old(grid), grid, f)) &&
                grid[focus.value.row][focus.value.col].node == old(grid)[f.row][f.col].node &&
                focused == (shouldRefocus && !IsHidden(grid, focus.value))
    {
      waitingToRestructure := false;
      ghost var page := (pageHidden, topIndex, perPage);
      RebuildGrid(gridWidth);
      assert Valid() by {
        assert page == (pageHidden, topIndex, perPage);
      }
      focused := false;
      if shouldRefocus {
        focused := FocusPointer();
      }
    }

    /**
     * `restructureGrid` as written.  The debounce flag is cleared first;
     * then, when the cells need more than one row, the packing callback
     * throws (`PackAsWritten`) before `setupFocusGrid`, so the matrix and
     * the pointer keep their old values and nothing is re-focused.  With a
     * single row it does what `RestructureGrid` does.
     */
    method RestructureGridAsWritten(gridWidth: int, shouldRefocus: bool) returns (focused: bool)
      requires Valid() && |grid| > 0
      requires FilledRows(grid) && SameWidths(Flatten(grid))
      modifies this`grid, this`focus, this`navigationDisabled, this`waitingToRestructure
      ensures Valid() && !waitingToRestructure
      ensures |Repacked(Flatten(old(grid)), gridWidth)| > 1 ==>
                grid == old(grid) && focus == old(focus) && !focused
      ensures |Repacked(Flatten(old(grid)), gridWidth)| == 1 ==>
                grid == Repacked(Flatten(old(grid)), gridWidth) &&
                (old(focus).None? ==> focus.None? && !focused) &&
                (old(focus).Some? ==>
                   focus == Some(RepackedFocus(old(grid), grid, old(focus).value)) &&
                   focused == (shouldRefocus && !IsHidden(grid, focus.value)))
    {
      waitingToRestructure := false;
      var cells := Flatten(grid);
      assert cells != [] by {
        FilledAt(grid, Pos(0, 0));
      }
      var packed := PackRowsAsWritten(cells, gridWidth);
      PackAsWrittenThrows(cells, gridWidth);
      if packed.None? {
        return false;
      }
      ghost var page := (pageHidden, topIndex, perPage);
      AdoptPacking(gridWidth, packed.value);
      assert Valid() by {
        assert page == (pageHidden, topIndex, perPage);
      }
      focused := false;
      if shouldRefocus {
        focused := FocusPointer();
      }
    }

    /** `focusCell(focusedRow, focusedCol)`: gives the browser focus back to the tab stop. */
    method FocusPointer() returns (focused: bool)
      requires FocusValid()
      modifies this`grid, this`focus, this`navigationDisabled
      ensures grid == old(grid) && focus == old(focus) && navigationDisabled == old(navigationDisabled)
      ensures focused == (focus.Some? && !IsHidden(grid, focus.value))
    {
      if focus.None? {
        return false;
      }
      var p := focus.value;
      if !grid[p.row][p.col].hidden {
        MoveTabStopInPlace(grid, p);
      }
      focused := FocusCell(p.row, p.col);
    }

    /** The loop of `toggleColumn` over the cells of aria-colindex `colIndex`. */
    method SetColumnHidden(colIndex: int, isShown: bool)
      modifies this`grid
      ensures grid == ToggledColumn(old(grid), colIndex, isShown)
    {
      ghost var target := ToggledColumn(grid, colIndex, isShown);
      var row := 0;
      while row < |grid|
        invariant 0 <= row <= |grid| == |old(grid)|
        invariant forall r :: 0 <= r < row ==> grid[r] == target[r]
        invariant forall r :: row <= r < |grid| ==> grid[r] == old(grid)[r]
      {
        var cols := grid[row];
        var col := 0;
        while col < |cols|
          invariant 0 <= col <= |cols| == |old(grid)[row]|
          invariant forall c :: 0 <= c < col ==> cols[c] == target[row][c]
          invariant forall c :: col <= c < |cols| ==> cols[c] == old(grid)[row][c]
        {
          if cols[col].colIndex == colIndex {
            cols := cols[col := cols[col].(hidden := !isShown)];
          }
          col := col + 1;
        }
        assert cols == target[row];
        grid := grid[row := cols];
        row := row + 1;
      }
      assert grid == target;
    }

    /**
     * `toggleColumn`: sets or clears the hidden class of every cell with
     * aria-colindex `colIndex`; when that hides the focused column, the
     * pointer moves to the next visible cell to the right, if any.
     */
    method ToggleColumn(colIndex: int, isShown: bool)
      requires FocusValid()
      modifies this`grid, this`focus, this`navigationDisabled
      ensures FocusValid()
      ensures var g1 := ToggledColumn(old(grid), colIndex, isShown);
              if !isShown && old(focus).Some? && old(focus).value.col == colIndex - 1 then
                var next := NextVisible(g1, shouldWrapCols, shouldWrapRows, old(focus).value, 1, 0);
                (next.Some? ==> focus == next && grid == MoveTabStop(g1, old(focus), next.value)) &&
                (next.None? ==> focus == old(focus) && grid == g1)
              else
                focus == old(focus) && grid == g1
    {
      ghost var g0 := grid;
      SetColumnHidden(colIndex, isShown);
      assert FocusValid() by {
        ToggleKeepsFocus(g0, colIndex, isShown, focus);
      }
      if !isShown && focus.Some? && focus.value.col == colIndex - 1 {
        var next := GetNextVisibleCell(1, 0);
        if next.Some? {
          var _ := SetFocusPointer(next.value.row, next.value.col);
        }
      }
    }

    /**
     * `toggleEditMode`: swaps the edit button and the edit input of the
     * focused editable cell.  The element switched on takes the text of the
     * other one (always when switching the input on, when `updateText` when
     * switching it off), becomes visible and the tab stop, and replaces the
     * focused cell; the other one is hidden with tabindex -1.  Navigation is
     * disabled while the input is shown.
     */
    method ToggleEditMode(e: EditableCell, toggleOn: bool, updateText: bool) returns (e': EditableCell)
      requires FocusValid() && focus.Some?
      requires e.input.isInput && !e.button.isInput
      modifies this`grid, this`navigationDisabled
      ensures FocusValid()
      ensures var on := if toggleOn then e.input else e.button;
              var off := if toggleOn then e.button else e.input;
              var on' := on.(text := if toggleOn || updateText then off.text else on.text, hidden := false, tabIndex := 0);
              var off' := off.(hidden := true, tabIndex := -1);
              var f := focus.value;
              e' == (if toggleOn then EditableCell(off', on') else EditableCell(on', off')) &&
              grid == old(grid)[f.row := old(grid)[f.row][f.col := on']] &&
              navigationDisabled == toggleOn
    {
      var on := if toggleOn then e.input else e.button;
      var off := if toggleOn then e.button else e.input;
      if toggleOn || updateText {
        on := on.(text := off.text);
      }
      off := off.(hidden := true);
      on := on.(hidden := false);
      off := off.(tabIndex := -1);
      on := on.(tabIndex := 0);
      var f := focus.value;
      grid := grid[f.row := grid[f.row][f.col := on]];
      navigationDisabled := toggleOn;
      e' := if toggleOn then EditableCell(off, on) else EditableCell(on, off);
    }

    /**
     * `handleSort` (and `sortRows`): the data rows below the header row are
     * ordered by the numeric key of column `col`, ascending unless the
     * header was ascending; that header gets the new `aria-sort`, every
     * other one "none".
     */
    method HandleSort(col: nat)
      requires Valid() && !paginationEnabled
      requires col in ariaSort && |grid| >= 1 && Sortable(grid[1..], col)
      requires focus.None? || focus.value.row == 0
      modifies this`grid, this`ariaSort
      ensures Valid()
      ensures var dir := NextSort(old(ariaSort)[col]);
              grid == SortedGrid(old(grid), col, dir) &&
              ariaSort == (map k | k in old(ariaSort) :: if k == col then dir else Unsorted)
    {
      var dir := NextSort(ariaSort[col]);
      var sorted := SortedGrid(grid, col, dir);
      SortKeepsTabStop(grid, col, dir, focus);
      assert sorted[0] == grid[0] && |sorted| == |grid|;
      grid := sorted;
      assert FocusValid();
      ariaSort := map k | k in ariaSort :: Unsorted;
      ariaSort := ariaSort[col := dir];
    }
  }
}
