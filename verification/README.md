# tendril-wiki core, modelled in Dafny

This project models two parts of the tendril-wiki repository and proves properties about them.

- **The data grid `aria.Grid` (`reference.js`).** This is the keyboard-navigable widget of the WAI-ARIA Authoring Practices 1.1 grid pattern (section 3.12). It covers:
  - the jagged focus matrix built from the table's rows;
  - the single tab stop (`setFocusPointer`);
  - arrow, Home/End and Page Up/Down navigation, with optional wrapping of rows and columns;
  - windowed pagination (`showFromRow`);
  - the numeric column sort with its `aria-sort` header state;
  - responsive re-packing of cells into rows (`restructureGrid`), both as written, where the packing callback throws once a second row is needed, and as evidently intended (see "## Findings");
  - column hiding (`toggleColumn`);
  - the inline edit swap (`toggleEditMode`).

  `GridModel` (grid_model.dfy) holds the pure specification functions and lemmas. `AriaGrid.Grid` (grid.dfy) is a class whose fields are the widget's fields; its methods update them in place and are proved against those functions. The DOM is abstracted to what the grid reads and writes per cell:
  - the hidden class;
  - the `tabindex`;
  - `aria-rowindex` and `aria-colindex`;
  - whether the element is an input;
  - its text;
  - its width;
  - a node identity.

  Scrollable rows are one hidden flag each.
- **The wiki's text processing (Rust).**
  - Wikitext: the block tokeniser (`BlockParser`), the HTML formatter (`Formatters`), block assembly and outlink collection (`WikiHtml`), the note header parser and writer (`Headers`), tag lists (`Tags`), the HTML sanitiser (`Sanitize`) and the form decoder `PatchData::from` (`Patch`).
  - The markdown link state machine (`LinkMachine`).
  - The recently-used list and backlink table (`TaskCache`, `Mru`, `References`).
  - The bookmark title normaliser (`Bookmark`).
  - The search tokenizer (`Tokenizer`).

`Strings` (strings.dfy) models the Rust `str` operations these rely on (`split`, `lines`, `trim`, `join`, `replace`, `replacen`, `find`) on `seq<char>`. `Wrappers` supplies `Option` and `Result`. All text is ASCII.

## Model

| member | source | states |
|---|---|---|
| GridModel.NextCell | reference.js:728-785 | `getNextCell` never yields a cell outside the matrix: `None` on an empty grid, always a cell when it starts on one; any move goes to the wrapped neighbour |
| GridModel.NextCellAdvances | reference.js:728-785 | on a filled grid every move of `getNextCell` goes strictly forward: row-major order for Left/Right, column-major for Up/Down |
| GridModel.VisibleFrom | reference.js:798-823 | the `getNextVisibleCell` loop as written yields only a visible cell, never a cell behind the start, and the start itself when it is visible |
| GridModel.VisibleFromNoneStuck | reference.js:810-819 | the loop gives up (`false`) only when its own path from the start, every cell of it hidden, reaches a hidden cell that `getNextCell` does not move from |
| GridModel.JaggedScanCycles | reference.js:811-819 | on a jagged grid with row wrapping, two hidden cells send Up back and forth, so the loop as written never ends |
| GridModel.ScanWithin | reference.js:798-823 | the guarded scan yields only a visible cell, and the start when it is visible |
| GridModel.ScanWithinAgrees | reference.js:798-823 | with enough steps, the guarded scan equals the loop as written on every filled grid |
| GridModel.NextVisible | reference.js:798-823 | `getNextVisibleCell` yields only a visible cell of the matrix, or `None` |
| GridModel.NextVisibleAsWritten | reference.js:798-823 | on filled grids the guarded `getNextVisibleCell` is the source's loop started at `getNextCell` of the focus |
| GridModel.NextCellLayout | reference.js:728-785 | `getNextCell` depends only on the row lengths |
| GridModel.NextVisibleLayout | reference.js:728-823 | navigation reads only the layout and the hidden flags: moving the tab stop does not change where the arrows go |
| GridModel.LeftAtFirstColumnStays | reference.js:772-784 | without column wrapping, Left in column 0 is a no-op |
| GridModel.RightAtLastColumnStays | reference.js:772-784 | without column wrapping, Right in a row's last column is a no-op |
| GridModel.RightWrapsToNextRow | reference.js:751-754 | with column wrapping, Right past the first row's width goes to (r+1, 0) |
| GridModel.LeftWrapsToPreviousRow | reference.js:746-749 | with column wrapping, Left from column 0 goes to (r-1, first row's width - 1) |
| GridModel.DownWrapsToNextColumn | reference.js:766-769 | with row wrapping, Down past the last row goes to row 0 of the next column |
| GridModel.DownIntoGapWrapsToNextColumn | reference.js:766-769 | with row wrapping, Down into a cell missing from a short row also goes to row 0 of the next column |
| GridModel.UpWrapsToPreviousColumn | reference.js:758-760 | with row wrapping, Up past row 0 goes to the last row of the previous column |
| GridModel.UpWrapsAboveShortLastRow | reference.js:758-765 | the same, one row higher when the last row lacks that column |
| GridModel.TwoByThreeExample | reference.js:739-784 | in a 2x3 grid with column wrapping, Left at (0,0) stays and Right at (0,2) gives (1,0) |
| GridModel.WithTab | reference.js:147-158 | only the addressed cell's `tabindex` changes; the shape is kept |
| GridModel.MoveTabStop | reference.js:147-158 | `setFocusPointer`'s effect on cells: the target gets `tabindex` 0, the old stop (when set and different) gets -1, and every other cell is unchanged |
| GridModel.MoveTabStopSingle | reference.js:147-158 | moving the tab stop keeps exactly one cell at tabindex 0: the new target |
| GridModel.MoveTabStopInPlace | reference.js:147-158 | re-pointing the cell that already holds the tab stop changes nothing |
| GridModel.MoveTabStopLayout | reference.js:147-158 | moving the tab stop keeps rows, widths and hidden flags |
| GridModel.FindInRow | reference.js:364-374 | the first column of a row at or after `j` holding the target, or `None` when no later cell holds it |
| GridModel.FindNodeFrom | reference.js:364-374 | the first cell from row `i` on, in row-major order, holding the target; `None` exactly when no such cell exists |
| GridModel.FindNode | reference.js:364-374 | the first cell of the matrix in row-major order that is the target; `None` iff no cell is |
| GridModel.FocusAfterFind | reference.js:357-375 | `findFocusedItem` keeps the pointer when the focused cell is the target. Otherwise the pointer moves to the first matching cell when there is one and it is visible, and it stays in every other case |
| GridModel.WithIndices | reference.js:551-562 | cell (r, c) gets its row's aria-rowindex r+1 and aria-colindex c+1, and nothing else changes |
| GridModel.IndicesKeepFocus | reference.js:551-562 | `setupIndices` keeps the tab stop, the layout, inputs and element identities |
| GridModel.ToggledColumn | reference.js:834-843 | only the hidden flag of cells whose aria-colindex is k changes, and it becomes `!isShown` |
| GridModel.HideThenShow | reference.js:834-843 | hide-then-show equals show, and restores the grid when the column was visible |
| GridModel.ToggleIndexedColumn | reference.js:833-843 | after `setupIndices`, toggling aria-colindex k changes exactly grid column k-1 |
| GridModel.FocusRow | reference.js:95-116 | a matrix row has at most one element per DOM cell |
| GridModel.FocusRowSound | reference.js:95-116 | a matrix row holds only focusable elements of its DOM row, and is non-empty when the DOM row has one |
| GridModel.FocusRowKeeps | reference.js:100-115 | every focusable element of the DOM row is in its matrix row |
| GridModel.FocusRowAppend | reference.js:100-115 | the cells are taken in document order: the row of two runs of DOM cells is the first run's row followed by the second's |
| GridModel.FocusMatrix | reference.js:92-122 | `setupFocusGrid` has no empty row and no more rows than the DOM |
| GridModel.FocusMatrixSound | reference.js:95-121 | each matrix row is the focusable part of some DOM row |
| GridModel.FocusMatrixKeeps | reference.js:117-121 | every DOM row with a focusable element yields its row of the matrix |
| GridModel.FocusMatrixAppend | reference.js:95-121 | the rows are taken in document order: the matrix of two runs of DOM rows is the first run's matrix followed by the second's |
| GridModel.PageWindow | reference.js:621-652 | `showFromRow` shows exactly the rows of [s, s+perPage) scrolling down, or (s-perPage, s] scrolling up, clipped to the rows; the window holds `s` and is at most a page |
| GridModel.PaginationExample | reference.js:601-652 | 5 rows, 2 per page: the first page is {0,1}; Page Down shows {2,3} with top row 2 |
| GridModel.PageDownThenUp | reference.js:601-652 | Page Down then Page Up from a full page restores the page and its top row |
| GridModel.ScrolledShows | reference.js:337-345 | a scroll of `checkFocusChange` from a whole page leaves a whole page on show, and a target row in range is on it |
| GridModel.WindowIsPage | reference.js:621-652 | scrolling down, or up from at least a page below the top, shows exactly the `perPage` rows from the new top |
| GridModel.ShortPageNearTop | reference.js:621-652 | scrolling up near the top shows a clipped, short page |
| GridModel.NumericChars | reference.js:504-505 | only digits and dots remain, and the text never grows |
| GridModel.NumericCharsKeeps | reference.js:504-505 | every digit and dot is kept (as many times as it occurs), and the text is unchanged exactly when it has only digits and dots |
| GridModel.NumericCharsAppend | reference.js:504-505 | the filter keeps the order: filtering a concatenation is concatenating the filtered pieces |
| GridModel.LeadingDigits | reference.js:504-505 | the longest all-digit prefix, which is what `parseInt` reads |
| GridModel.SortKey | reference.js:504-505 | the key is NaN (`None`) exactly when no digit comes before the first dot |
| GridModel.SortKeyExamples | reference.js:504-505 | "10", "2" and "33" have keys 10, 2 and 33 |
| GridModel.DigitsKey | reference.js:504-505 | a digits-only text is keyed by its decimal value |
| GridModel.SortKeyDropsOthers | reference.js:504-505 | other characters are dropped and the key stops at the first dot: "$1.5" gives 1, and "n/a" gives NaN |
| GridModel.InsertRow | reference.js:533-545 | inserting a row adds exactly that row to the multiset of rows |
| GridModel.InsertRowMembers | reference.js:533-545 | an insertion introduces no row other than the inserted one |
| GridModel.InsertRowSorted | reference.js:501-545 | inserting into a sorted list keeps it sorted |
| GridModel.InOrderChain | reference.js:501-512 | the comparator's order is transitive, and total where it fails |
| GridModel.SortedCons | reference.js:501-512 | a row ordered before every row of a sorted list can head it |
| GridModel.SortRows | reference.js:491-545 | the sorted rows are ordered by the comparator and are a permutation of the input |
| GridModel.InsertRowStable | reference.js:532-545 | inserting a row into sorted rows places it after every row with the same key, so the rows of each key keep their order |
| GridModel.SortRowsStable | reference.js:532-545 | the sort is stable: for every key, the rows with that key come out in the order they went in, as `Array.prototype.sort` guarantees |
| GridModel.NextSort | reference.js:493-499 | the new `aria-sort` is descending iff the header was ascending, and never "none" |
| GridModel.SortedGrid | reference.js:491-525 | the header row stays first; the data rows are a sorted permutation of the old ones |
| GridModel.SortedGridRow | reference.js:491-525 | every row of the sorted matrix is a row of the old one, and only the header comes from the header |
| GridModel.SortKeepsTabStop | reference.js:491-525 | with the pointer in the header row, or unset, sorting keeps the single tab stop and leaves no row empty |
| GridModel.SortExampleStart | reference.js:501-512 | rows keyed 10 and 2: ascending gives 2, 10 and descending gives 10, 2 |
| GridModel.SortExampleAscending | reference.js:501-512 | keys 10, 2, 33 sort numerically ascending to 2, 10, 33 |
| GridModel.SortExampleDescending | reference.js:501-512 | the same rows sort descending to 33, 10, 2 |
| GridModel.PackStepCells | reference.js:688-700 | one loop turn appends the cell to the flattened rows and keeps the open row's width |
| GridModel.PackStepRows | reference.js:688-700 | one loop turn keeps every row narrower than the grid (except a single-cell row) and the open row non-empty |
| GridModel.PackPrefixCells | reference.js:688-700 | after n cells the rows hold exactly those cells, in order |
| GridModel.PackPrefixRows | reference.js:688-700 | after n cells every row fits, and only the starting row can be empty |
| GridModel.Repacked | reference.js:672-705 | the re-packed grid holds the original cells in order, with no empty row; it has rows iff there are cells |
| GridModel.PackAsWrittenAgrees | reference.js:688-700 | the loop as written agrees with the intended packing for as long as that has a single row, and has thrown once it has more |
| GridModel.AsWrittenStep | reference.js:688-700 | one turn of the loop as written: it throws on the new-row test, and otherwise the cell joins the single row |
| GridModel.AsWrittenStaysThrown | reference.js:688-700 | once the callback has thrown, the loop as written has thrown for every longer prefix |
| GridModel.PackAsWrittenThrows | reference.js:688-700 | the loop as written throws iff the intended packing `Repacked` needs more than one row, and otherwise yields `Repacked` |
| GridModel.PackThrowsExample | reference.js:688-694 | two cells 60 wide in a grid 100 wide: the intended packing is two rows, and the loop as written throws |
| GridModel.RepackedRowsFit | reference.js:688-700 | every re-packed row is narrower than the grid width, unless all of its cells but the last have zero width (a lone cell is always allowed) |
| GridModel.ClosedAtStep | reference.js:688-700 | with cells of one width, a loop turn closes rows only at the same length |
| GridModel.PackUniform | reference.js:688-700 | cells of one width pack into rows of one common length |
| GridModel.UniformPacksFilled | reference.js:688-700 | cells of one width pack into a filled grid: all rows full except the last |
| GridModel.FilledAt | reference.js:681-705 | in a filled grid, cell (r, c) is flat index r*w + c |
| GridModel.FilledIndex | reference.js:704-705 | in a filled grid, flat index k is cell (k / w, k % w) |
| GridModel.RestructureKeepsFocusedCell | reference.js:681-705 | the new pointer satisfies row*w' + col = the old flat index and addresses the same cell |
| GridModel.TabStopCell | reference.js:681-705 | after re-packing, a cell holds tabindex 0 iff it sits at the focus's flat index |
| GridModel.RestructureTabStop | reference.js:672-705 | re-packing moves the single tab stop along with the focus pointer |
| GridModel.RestructureNoTabStop | reference.js:672-705 | re-packing a grid without a tab stop leaves it without one |
| AriaGrid.UntabbedNoStop | reference.js:44-50 | markup whose cells all have tabindex -1 has no tab stop |
| AriaGrid.ToggleKeepsFocus | reference.js:833-852 | toggling a column's hidden class keeps the tab stop, inputs and elements |
| AriaGrid.PackStep | reference.js:688-700 | one iteration of the packing loop advances the split state `done + [current]` to the packing after one more cell |
| AriaGrid.PackRows | reference.js:688-700 | the packing loop with its callback bound to the grid, as evidently intended, yields exactly `Repacked(cells, gridWidth)`; the loop as written is `PackRowsAsWritten` |
| AriaGrid.PackRowsAsWritten | reference.js:688-700 | the packing loop as written yields `PackAsWritten`: the single row when no new row is opened, and the throw otherwise |
| AriaGrid.CaretLayout | reference.js:288-343 | the arrow, Home and End target depends only on the layout, not on the tab stop |
| AriaGrid.Grid.constructor | reference.js:54-86 | for a grid whose first cell exists and is visible, the grid is built with `setupFocusGrid` (and indices when paginated) and the focus and tab stop are at (0,0). `perPage` is the attribute or the row count, the first page is shown, and the debounce flag is clear |
| AriaGrid.Grid.Setup | reference.js:76-83 | the constructor's calls in order: the grid is `setupFocusGrid`'s with the tab stop at (0,0), then the first page is shown |
| AriaGrid.Grid.InitFocus | reference.js:77-78 | the matrix is `setupFocusGrid`'s, and the tab stop is at (0,0) |
| AriaGrid.Grid.StartPaging | reference.js:79-83 | a paginated grid takes `perPage` from the attribute and shows its first page. Otherwise `perPage` is the number of rows and the rows keep their `hidden` classes |
| AriaGrid.Grid.SetupPagination | reference.js:569-573 | perPage comes from the attribute and the first page is shown from row 0 |
| AriaGrid.Grid.SetupFocusGrid | reference.js:92-126 | the matrix becomes `FocusMatrix` of the DOM, indexed when paginated |
| AriaGrid.Grid.SetupIndices | reference.js:551-562 | the matrix becomes `WithIndices` of the old one |
| AriaGrid.Grid.SetFocusPointer | reference.js:138-165 | an invalid or hidden target returns false and changes nothing. Otherwise the tab stop moves, the pointer is set, and navigation is disabled iff the target is an input. The single tab stop is kept |
| AriaGrid.Grid.FocusCell | reference.js:260-264 | succeeds exactly when `setFocusPointer` does, with the same state change |
| AriaGrid.Grid.FindCell | reference.js:364-374 | the nested search loops find `FindNode`: the first matching cell in row-major order |
| AriaGrid.Grid.FindFocusedItem | reference.js:357-375 | the pointer becomes `FocusAfterFind`; the tab stop moves with it, and the layout is unchanged |
| AriaGrid.Grid.FocusClickedCell | reference.js:383-400 | a visible clicked cell gets the pointer and, unless it is a menu button, the focus; otherwise nothing changes |
| AriaGrid.Grid.GetNextVisibleCell | reference.js:798-823 | the loop's result is `NextVisible` from the focused cell, and `None` without a focus |
| AriaGrid.ScanVisible | reference.js:810-823 | the `while (hidden)` loop from a start cell returns exactly the fuel-bounded scan `ScanWithin`: the first visible cell reached, or `None` when a step does not move or the steps run out |
| AriaGrid.Grid.ShowFromRow | reference.js:621-652 | out of range nothing changes and no callback is made. Otherwise the rows shown are `PageWindow`, `topIndex` is the first shown row, and the callback gets (first, last) |
| AriaGrid.Grid.ScrollToRow | reference.js:337-345 | the page after the call is `ScrolledTo` the row: a row above the page starts the new `perPage` window, a row below it ends the new window, and otherwise the page and `topIndex` are unchanged; the target row ends up shown |
| AriaGrid.Grid.NavigationCaret | reference.js:297-340 | the arrow, Home or End target is `Caret` of the focused cell, with Ctrl+Home/End going to the first/last row |
| AriaGrid.Grid.GoToCaret | reference.js:337-348 | a focusable target gets the focus and otherwise the focus and grid are unchanged; under pagination the page is `ScrolledTo` the target row, without pagination the page is unchanged |
| AriaGrid.Grid.CheckFocusChange | reference.js:288-349 | the key is handled iff navigation is enabled and it is an arrow, Home or End. While navigation is disabled nothing changes. Otherwise the pointer is re-synchronised with the target, then moves to the caret when it is focusable. Under pagination the page is `ScrolledTo` the caret's row; for an unhandled key or no caret the page and `topIndex` are unchanged |
| AriaGrid.Grid.MoveCaret | reference.js:297-348 | from a re-synchronised pointer, the focus moves to the `Caret` target when that cell is focusable and otherwise stays; the layout is kept. Under pagination the page is `ScrolledTo` the target row; with no target, or without pagination, the page and `topIndex` are unchanged |
| AriaGrid.Grid.MovePageUp | reference.js:601-605 | shows the page ending at max(perPage-1, top-1) and moves the focus to that row in the same column when that cell is focusable |
| AriaGrid.Grid.MovePageDown | reference.js:607-611 | shows the page starting at top+perPage and moves the focus to that row in the same column when that cell is focusable |
| AriaGrid.Grid.CheckPageChange | reference.js:585-599 | only Page Up and Page Down are handled. Each leaves exactly the page and focus state of `movePageUp` or `movePageDown`: the page starting (or ending) at the new start, and the focus on that row in the same column when that cell is visible. Other keys change nothing |
| AriaGrid.Grid.CheckRestructureGrid | reference.js:658-666 | a restructure is scheduled iff none is pending, so at most one is pending at a time |
| AriaGrid.Grid.RebuildGrid | reference.js:672-705 | with the packing callback bound as evidently intended, the matrix becomes the re-packed cells, and the pointer moves to the same flat index, which is the same element |
| AriaGrid.Grid.AdoptPacking | reference.js:702-705 | the matrix becomes the packed rows (filled, non-empty) and the pointer moves to the same flat index, which addresses the same element |
| AriaGrid.Grid.MoveFocusByIndex | reference.js:704-705 | the pointer moves to row = k / w', col = k % w' of the old flat index k, and addresses the same element |
| AriaGrid.Grid.RestructureGrid | reference.js:672-710 | the evidently intended `restructureGrid`, with the packing callback bound: the matrix is re-packed in document order and the pointer follows its element. The browser focus is restored iff it was on the tab stop, and the debounce flag is cleared |
| AriaGrid.Grid.RestructureGridAsWritten | reference.js:672-705 | `restructureGrid` as written: the debounce flag is cleared; when the cells need more than one row the callback throws, so the matrix and the pointer keep their old values and nothing is re-focused; with one row the result is that of `RestructureGrid` |
| AriaGrid.Grid.FocusPointer | reference.js:707-709 | re-focusing the pointer changes no state and succeeds iff the pointer is set and visible |
| AriaGrid.Grid.SetColumnHidden | reference.js:834-843 | the loop's result is `ToggledColumn` |
| AriaGrid.Grid.ToggleColumn | reference.js:833-852 | only the column's hidden flags change. Hiding the focused column moves the focus rightwards to `NextVisible` when one exists, and leaves it otherwise |
| AriaGrid.Grid.ToggleEditMode | reference.js:459-478 | the edit button and input swap: the one switched on takes the other's text, becomes visible and the tab stop, and replaces the focused slot. Navigation is disabled iff the input is on |
| AriaGrid.Grid.HandleSort | reference.js:491-525 | the data rows are sorted by `SortedGrid` in the `NextSort` direction; the activated header gets it and every other header "none" |
| BlockParser.WordEnd | libs/wikitext/src/parsers/block.rs:187-211 | the word `until_empty_space` takes has at least one character, holds no break beyond its first, and stops at a break |
| BlockParser.IsUrlPrefixes | libs/wikitext/src/parsers/block.rs:104 | a word is a URL exactly when it starts with "http://" or "https://" |
| BlockParser.IndentToken | libs/wikitext/src/parsers/block.rs:40-55 | a tab run gives IndentationLevel(n) with n >= 1, consuming the n tabs |
| BlockParser.UntilEmptySpace | libs/wikitext/src/parsers/block.rs:187-211 | the loop returns the leading word and its length minus one as the step count |
| BlockParser.ParseText | libs/wikitext/src/parsers/block.rs:102-119 | the loop's result is the word's Text or HyperLink token |
| BlockParser.ParseIndentation | libs/wikitext/src/parsers/block.rs:40-55 | the loop's result is `IndentToken` |
| BlockParser.ParseLink | libs/wikitext/src/parsers/block.rs:57-81 | the loop's result is the PageLink or "[" token of the slice |
| BlockParser.SkipMarker | libs/wikitext/src/parsers/block.rs:18-32 | the index reached skips the marker and the blanks after it |
| BlockParser.ParseHeading | libs/wikitext/src/parsers/block.rs:17-34 | a heading takes the whole line, and its children are the parse of the rest |
| BlockParser.ParseQuote | libs/wikitext/src/parsers/block.rs:82-100 | a quote takes the whole line, and its children are the parse of the rest |
| BlockParser.ParseAt | libs/wikitext/src/parsers/block.rs:129-173 | the parser picked for a position is the one `Dispatch` names for its character |
| BlockParser.IterateSlice | libs/wikitext/src/parsers/block.rs:126-178 | the loop, which consumes at least one character per turn, yields exactly `Parse(input)` |
| BlockParser.ParseFromStep | libs/wikitext/src/parsers/block.rs:158-175 | a scan step emits the dispatched element and continues after the consumed characters |
| BlockParser.LaterFlat | libs/wikitext/src/parsers/block.rs:129-156 | past index 0 only PageLink, EmptySpace, Text and HyperLink elements occur |
| BlockParser.HeadingOnlyAtStart | libs/wikitext/src/parsers/block.rs:130-137 | the first element is a heading iff the line starts with '#', and no later element is one |
| BlockParser.FirstHeading | libs/wikitext/src/parsers/block.rs:131-138 | the first step yields a heading iff the line starts with '#' |
| BlockParser.MarkerLine | libs/wikitext/src/parsers/block.rs:17-100 | a line starting with '#' or '>' is one Heading or Quote whose children are the parse of the rest after the marker and its blanks |
| BlockParser.MarkerDispatch | libs/wikitext/src/parsers/block.rs:17-34 | the marker's parser consumes the whole line |
| BlockParser.TextAt | libs/wikitext/src/parsers/block.rs:102-119 | a word ended by a break is one Text element |
| BlockParser.TextDispatch | libs/wikitext/src/parsers/block.rs:102-119 | a word dispatches to `parse_text`, which returns its Text |
| BlockParser.WordToken | libs/wikitext/src/parsers/block.rs:102-119 | `parse_text` on a leading plain word is Text(word) |
| BlockParser.SpaceAt | libs/wikitext/src/parsers/block.rs:36-38 | a space is one EmptySpace(" ") element |
| BlockParser.SpacedAt | libs/wikitext/src/parsers/block.rs:126-178 | words joined by single spaces give alternating Text and EmptySpace elements |
| BlockParser.WordsAlternate | libs/wikitext/src/parsers/block.rs:36-119 | a line of words and single spaces parses to alternating Text and EmptySpace(" ") elements |
| BlockParser.PageLinkAt | libs/wikitext/src/parsers/block.rs:57-81 | "[[x]]" is one PageLink(x), with any '\|' kept, and the whole link is consumed |
| BlockParser.LinkTokenOf | libs/wikitext/src/parsers/block.rs:57-78 | `parse_link` on "[[x]]..." returns PageLink(x) and consumes the link |
| BlockParser.LoneBracketAt | libs/wikitext/src/parsers/block.rs:79-80 | a '[' not followed by '[' is the one-character Text "[" |
| BlockParser.OpenParenAt | libs/wikitext/src/parsers/block.rs:114-115 | a word starting with '(' yields only Text "(" |
| BlockParser.HyperLinkCloseAt | libs/wikitext/src/parsers/block.rs:105-109 | a URL ending in ')' or ']' is a HyperLink without it, and the bracket is left for the next step |
| BlockParser.UrlCloseDispatch | libs/wikitext/src/parsers/block.rs:105-109 | the same, as a single dispatch |
| BlockParser.PlainDispatch | libs/wikitext/src/parsers/block.rs:155 | a character with no parser of its own goes to `parse_text` |
| BlockParser.UrlToken | libs/wikitext/src/parsers/block.rs:104-112 | `parse_text` on a URL word is a HyperLink, with a trailing ')' or ']' split off |
| BlockParser.HyperLinkAt | libs/wikitext/src/parsers/block.rs:111 | a URL not ending in ')' or ']' is one HyperLink of the whole word |
| BlockParser.UrlDispatch | libs/wikitext/src/parsers/block.rs:111 | the same, as a single dispatch |
| BlockParser.LeadingTabs | libs/wikitext/src/parsers/block.rs:40-55 | n leading tabs give IndentationLevel(n) followed by the parse of the rest |
| BlockParser.IndentedWords | libs/wikitext/src/parsers/block.rs:40-55 | n tabs and spaced words give IndentationLevel(n), then alternating Text and EmptySpace |
| BlockParser.HeadingOfWords | libs/wikitext/src/parsers/block.rs:17-34 | "#" and spaced words are one Heading holding those words |
| BlockParser.QuoteOfWords | libs/wikitext/src/parsers/block.rs:82-100 | "> " and spaced words are one Quote holding those words |
| BlockParser.WordThenLink | libs/wikitext/src/parsers/block.rs:324-340 | a word, a space and "[[x]]" give Text, EmptySpace and PageLink(x) with x verbatim |
| BlockParser.WrappedUrl | libs/wikitext/src/parsers/block.rs:102-119 | a URL wrapped in "(...)" or "[...]" gives the opener's Text, the HyperLink and the closer's Text |
| BlockParser.ParenthesisedLink | libs/wikitext/src/parsers/block.rs:283-294 | "([[x]])" gives Text "(", PageLink(x), Text ")" |
| BlockParser.HeadingExample | libs/wikitext/src/parsers/block.rs:234-245 | "#hello world" is one Heading of Text "hello", EmptySpace, Text "world" |
| BlockParser.MidLineHashExample | libs/wikitext/src/parsers/block.rs:247-254 | "testing #again" gives 3 elements, the first Text "testing", and no heading |
| BlockParser.PageLinkExample | libs/wikitext/src/parsers/block.rs:332-340 | "parsing [[another link\|some page]]" ends with PageLink("another link\|some page") |
| BlockParser.ParenLinkExample | libs/wikitext/src/parsers/block.rs:283-294 | "([[testing again]])" gives Text "(", PageLink, Text ")" |
| BlockParser.WrappedPair | libs/wikitext/src/parsers/block.rs:296-321 | a URL in matching parentheses or brackets gives opener, HyperLink, closer |
| BlockParser.ParenUrlExample | libs/wikitext/src/parsers/block.rs:309-321 | "(https://example.com)" gives Text "(", HyperLink, Text ")" |
| BlockParser.BracketUrlExample | libs/wikitext/src/parsers/block.rs:296-308 | "[https://example.com]" gives Text "[", HyperLink, Text "]" |
| BlockParser.QuoteExample | libs/wikitext/src/parsers/block.rs:398-423 | "> testing examples" is one Quote of Text, EmptySpace, Text |
| BlockParser.IndentationExample | libs/wikitext/src/parsers/block.rs:425-441 | "\t\ttesting examples" gives IndentationLevel(2), Text "testing", EmptySpace, Text "examples" |
| Formatters.Encode | libs/wikitext/src/parsers/formatters.rs:88-90 | percent-encoding (RFC 3986, section 2.1) never shortens its input |
| Formatters.EncodeSafe | libs/wikitext/src/parsers/formatters.rs:88-90 | only unreserved characters and "%XX" escapes come out, so in particular no space does |
| Formatters.EncodeAppend | libs/wikitext/src/parsers/formatters.rs:88-90 | encoding works character by character: it distributes over concatenation |
| Formatters.EncodeUnreserved | libs/wikitext/src/parsers/formatters.rs:88-90 | a string of unreserved characters encodes to itself |
| Formatters.EncodeSpace | libs/wikitext/src/parsers/formatters.rs:90 | a space encodes to "%20" |
| Formatters.EncodeWordSpace | libs/wikitext/src/parsers/formatters.rs:90 | an unreserved word stays and the space after it becomes "%20" |
| Formatters.SchemeOf | libs/wikitext/src/parsers/formatters.rs:84-85 | the piece before the first ':' is the scheme name exactly when the link has that scheme |
| Formatters.FormatLinks | libs/wikitext/src/parsers/formatters.rs:83-92 | http and https links are kept; "files:x" gives "/files/" + encode(x); anything else gives "/" + encode(link) |
| Formatters.FormatLinksHttpsExample | libs/wikitext/src/parsers/formatters.rs:155-157 | "https://example.com" is kept |
| Formatters.EncodePageExample | libs/wikitext/src/parsers/formatters.rs:158-159 | "My Cool Page" encodes to "My%20Cool%20Page" |
| Formatters.FormatLinksPageExample | libs/wikitext/src/parsers/formatters.rs:158-159 | "My Cool Page" becomes "/My%20Cool%20Page" |
| Formatters.TransformAudioUrl | libs/wikitext/src/parsers/formatters.rs:79-81 | the link is wrapped in an `<audio src="…" controls></audio>` element |
| Formatters.CsSrc | libs/wikitext/src/parsers/formatters.rs:101-104 | a CodeSandbox link without ".io/s" is kept |
| Formatters.CodesandboxEmbed | libs/wikitext/src/parsers/formatters.rs:101-104 | a CodeSandbox link with exactly one ".io/s" has it replaced by ".io/embed" and is otherwise kept |
| Formatters.CodesandboxExample | libs/wikitext/src/parsers/formatters.rs:101-104 | "https://codesandbox.io/s/new" becomes "https://codesandbox.io/embed/new" |
| Formatters.CpSrc | libs/wikitext/src/parsers/formatters.rs:106-112 | a CodePen link already in "/embed/" form is kept |
| Formatters.CodepenEmbed | libs/wikitext/src/parsers/formatters.rs:106-110 | a CodePen link with exactly one "/pen/" and no "/embed/" has that "/pen/" replaced by "/embed/" |
| Formatters.SpotifySrc | libs/wikitext/src/parsers/formatters.rs:114-120 | a Spotify link already in ".com/embed" form is kept |
| Formatters.SpotifyTrack | libs/wikitext/src/parsers/formatters.rs:114-118 | a link with exactly one ".com/track" and no ".com/embed" has it replaced by ".com/embed/track" |
| Formatters.SpotifyExample | libs/wikitext/src/parsers/formatters.rs:176-182 | the test's track link becomes its embed link |
| Formatters.VimeoSrc | libs/wikitext/src/parsers/formatters.rs:143-149 | a link already on player.vimeo.com is kept |
| Formatters.VimeoPlayer | libs/wikitext/src/parsers/formatters.rs:143-147 | a link with exactly one "vimeo.com" and no "player.vimeo.com" has it replaced by "player.vimeo.com/video" |
| Formatters.VimeoExample | libs/wikitext/src/parsers/formatters.rs:170-174 | the test's link becomes "https://player.vimeo.com/video/665036978#t=20s" |
| Formatters.YoutubeSrc | libs/wikitext/src/parsers/formatters.rs:122-137 | a link that is neither a watch link nor an un-embedded ".be" link is kept |
| Formatters.YoutubeWatch | libs/wikitext/src/parsers/formatters.rs:123-130 | in a link with exactly one "watch?v=", that becomes "embed/", and the first '&' (the one after the id) becomes '?' |
| Formatters.YoutubeWatchPlain | libs/wikitext/src/parsers/formatters.rs:123-129 | in a link with exactly one "watch?v=" and no '&', only "watch?v=" is rewritten, to "embed/" |
| Formatters.YoutubeShort | libs/wikitext/src/parsers/formatters.rs:132-135 | a link with exactly one ".be/", no "watch?v=" and no "embed" has it replaced by "be.com/embed/" |
| Formatters.NoEmbedInShort | libs/wikitext/src/parsers/formatters.rs:132 | a short link with one 'e' contains no "embed", so the short-link branch applies |
| Formatters.YoutubeExample | libs/wikitext/src/parsers/formatters.rs:162-167 | "https://youtube.com/watch?v=giEnkiRHJ9Y" becomes ".../embed/giEnkiRHJ9Y" |
| Formatters.YoutubeWwwExample | libs/wikitext/src/parsers/formatters.rs:122-130 | "https://www.youtube.com/watch?v=giEnkiRHJ9Y" becomes ".../embed/giEnkiRHJ9Y" |
| Formatters.NoEmbeds | libs/wikitext/src/parsers/formatters.rs:47-68 | a link with no embeddable host or audio suffix gets no embed |
| Formatters.CollapseTo | libs/wikitext/src/parsers/formatters.rs:8-72 | `collapse_to` only appends: the result is the old target followed by the element's HTML |
| Formatters.CollapseChildren | libs/wikitext/src/parsers/formatters.rs:12-41 | the child loop appends the children's HTML, in order |
| Formatters.RenderAllAppend | libs/wikitext/src/parsers/formatters.rs:12-14 | the HTML of two runs of children is the concatenation of theirs |
| Formatters.RenderAllLast | libs/wikitext/src/parsers/formatters.rs:12-14 | the last child is rendered after all the others |
| Formatters.RenderAllSnoc | libs/wikitext/src/parsers/formatters.rs:12-14 | rendering children one at a time, left to right, builds the whole |
| Formatters.PageLinkRender | libs/wikitext/src/parsers/formatters.rs:17-27 | PageLink "a\|b" renders `<a href="format_links(b)">a</a>` |
| Formatters.PlainPageLinkRender | libs/wikitext/src/parsers/formatters.rs:27-35 | without '\|' the whole content is both the text and the target |
| Formatters.HyperLinkRender | libs/wikitext/src/parsers/formatters.rs:47-70 | a HyperLink's output is its embeds, in order, followed by `<a href="u">u</a>` |
| Formatters.PlainHyperLink | libs/wikitext/src/parsers/formatters.rs:69 | with nothing to embed, it is just the anchor |
| Formatters.WrapperRender | libs/wikitext/src/parsers/formatters.rs:10-43 | Heading and Quote wrap their children's HTML, in order, in `<h2>` and `<blockquote>` |
| WikiHtml.Decimal | libs/wikitext/src/parsers/html.rs:20-25 | the data-indent number is written as a non-empty run of decimal digits, one digit exactly below 10 |
| WikiHtml.DecimalRoundTrip | libs/wikitext/src/parsers/html.rs:20-25 | the written data-indent reads back as the level, with no leading zero |
| WikiHtml.DivShape | libs/wikitext/src/parsers/html.rs:20-25 | a closed block opens with its data-indent attribute and ends with its text and `</div>` |
| WikiHtml.Block.constructor | libs/wikitext/src/parsers/html.rs:14-19 | a new block has level 0 and empty text |
| WikiHtml.Block.Close | libs/wikitext/src/parsers/html.rs:20-25 | `close` is the text-block div of the block's level and text |
| WikiHtml.Block.UpdateIndentation | libs/wikitext/src/parsers/html.rs:26-28 | the level becomes the given one |
| WikiHtml.Blocks | libs/wikitext/src/parsers/html.rs:35-38 | there is one block per line, and it is that line's parse |
| WikiHtml.Divs | libs/wikitext/src/parsers/html.rs:39-67 | there are at most as many divs as blocks |
| WikiHtml.DivsStep | libs/wikitext/src/parsers/html.rs:39-67 | each further block adds its div only when it is not empty |
| WikiHtml.BlockDiv | libs/wikitext/src/parsers/html.rs:41-65 | an empty block gives no div. Any other block gives its div, and its link targets are pushed onto the outlinks, in order |
| WikiHtml.Absorb | libs/wikitext/src/parsers/html.rs:46-61 | one pass over an element: a page link's target is pushed, an indentation level replaces the block's level, and the element's rendering is appended to the block's text |
| WikiHtml.ToHtml | libs/wikitext/src/parsers/html.rs:31-74 | the body is the concatenated divs of the non-empty lines, and the outlinks are every page-link target in document order |
| WikiHtml.OutlinksStep | libs/wikitext/src/parsers/html.rs:46-55 | each block adds its link targets after those of earlier blocks |
| WikiHtml.OutlinksAppend | libs/wikitext/src/parsers/html.rs:46-55 | outlinks gather block by block, in line order |
| WikiHtml.EmptyLineNoBlock | libs/wikitext/src/parsers/html.rs:42-44 | a line parses to no element iff it is empty |
| WikiHtml.NonEmpty | libs/wikitext/src/parsers/html.rs:42-44 | the kept lines are non-empty, and there are no more of them than lines |
| WikiHtml.OneDivPerLine | libs/wikitext/src/parsers/html.rs:35-67 | there is exactly one div per non-empty line |
| WikiHtml.IndentOfLine | libs/wikitext/src/parsers/html.rs:56-58 | data-indent is the first element's IndentationLevel, and 0 when that is not one |
| WikiHtml.LineIndent | libs/wikitext/src/parsers/html.rs:56-58 | n leading tabs give data-indent n, and a line not starting with a tab gives 0 |
| WikiHtml.HeadingLinksNotCollected | libs/wikitext/src/parsers/html.rs:46-55 | the page links inside a heading or quote line do not reach the outlinks |
| WikiHtml.OneLinkPage | libs/wikitext/src/parsers/html.rs:41-65 | a single page-link block gives one outlink (its target) and one div of level 0 |
| WikiHtml.LinkPage | libs/wikitext/src/parsers/html.rs:31-74 | the page "[[x]]" gives outlinks [x] and one div around the anchor to `format_links(x)` |
| WikiHtml.TwoWordPage | libs/wikitext/src/parsers/html.rs:31-74 | a link to a two-word page has the blank encoded as "%20" in its href |
| WikiHtml.SomePageExample | libs/wikitext/src/parsers/html.rs:80-88 | "[[Some Page]]" gives outlinks ["Some Page"] and the div linking "/Some%20Page" |
| Headers.HeaderParserMachine.constructor | libs/wikitext/src/parsers/headers.rs:105-109 | a new machine is in `Parsing` |
| Headers.HeaderParserMachine.Send | libs/wikitext/src/parsers/headers.rs:111-113 | the state becomes the one sent |
| Headers.ParseMeta | libs/wikitext/src/parsers/headers.rs:186-218 | the loop computes `Run` from `Parsing` on an empty note, including the abort at the assert |
| Headers.FirstBlank | libs/wikitext/src/parsers/headers.rs:190-193 | the index of the first empty line (or the line count): all earlier lines are non-empty |
| Headers.FirstBlankAt | libs/wikitext/src/parsers/headers.rs:190-193 | an empty line with no empty line before it is the first blank |
| Headers.NonEmptyLines | libs/wikitext/src/parsers/headers.rs:189-195 | only non-empty lines are kept |
| Headers.NonEmptyKeep | libs/wikitext/src/parsers/headers.rs:189-195 | lines that are all non-empty are all kept |
| Headers.InsertLast | libs/wikitext/src/parsers/headers.rs:205 | a repeated key overwrites: the last header line wins |
| Headers.EndPhase | libs/wikitext/src/parsers/headers.rs:207-213 | after End, the non-empty lines are appended to the content, joined by '\n' with no leading separator |
| Headers.ParsingPhase | libs/wikitext/src/parsers/headers.rs:197-206 | while Parsing, each line up to the first empty one must split on ": " (else the assert aborts) and is inserted |
| Headers.ParseMetaShape | libs/wikitext/src/parsers/headers.rs:186-218 | `parse_meta` gives the header of the lines before the first empty line, and the content of the later non-empty lines joined with '\n'; it aborts if a header line lacks ": " |
| Headers.HeaderTextSnoc | libs/wikitext/src/parsers/headers.rs:174-179 | each visited key appends "key: value\n" |
| Headers.NoteToString | libs/wikitext/src/parsers/headers.rs:171-184 | the loop visits every key once, in some order, and writes its entries, a blank line, then the content |
| Headers.EntryLines | libs/wikitext/src/parsers/headers.rs:174-179 | there is one "key: value" line per key, in visiting order |
| Headers.EntryParts | libs/wikitext/src/parsers/headers.rs:198-205 | a "key: value" line whose key has no ": " splits back into that key and value |
| Headers.HeaderTextJoin | libs/wikitext/src/parsers/headers.rs:173-182 | the written header is the entry lines joined by '\n' |
| Headers.EntryChars | libs/wikitext/src/parsers/headers.rs:175-178 | an entry holds no character that its key and value lack, besides ':' and ' ' |
| Headers.SerializedJoin | libs/wikitext/src/parsers/headers.rs:171-184 | the written text is the entry lines, an empty line and the content's lines, joined by '\n' |
| Headers.EntryLinesFree | libs/wikitext/src/parsers/headers.rs:174-179 | entry lines of a writable note hold no line break |
| Headers.LinesOfWritten | libs/wikitext/src/parsers/headers.rs:166 | `lines` of the written text gives back the entry lines, the empty line and the content's lines |
| Headers.LinesOfContent | libs/wikitext/src/parsers/headers.rs:166 | the same, for non-empty content |
| Headers.WrittenLinesRead | libs/wikitext/src/parsers/headers.rs:164-184 | `lines` of the written note is exactly the lines that were written |
| Headers.InsertEntries | libs/wikitext/src/parsers/headers.rs:205 | inserting the entry lines gives each listed key its value and keeps the other keys |
| Headers.ParseWritten | libs/wikitext/src/parsers/headers.rs:186-218 | the written lines parse back to the note |
| Headers.RoundTrip | libs/wikitext/src/parsers/headers.rs:164-218 | writing a note and parsing it back gives the same header and content, when no key holds ": ", no key or value holds a line break, and the content has no '\r', no blank line and no trailing newline |
| Headers.Description | libs/wikitext/src/parsers/headers.rs:65-76 | content under 100 characters is kept. Longer non-html content becomes its first 80 characters plus "...". Longer html content becomes the title |
| Headers.ToTemplate | libs/wikitext/src/parsers/headers.rs:45-88 | title and tags are removed from the shown metadata and the rest is kept. html content is the body with no outlinks; other content goes through `to_html` |
| Headers.ToPatch | libs/wikitext/src/parsers/headers.rs:133-150 | old_title equals title, the whole header is the metadata, the body is the content, and the tags are `TagsArray::new` of the tags line |
| Headers.PatchTags | libs/wikitext/src/parsers/headers.rs:136-144 | tags written by `TagsArray::write` come back unchanged in the edit |
| LinkMachine.CloseLink | libs/markdown/src/parsers/machine.rs:178-207 | a link that closes returns to Accept with the location cleared and exactly one target appended to the outlinks |
| LinkMachine.Aliases | libs/markdown/src/parsers/machine.rs:184-192 | a location holding a '\|' splits on it into at least two pieces |
| LinkMachine.Link | libs/markdown/src/parsers/machine.rs:197-206 | emits `<a href="format_links(loc)">text</a>`, pushes loc, clears the location and returns to Accept. It fails only on the bare "files" that `format_links` cannot unwrap |
| LinkMachine.Send | libs/markdown/src/parsers/machine.rs:28-340 | only two transitions touch the context: location text received while parsing a location, and the second ']' that closes a link; every other successful transition leaves link_location and outlinks as they were |
| LinkMachine.SendFails | libs/markdown/src/parsers/machine.rs:28-340 | `send` aborts exactly on the table's `panic!` pairs and when closing a link fails |
| LinkMachine.SendOutlinks | libs/markdown/src/parsers/machine.rs:28-340 | a transition keeps the outlinks recorded so far as a prefix |
| LinkMachine.LocationAppends | libs/markdown/src/parsers/machine.rs:133-144 | LocationParsing(t) received while in LocationParsing appends t to link_location and emits empty text |
| LinkMachine.StrayLinkEnd | libs/markdown/src/parsers/machine.rs:158-164 | LinkEnd while in Accept emits Text("]") and stays in Accept |
| LinkMachine.AliasedLink | libs/markdown/src/parsers/machine.rs:183-206 | "text\|loc" gives the anchor to `format_links(loc)` showing text, records loc and returns to Accept |
| LinkMachine.PlainLink | libs/markdown/src/parsers/machine.rs:193-206 | a location without '\|' is both the text and the target |
| LinkMachine.MalformedLink | libs/markdown/src/parsers/machine.rs:185-190 | a location with two '\|' aborts |
| LinkMachine.Run | libs/markdown/src/parsers/machine.rs:399-406 | a successful run gives one (state, event) pair per message |
| LinkMachine.OutlinksGrow | libs/markdown/src/parsers/machine.rs:199 | over any run, outlinks are only appended to |
| LinkMachine.ValidTransitions | libs/markdown/src/parsers/machine.rs:366-407 | from Accept, the messages LinkStart, LinkStart, LocationParsing("Testing!"), LinkEnd, Accept give the states LinkStart, LocationParsing(""), LocationParsing("Testing!"), LinkEnd, Accept, each with empty text |
| LinkMachine.ValidTranscludeTransitions | libs/markdown/src/parsers/machine.rs:409-464 | the transclusion test's eight steps give the expected states with empty text |
| LinkMachine.InvalidTransitions | libs/markdown/src/parsers/machine.rs:466-514 | LinkStart in the middle of a location aborts, as the invalid-sequence test expects |
| LinkMachine.WholeLink | libs/markdown/src/parsers/machine.rs:178-207 | "[[t]]" ends in Accept with outlinks [t] and emits the anchor for t |
| LinkMachine.LinkTail | libs/markdown/src/parsers/machine.rs:178-207 | the closing "]]" of a location emits the anchor and records the target |
| Tokenizer.PunctToSpace | libs/search-engine/src/tokenizer.rs:25 | every ASCII punctuation character becomes a space and nothing else changes |
| Tokenizer.Normalize | libs/search-engine/src/tokenizer.rs:28-31 | a mapped word has no '\n' and no upper-case letter |
| Tokenizer.Tokens | libs/search-engine/src/tokenizer.rs:26-33 | map and filter yield at most one token per word |
| Tokenizer.TokensKeep | libs/search-engine/src/tokenizer.rs:32 | only words that pass the filter are kept |
| Tokenizer.TokenizeKeep | libs/search-engine/src/tokenizer.rs:24-34 | no token is a stop word, empty, or longer than 80 bytes |
| Tokenizer.TokensAppend | libs/search-engine/src/tokenizer.rs:26-33 | words are handled one by one, so order is kept and duplicates stay |
| Tokenizer.NormalizeChars | libs/search-engine/src/tokenizer.rs:29-30 | normalising brings in no character other than lower-case letters |
| Tokenizer.TokensChars | libs/search-engine/src/tokenizer.rs:28-32 | a character absent from every word, other than a lower-case letter, is absent from every token |
| Tokenizer.TokenChars | libs/search-engine/src/tokenizer.rs:24-34 | no token holds a blank, a newline, punctuation or an upper-case letter |
| Tokenizer.TokenNormalized | libs/search-engine/src/tokenizer.rs:28-33 | every token is the normal form of some word of the input |
| Tokenizer.TokenizeSep | libs/search-engine/src/tokenizer.rs:25-27 | a blank or punctuation character separates: the text on either side tokenizes independently |
| Tokenizer.DuplicatesKept | libs/search-engine/src/tokenizer.rs:24-34 | a repeated word is kept once per occurrence |
| Tokenizer.TokenizeWord | libs/search-engine/src/tokenizer.rs:24-34 | a single word gives its normal form, unless the filter drops it |
| Tokenizer.TokenizeEmpty | libs/search-engine/src/tokenizer.rs:32 | the empty text has no tokens |
| Tokenizer.KeptWord | libs/search-engine/src/tokenizer.rs:32 | a lower-case word that is not a stop word is its own single token |
| Tokenizer.DroppedWord | libs/search-engine/src/tokenizer.rs:5-32 | a word whose lower-case form is a stop word gives no token |
| Tokenizer.SepFront | libs/search-engine/src/tokenizer.rs:25-32 | a leading separator adds nothing |
| Tokenizer.StopWordsShort | libs/search-engine/src/tokenizer.rs:5-10 | no stop word is longer than five characters |
| Tokenizer.LinkShape | libs/search-engine/src/tokenizer.rs:58-64 | in "[[a\|b://c.d/e.f]]" the brackets, '\|', "://", '.' and '/' all separate words |
| Tokenizer.LinkExample | libs/search-engine/src/tokenizer.rs:58-64 | "[[link\|https://teukka.tech/luanvim.html]]" gives ["link","teukka","tech","luanvim","html"] |
| Tokenizer.FirstSentence | libs/search-engine/src/tokenizer.rs:40-56 | the first sentence of the test drops its stop word and keeps the rest in order |
| Tokenizer.SecondSentence | libs/search-engine/src/tokenizer.rs:40-56 | the second sentence keeps exactly its non-stop words, in order |
| Tokenizer.SentenceExample | libs/search-engine/src/tokenizer.rs:40-56 | the test sentence gives ["tested","tokenized","string","could","represent","note","bookmark","idea"] |
| Tags.BracketTags | libs/wikitext/src/processors/tags.rs:13-17 | the bracketed form yields at most one tag per comma-separated piece |
| Tags.BracketTagsTrimmed | libs/wikitext/src/processors/tags.rs:14-15 | every tag of the bracketed form is trimmed |
| Tags.WordTags | libs/wikitext/src/processors/tags.rs:21-25 | the space-separated form keeps only non-empty pieces, each one a piece of the input |
| Tags.TagsArray.Write | libs/wikitext/src/processors/tags.rs:29-34 | `write` yields a bracketed string, which `new` accepts without aborting |
| Tags.TagsArray.Len | libs/wikitext/src/processors/tags.rs:36-38 | the length is zero exactly when there are no tags |
| Tags.TagsArray.IsEmpty | libs/wikitext/src/processors/tags.rs:40-42 | `is_empty` agrees with `len() == 0` |
| Tags.New | libs/wikitext/src/processors/tags.rs:6-28 | with a '[' every tag is trimmed; without one, every tag is non-empty and holds no blank |
| Tags.BracketTagsKeep | libs/wikitext/src/processors/tags.rs:14-15 | pieces that are non-empty, comma-free and already trimmed pass through unchanged |
| Tags.WriteRoundTrip | libs/wikitext/src/processors/tags.rs:6-34 | `new(write(v))` gives back `v` when every tag is non-empty, comma-free and trimmed |
| Tags.BracketPair | libs/wikitext/src/processors/tags.rs:7-17 | "[a,b]" reads as the two trimmed tags |
| Tags.SpacedPair | libs/wikitext/src/processors/tags.rs:7-17 | "[a, b]" reads as [a, b]: the blank after the comma is trimmed away |
| Tags.ThreeWords | libs/wikitext/src/processors/tags.rs:19-26 | three words separated by single blanks read as three tags in order |
| Tags.WikilinkTagsExample | libs/wikitext/src/processors/tags.rs:61-68 | "[reality building, Article]" reads as ["reality building", "Article"] |
| Tags.SpaceTagsExample | libs/wikitext/src/processors/tags.rs:70-77 | "Tools Article project-management" reads as three tags |
| Tags.WriteExample | libs/wikitext/src/processors/tags.rs:79-87 | "[Tools Article, project-management]" is written back as "[Tools Article,project-management]" |
| Tags.SpacedPairWrite | libs/wikitext/src/processors/tags.rs:6-34 | reading "[a, b]" and writing it drops the blank after the comma |
| Sanitize.SanitizeHtml | libs/wikitext/src/processors/mod.rs:12-25 | the loop over the five forbidden names yields the specified fold of the five rewrites over the names in order, and the result holds no "<t", "</t" or "t>" for any forbidden name t |
| Sanitize.Escaped | libs/wikitext/src/processors/mod.rs:14-23 | for every forbidden name t the sanitised text contains none of "<t", "</t" and "t>", whatever the input |
| Sanitize.FoldCleans | libs/wikitext/src/processors/mod.rs:14-23 | once a name has had its turn, its tags stay escaped through the later names' rewrites |
| Sanitize.EscapeCleans | libs/wikitext/src/processors/mod.rs:16-21 | the five rewrites for a name leave no "<t", "</t" or "t>" of that name |
| Sanitize.AbsentClean | libs/wikitext/src/processors/mod.rs:15 | when the `contains` guard skips a name, none of its tags can be present |
| Sanitize.EscapeKeepsOpen | libs/wikitext/src/processors/mod.rs:16-21 | the rewrites for any name keep every '<' followed by the names it was followed by before |
| Sanitize.EscapeKeepsClose | libs/wikitext/src/processors/mod.rs:16-21 | the rewrites for any name keep every '>' preceded by the name it was preceded by before |
| Sanitize.TaggedSanitized | libs/wikitext/src/processors/mod.rs:12-25 | text holding a bracket, all of whose brackets belong to tags of one forbidden name, comes back changed and free of '<' and '>' |
| Sanitize.SanitizesTags | libs/wikitext/src/processors/mod.rs:32-38 | for each forbidden name t, "<t>asdf</t>" comes back changed and without '<' or '>' |
| Sanitize.SanitizesBrokenOpen | libs/wikitext/src/processors/mod.rs:39-46 | for each forbidden name t, "<tasdf</t>" comes back changed and without '<' or '>' |
| Sanitize.SanitizesMissingOpen | libs/wikitext/src/processors/mod.rs:47-53 | for each forbidden name t, "t>asdf</t>" comes back changed and without '<' or '>' |
| Sanitize.NoNameUnchanged | libs/wikitext/src/processors/mod.rs:14-16 | text in which no forbidden name occurs comes back unchanged |
| Sanitize.CaseSensitive | libs/wikitext/src/processors/mod.rs:15 | names match only verbatim: "<SCRIPT>" is left as it is |
| Sanitize.EscapeChars | libs/wikitext/src/processors/mod.rs:16-21 | the five rewrites for one name bring in no character beyond those of the text, the name and the entities |
| Sanitize.FoldChars | libs/wikitext/src/processors/mod.rs:14-23 | the same holds across all names |
| Sanitize.NoNewBrackets | libs/wikitext/src/processors/mod.rs:12-25 | sanitising never introduces a '<' or a '>' |
| Sanitize.BracketFreeUnchanged | libs/wikitext/src/processors/mod.rs:16-21 | every pattern holds '<' or '>', so text without either is left alone |
| Sanitize.BracketFreeIdempotent | libs/wikitext/src/processors/mod.rs:12-25 | on text without '<' and '>' sanitising is the identity, hence idempotent |
| Sanitize.CleanStepUnchanged | libs/wikitext/src/processors/mod.rs:14-23 | a name none of whose forms "<t", "</t", "t>" occurs is left alone by its five rewrites |
| Sanitize.CleanFoldUnchanged | libs/wikitext/src/processors/mod.rs:12-25 | text holding no tag form of any of the names goes through the loop unchanged |
| Sanitize.Idempotent | libs/wikitext/src/processors/mod.rs:12-25 | sanitising already sanitised text changes nothing, for every input |
| Bookmark.Clean | libs/task-runners/src/runners/bookmark_runner.rs:86-91 | deleting the TITLE_RGX characters leaves none of them and never lengthens the title |
| Bookmark.CleanChars | libs/task-runners/src/runners/bookmark_runner.rs:87-91 | a character survives exactly when it is in the title and not one of the deleted ones |
| Bookmark.FreeClean | libs/task-runners/src/runners/bookmark_runner.rs:91 | a title without deleted characters is left as it is |
| Bookmark.CleanAppend | libs/task-runners/src/runners/bookmark_runner.rs:91 | deletion works character by character: it distributes over concatenation |
| Bookmark.NormalizeTitle | libs/task-runners/src/runners/bookmark_runner.rs:90-104 | a cleaned title of at most 60 characters is returned whole; a longer one is cut to at most 50 trimmed characters followed by "...", and only that "..." may hold a deleted character |
| Bookmark.CutSlice | libs/task-runners/src/runners/bookmark_runner.rs:95-101 | a cut title is the trimmed first fifty characters of the cleaned title, then "..." |
| Bookmark.ShortTitleKept | libs/task-runners/src/runners/bookmark_runner.rs:94-95 | a clean title of at most fifty characters is kept as it is |
| Bookmark.UncutIdempotent | libs/task-runners/src/runners/bookmark_runner.rs:90-104 | normalising a title that was not cut again changes nothing |
| Bookmark.DropOne | libs/task-runners/src/runners/bookmark_runner.rs:91-95 | one deleted character in a short title just joins its two sides |
| Bookmark.NeatThingExample | libs/task-runners/src/runners/bookmark_runner.rs:110-114 | "testing: a neat thing" becomes "testing a neat thing" |
| Bookmark.LongTitleExample | libs/task-runners/src/runners/bookmark_runner.rs:115-122 | the long test title loses its punctuation and is cut to "lots of characters A really long title Maybe with..." |
| Patch.MetaMap | libs/wikitext/src/lib.rs:51-58 | the metadata map has exactly the keys of the lines |
| Patch.MetaMapLast | libs/wikitext/src/lib.rs:51-58 | each key maps to the value of the last line that carries it |
| Patch.Metadata | libs/wikitext/src/lib.rs:48-60 | an empty metadata field gives the empty map |
| Patch.InsertPairs | libs/wikitext/src/lib.rs:51-58 | the insertion loop builds exactly the metadata map of the lines |
| Patch.FromForm | libs/wikitext/src/lib.rs:24-71 | visiting the form's keys in any order gives the patch the form specifies |
| Patch.FieldUpdate | libs/wikitext/src/lib.rs:31-62 | setting one key of the form changes at most the field that key names: title is trimmed, tags are split on ',', metadata is parsed, old_title and body are copied |
| Patch.MetaLineSplit | libs/wikitext/src/lib.rs:54-56 | a line `k:v` maps `k` to `v`, even when `v` holds further ':' |
| Patch.MetaLineBare | libs/wikitext/src/lib.rs:54-56 | a line without ':' maps to the empty value |
| Patch.UnknownKeyIgnored | libs/wikitext/src/lib.rs:61 | a key other than the five known ones leaves the patch unchanged |
| Patch.EmptyForm | libs/wikitext/src/lib.rs:26-30 | an empty form gives every field its empty default |
| Patch.TagsNotTrimmed | libs/wikitext/src/lib.rs:39-46 | tags are split on ',' and kept as they are, blanks included |
| TaskCache.FilterCacheFile | libs/task-runners/src/cache.rs:27-33 | the title is gone, and every other line is kept |
| TaskCache.PurgeExact | libs/task-runners/src/cache.rs:3-6 | purging removes exactly the lines equal to the title; every other line keeps its count |
| TaskCache.UpdateMruCache | libs/task-runners/src/cache.rs:8-20 | the current title goes in front and the old title appears nowhere after it |
| TaskCache.CurrentTitleTwice | libs/task-runners/src/cache.rs:13-14 | the cache "c\r\r\nx" updated with current title c yields [c, c, x]: the current title appears twice |
| TaskCache.UpdateAgrees | libs/task-runners/src/cache.rs:13-18 | without '\r' and empty lines in the cache, the update is the intended Mru.Update |
| TaskCache.RereadFiltered | libs/task-runners/src/cache.rs:14 | under the same condition, joining the filtered lines and reading them again gives them back |
| Mru.Without | libs/build/src/references.rs:243-249 | the entry is gone, every other entry is kept, and the list does not grow |
| Mru.WithoutAppend | libs/build/src/references.rs:246 | filtering distributes over concatenation, so survivors keep their order |
| Mru.WithoutCount | libs/build/src/references.rs:246 | exactly the matching entries are removed; every other entry keeps its count |
| Mru.WithoutAbsent | libs/build/src/references.rs:246 | filtering out an absent entry changes nothing |
| Mru.Update | libs/build/src/references.rs:194-210 | the current title is in front, neither title occurs after it, the list never grows past eight unless it already was longer, and the rest is a prefix of the list filtered of both titles, the whole of it when fewer than eight entries survive |
| Mru.UpdateFull | libs/build/src/references.rs:205-207 | once eight or more entries survive the filters, the last one is dropped |
| Mru.UpdateIdempotent | libs/build/src/references.rs:194-210 | updating twice with the same titles gives the same list |
| References.AddAll | libs/build/src/references.rs:91-111 | the keys afterwards are the old keys plus every outlink and tag |
| References.AddAllAppend | libs/build/src/references.rs:91-111 | adding under outlinks then under tags is adding under their concatenation |
| References.AddAllCount | libs/build/src/references.rs:91-111 | no deduplication: the list under a key grows by the title once per occurrence of the key |
| References.AddAllOthers | libs/build/src/references.rs:91-111 | a key named by no outlink and no tag keeps its entry exactly |
| References.Backlinks.constructor | libs/build/src/references.rs:25-29 | a new store is empty |
| References.Backlinks.Push | libs/build/src/references.rs:92-99 | the key's list gets the title appended, a new key gets the list holding only the title, and no other key changes |
| References.Backlinks.BuildGlobalStore | libs/build/src/references.rs:84-112 | the store becomes the old one with the title added under each outlink, then under each tag |
| References.UpdateMruCache | libs/build/src/references.rs:194-210 | the loop returns Mru.Update of the cache's lines |

## Left out

- Grid event plumbing is not modelled: listener registration, the keys indicator, `findClosest`, `delegateButtonHandler` and the `aria.Utils` polyfills are all DOM-only. Key events come in as a `Key` value and the event target as a cell identity.
- The 300 ms `setTimeout` of `checkRestructureGrid` is the caller's timer. Only the `waitingToRestructure` flag is modelled.
- `onPaginationChange` is a caller-supplied callback. `showFromRow` returns the pair it would receive.
- The browser's `focus()` is not modelled. Methods report whether the element would take the browser focus.
- Menu and MenuButton are left out: they only move UI focus on a blur timer.
- AriaGrid.Grid.HandleSort requires that no column key is NaN (`Sortable`), because the comparator's order for NaN is unspecified.
- AriaGrid.Grid.HandleSort requires pagination to be off, because sorting a paginated grid is unsupported.
- AriaGrid.Grid.HandleSort requires the focus to be unset or in the header row. Sorting moves rows under an unchanged focus pointer, so the single tab stop is only kept in that case.
- AriaGrid.Grid.ShowFromRow and the paging methods state hidden-ness and row counts in grid coordinates. In the source, `isHidden` indexes DOM rows and `showFromRow` counts the rows of its own selector. The model takes the two as the same rows.
- AriaGrid.Grid.RestructureGrid requires a grid in which every cell has the same width. Its flat-index focus transfer is only sound for a fully filled m by n grid; with mixed widths the new pointer can fall outside the jagged matrix.
- AriaGrid.Grid.RebuildGrid has the same requirement, for the same reason.
- AriaGrid.Grid.RestructureGrid re-packs the matrix's focusable elements, where the source re-packs every DOM cell its `CELL` selector finds (reference.js:676). The two agree when every DOM cell holds exactly one focusable element.
- AriaGrid.Grid.RestructureGrid and AriaGrid.Grid.RestructureGridAsWritten keep `pageHidden` and `topIndex` as they were. Under pagination the rebuilt rows would be new, unhidden elements, so a completed restructure (the intended one, or the one as written when a single row results) would show every row, while the model keeps the old page.
- AriaGrid.Grid.RestructureGridAsWritten does not model the DOM the throw leaves behind: the grid node already emptied and holding one partial row, and the later cells detached. The model only states that the matrix and the pointer keep their old values.
- AriaGrid.Grid.RebuildGrid, like the intended `restructureGrid`, does not call `setupIndices` again: re-packed cells keep the aria-rowindex and aria-colindex they had.
- GridModel.WithIndices numbers rows and columns in grid coordinates. `setupIndices` numbers DOM rows and DOM cells (reference.js:552-559), which differ once a DOM row or cell has no focusable element.
- GridModel.ToggleIndexedColumn relies on the same grid-coordinate numbering, so it describes `toggleColumn` only for grids whose every DOM row and cell has a focusable element.
- AriaGrid.Grid.ToggleColumn requires and keeps `FocusValid` (the pointer and the single tab stop), not the whole `Valid`.
- AriaGrid.Grid.constructor requires the first cell to exist and be visible. Otherwise `setFocusPointer(0, 0)` leaves the pointer unset, and `registerEvents` throws in `clearEvents` (reference.js:221-228) when it reads `grid[focusedRow][focusedCol]`. The model does not give the grid a state in that case.
- A non-numeric `data-per-page` attribute (perPage NaN) is excluded: perPage is at least 1.
- Text is ASCII throughout. block.rs's `unicode_offset` correction, multi-byte `truncate(80)` and `split_at(50)`, and non-ASCII lower-casing are not modelled.
- `urlencoding::encode` is modelled as percent-encoding (RFC 3986, section 2.1): unreserved characters are kept, and each UTF-8 byte of any other character becomes `%XX`.
- `filter_cache_file` of libs/build/src/references.rs:243-249 is the same function as that of libs/task-runners/src/cache.rs:27-33. Both are `TaskCache.FilterCacheFile`.
- `format_links` of libs/markdown/src/parsers/machine.rs:343-352 is the same function as that of libs/wikitext/src/parsers/formatters.rs:83-92. Both are `Formatters.FormatLinks`.
- BlockParser.Parsable excludes a line that is a single tab and every line ending in "[[". The source subtracts below zero on the single tab and on a line whose scan reaches a slice that is exactly "[[", such as "x [[". Lines such as "x[[" and "[[a[[" also end in "[[" but parse normally in the source; the model does not cover them.
- GridModel.SortKey compares keys as exact integers. The source's `parseInt` gives a double and the comparator subtracts doubles (reference.js:504-510). So digit runs above 2^53 round, and distinct keys such as 9007199254740992 and 9007199254740993 compare equal and keep their input order. Runs of more than about 309 digits become Infinity, and two Infinity keys compare equal too. The model orders all such keys exactly.
- AriaGrid.Grid.HandleSort sorts the rows of the focus matrix by matrix column `col`. The source sorts the DOM rows by the child at the header's `cellIndex` and then runs `setupFocusGrid` again. The two agree only under the grid-coordinate assumption stated for GridModel.WithIndices.
- Formatters.FormatLinks requires the link not to be the bare word "files", on which `strip_prefix("files:").unwrap()` panics. `LinkMachine.Link` models that panic as an error.
- Headers.ToTemplate requires a "title" key and a well-formed tag string, where the source would panic at `unwrap`.
- Headers.ToPatch requires "title" and "tags" keys and a well-formed tag string, for the same reason.
- Tags.New requires `WellFormed`: a string with a '[' that is not bracketed panics at the `unwrap`s.
- The iteration order of a Rust `HashMap` is unspecified. `Note` to `String` visits the keys in an order the method chooses, and `PatchData::from` visits the form's keys in any order.
- `to_structured`, `as_owned` and the `From<PatchData>` conversions for `Note` are not modelled. They are plain field copies outside the parser and writer.
- Formatters.CollapseTo and Formatters.Render write nothing for an `IndentationLevel` element. The match at libs/wikitext/src/parsers/formatters.rs:8-72 has no arm for it; the indentation reaches the HTML only as `data-indent` (libs/wikitext/src/parsers/html.rs:56-58).
- Reading and writing the note cache are file I/O. The cache's text is a parameter and the new list a result.
- The locking of the shared backlink map (`Arc<Mutex<…>>`) is left out. `References.Backlinks` holds the map as a field, updated in place.
- The async runners, the warp handlers, persistence, rendering, search indexing and ranking lie outside the core and are not part of this model.

## Findings

| source | as written | input that shows it | evidently intended | confidence | as-written member | corrected member |
|---|---|---|---|---|---|---|
| reference.js:811-819 | `getNextVisibleCell` loops while the cell is hidden and stops only when `getNextCell` returns the same cell | a jagged grid with row widths 3, 1, 3, row wrapping on, and cells (0,2) and (2,1) hidden: Up from (0,2) goes to (2,1), Up from (2,1) goes back to (0,2), and the loop never ends | give up once every cell has been tried | not executed | GridModel.JaggedScanCycles | GridModel.NextVisible |
| libs/task-runners/src/cache.rs:13-14 | the list filtered of the current title is joined with '\n' and split again with `lines` before the old title is filtered | cache text "c\r\r\nx" with current title "c": the entry "c\r" survives the first filter, becomes "c" when read again, and the result is [c, c, x] | filter both titles from the same list of lines, as libs/build/src/references.rs:199-204 does | not executed | TaskCache.CurrentTitleTwice | Mru.Update |
| reference.js:688-694 | the file is in strict mode and the `forEach` callback is not bound (unlike the callbacks at reference.js:114, 120 and 543), so its `this` is undefined and `this.gridNode.append(newRow)` throws a TypeError when a second row opens, before `setupFocusGrid` and the pointer transfer run | two cells 60 wide in a grid 100 wide: at the second cell 60 > 0 and 60 >= 100 - 60, so the new-row branch runs and throws | the callback bound to the grid, so that every cell is packed into rows of the grid width | not executed | AriaGrid.Grid.RestructureGridAsWritten | AriaGrid.Grid.RestructureGrid |
