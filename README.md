# xlnt range view, modelled in Dafny

xlnt's `range` (`xlnt/source/worksheet/range.cpp`) is a non-owning window over a
worksheet's cell grid. A range is fixed by four things:

- a rectangle, given by a top-left and a bottom-right cell reference;
- a major order: under Row order its vectors are rows, under Column order they are columns;
- a skip-null flag: when it is set, a cell vector skips coordinates that hold no cell;
- the worksheet it borrows.

This project models the range's pure geometry and its loops that write to the worksheet:

- the vector count;
- the origin of `vector(i)` and of the four edge vectors;
- containment;
- the begin/end and reverse cursors, and `front`/`back`;
- `cell(ref)`;
- equality, which ignores the skip-null flag;
- `clear_cells` with both of its branches;
- `apply` and its one-line setters;
- both `border_style` overloads;
- `column_width` and `row_height`.

Modules:

- `Geometry` (geometry.dfy): coordinates, rectangles, `length`, `vector(i)`, the edge
  vectors, `contains`, and the coordinates a vector or a whole traversal walks.
- `Iteration` (iteration.dfy): `begin`/`end`, `rbegin`/`rend`, `front`/`back` and
  `cell(ref)`, as values.
- `Cells` (cells.dfy): the cell record and the grid, a map from coordinates to cells. It
  also describes the walk of a cell vector, which skips absent cells under skip-null, and
  the grid a walk leaves behind.
- `Sheet` (worksheet.dfy): the worksheet the range borrows, as a class. Its fields are
  the cells, the column widths and the row heights. It has `clear_cell`, `clear_row`,
  metadata setters, and `lowest_column`/`highest_column`, which are computed by loops.
- `RangeView` (range.dfy): the `Range` class. Its fields are the worksheet, the
  rectangle, the order (which `column_width`/`row_height` overwrite and restore) and the
  skip-null flag. Its methods are proved against specification functions over the grid:
  `Applied`, `Removed` of the rectangle, `BorderEdited`, and `SetRun` up to `FirstEmpty`.

Every loop is modelled as a loop over the worksheet object. Each is proved to end in the
state its specification function describes. That function is then tied to what the
range promises, for example:

- every rectangle cell is written once;
- nothing outside the rectangle or the edge changes;
- the two clearing branches agree.

Assumptions about code that is not part of this model:

- `cell_vector` is not part of this model. A cell vector is taken to walk from its cursor
  to the end of its bounds along the minor axis. With skip-null it walks only coordinates
  that hold a stored cell. `empty()` means it yields no cell, and `front()` is the first
  cell it yields. Its element j (`operator[]`, used by `cell(ref)`) is the coordinate j
  places along the minor axis from its origin, whatever the skip-null flag.
- `range_iterator` is not part of this model. Its `++` and `--` (`Iteration.Next` and
  `Iteration.Prev`) are taken to move the cursor exactly one vector along the major axis.
  They never skip an empty vector, even under skip-null.
- Reading a cell through the worksheet yields a default cell where none is stored.
  Handing out a cell handle (`ws.cell(c)`, and `front()` of a vector that does not skip)
  stores that default cell. Writing the cell back stores it too.
- `lowest_column`/`highest_column` are the least and greatest column that holds a stored
  cell, and 1 on an empty sheet.
- `clear_row` removes every stored cell of the row, whatever its column. It leaves row and
  column properties alone.
- `bp.style().set(bs)` (range.cpp:191, 196, 212, 217) is taken to set the style stored in
  `bp`: `border_property::style()` gives access to `bp`'s own optional style, not to a
  copy. The side written back by `curBorder.side(s, bp)` therefore carries the new style.
- A `border_style` call that reaches a cell whose side to edit is undefined fails there.
  `obp.get()` on an empty optional is a hard failure. The model returns `ok == false`.
  The failing cell has already been handed out, so it is stored unchanged. The cells
  edited before it stay edited, with no rollback.

Notes on the code as written:

- `apply` walks the vectors in the range's own order (`for (auto row : *this)`).
  `Applied` shows that the final grid does not depend on that order.
- `cell(ref)` takes vector `row - 1` and element `column - 1` of it, so both offsets are
  counted from the range's top-left corner. `CellOf` states this.
- For an alignment other than left/right (or top/bottom), the edge vector is the first
  column (or row). `border_style` then writes each border back unchanged.

## Model

| member | source | states |
|---|---|---|
| Geometry.Length | xlnt/source/worksheet/range.cpp:90-98 | the vector count is at least 1 and is the span of the major axis (rows under Row order, columns under Column order) |
| Geometry.VectorOrigin | xlnt/source/worksheet/range.cpp:107-137 | vector i starts at the top-left corner with only the major coordinate advanced by i; the minor coordinate is unchanged |
| Geometry.Vector | xlnt/source/worksheet/range.cpp:70-78 | `operator[](i)` is the vector with that origin, the range's bounds, order and skip-null flag |
| Geometry.HorizontalEdge | xlnt/source/worksheet/range.cpp:139-149 | a horizontal edge is a Column-order vector on the top row, in the right column for Right and the left column otherwise, inside the rectangle |
| Geometry.VerticalEdge | xlnt/source/worksheet/range.cpp:150-160 | a vertical edge is a Row-order vector in the left column, on the bottom row for Bottom and the top row otherwise, inside the rectangle |
| Geometry.Contains | xlnt/source/worksheet/range.cpp:162-168 | only a rectangle whose corners are in order contains anything, and then both corners are contained: the bounds are inclusive |
| Geometry.ContainsByAxes | xlnt/source/worksheet/range.cpp:162-168 | inclusive containment on both axes, read through the major and minor axes of either order |
| Geometry.RectCells | xlnt/source/worksheet/range.cpp:162-168 | the set of the rectangle's coordinates is exactly the set `contains` accepts |
| Geometry.VectorCellsOfRange | xlnt/source/worksheet/range.cpp:107-137 | vector i walks each coordinate of the rectangle at major coordinate top-left + i exactly once, and only those; it has as many cells as the other order has vectors |
| Geometry.HorizontalEdgeCells | xlnt/source/worksheet/range.cpp:139-149 | the left (right) edge walks exactly the rectangle's left (right) column |
| Geometry.VerticalEdgeCells | xlnt/source/worksheet/range.cpp:150-160 | the top (bottom) edge walks exactly the rectangle's top (bottom) row |
| Geometry.TraversalCovers | xlnt/source/worksheet/range.cpp:295-304 | the first i vectors walk each coordinate once, and exactly the part of the rectangle before major coordinate top-left + i |
| Geometry.TraversalAll | xlnt/source/worksheet/range.cpp:295-304 | walking all vectors walks every coordinate of the rectangle exactly once, in either order |
| Iteration.Begin | xlnt/source/worksheet/range.cpp:336-339 | begin stands on the origin of vector 0 |
| Iteration.End | xlnt/source/worksheet/range.cpp:341-355 | end stands on the origin of vector length(), one past the last vector and outside the rectangle |
| Iteration.Prev | xlnt/source/worksheet/range.cpp:326-329 | stepping back is undone by stepping forward |
| Iteration.ForwardTraversal | xlnt/source/worksheet/range.cpp:336-376 | from begin, end is reached after exactly length() steps and not before, and the vectors met are vector(0) .. vector(length()-1) in order |
| Iteration.RBegin | xlnt/source/worksheet/range.cpp:393-396 | rbegin can step back, and what it yields first is the last vector, vector(length()-1) |
| Iteration.REnd | xlnt/source/worksheet/range.cpp:398-401 | rend is where length() reverse steps from rbegin arrive |
| Iteration.ReverseTraversal | xlnt/source/worksheet/range.cpp:393-421 | from rbegin, rend is reached after length() steps, and the vectors met are vector(length()-1) .. vector(0) in order |
| Iteration.FrontVector | xlnt/source/worksheet/range.cpp:316-324 | front() is vector(0) |
| Iteration.BackVector | xlnt/source/worksheet/range.cpp:326-334 | back() is vector(length()-1), is what rbegin yields, and starts inside the rectangle |
| Iteration.CellOf | xlnt/source/worksheet/range.cpp:306-314 | cell(ref) is element column-1 of vector row-1: offsets from the top-left corner along the major and minor axes |
| Iteration.CellOfAnchoredAtA1 | xlnt/source/worksheet/range.cpp:306-314 | for a range anchored at A1, cell(ref) is ref itself under Row order and its transpose under Column order |
| Cells.EmptyMeans | xlnt/source/worksheet/range.cpp:430-432 | a vector is empty exactly when skip-null is set and none of its coordinates holds a stored cell |
| Cells.Front | xlnt/source/worksheet/range.cpp:434 | the front cell of a non-empty vector is one of its visited coordinates and shares the vector's major coordinate |
| Cells.WriteAlongIsUpdatedAt | xlnt/source/worksheet/range.cpp:295-304 | along distinct coordinates, writing f into each visited cell one after the other is applying f once at every visited coordinate |
| Cells.RemoveAlongIsRemoved | xlnt/source/worksheet/range.cpp:60-66 | clearing coordinates one after the other removes exactly the coordinates walked |
| Sheet.Worksheet.LowestColumn | xlnt/source/worksheet/range.cpp:50 | the least column holding a stored cell (1 on an empty sheet), a lower bound for every stored cell |
| Sheet.Worksheet.HighestColumn | xlnt/source/worksheet/range.cpp:51 | the greatest column holding a stored cell (1 on an empty sheet), an upper bound for every stored cell |
| RangeView.Range.constructor | xlnt/source/worksheet/range.cpp:38-44 | the range holds the given worksheet, rectangle, order and skip-null flag |
| RangeView.Range.Equals | xlnt/source/worksheet/range.cpp:100-105 | every range equals itself |
| RangeView.Range.NotEquals | xlnt/source/worksheet/range.cpp:378-381 | `!=` is the exact negation of `==`, so no range differs from itself |
| RangeView.EqualityIsEquivalence | xlnt/source/worksheet/range.cpp:100-105 | `==` is symmetric and transitive, and `!=` is symmetric |
| RangeView.EqualityIgnoresSkipNull | xlnt/source/worksheet/range.cpp:100-105 | ranges differing only in their skip-null flag compare equal, and `!=` is false for them |
| RangeView.Range.ClearCells | xlnt/source/worksheet/range.cpp:48-68 | afterwards exactly the rectangle's cells are gone and every other cell is kept, whichever branch runs |
| RangeView.Range.ClearByRows | xlnt/source/worksheet/range.cpp:50-57 | clearing rows top..bottom removes exactly the rectangle when every stored cell lies within its columns |
| RangeView.Range.ClearByCells | xlnt/source/worksheet/range.cpp:58-67 | clearing cell by cell, row by row, removes exactly the rectangle |
| RangeView.ClearBranchesAgree | xlnt/source/worksheet/range.cpp:48-68 | when every stored cell lies within the rectangle's columns, clearing its rows is clearing the rectangle: the two branches agree |
| RangeView.Applied | xlnt/source/worksheet/range.cpp:295-304 | f reaches every rectangle cell the walk visits (materialising absent ones without skip-null), skipped ones stay absent, and nothing outside the rectangle changes |
| RangeView.Range.Apply | xlnt/source/worksheet/range.cpp:295-304 | the nested walk over the vectors in the range's order leaves exactly the grid Applied describes; metadata is unchanged |
| RangeView.AppliedAlongWalk | xlnt/source/worksheet/range.cpp:297-303 | a walk along every vector, in either order, writing f into each visited cell leaves the grid Applied describes |
| RangeView.Range.SetAlignment | xlnt/source/worksheet/range.cpp:170-174 | every visited rectangle cell gets the new alignment, nothing else changes |
| RangeView.Range.SetBorder | xlnt/source/worksheet/range.cpp:176-180 | every visited rectangle cell gets the new border |
| RangeView.Range.SetFill | xlnt/source/worksheet/range.cpp:225-229 | every visited rectangle cell gets the new fill |
| RangeView.Range.SetFont | xlnt/source/worksheet/range.cpp:231-235 | every visited rectangle cell gets the new font |
| RangeView.Range.SetFontSize | xlnt/source/worksheet/range.cpp:236-245 | every visited rectangle cell keeps its own font with only the size replaced |
| RangeView.Range.SetColor | xlnt/source/worksheet/range.cpp:246-258 | every visited rectangle cell's style fill becomes no pattern on white |
| RangeView.ColorIgnoresArgument | xlnt/source/worksheet/range.cpp:246-258 | color(x) and color(y) leave the same grid: the argument is not used |
| RangeView.Range.ClearValue | xlnt/source/worksheet/range.cpp:260-264 | every visited rectangle cell's value becomes null |
| RangeView.Range.SetNumberFormat | xlnt/source/worksheet/range.cpp:267-271 | every visited rectangle cell gets the new number format |
| RangeView.Range.SetProtection | xlnt/source/worksheet/range.cpp:273-277 | every visited rectangle cell gets the new protection |
| RangeView.Range.SetStyle | xlnt/source/worksheet/range.cpp:279-283 | every visited rectangle cell gets the new style |
| RangeView.EditSideChangesOneSide | xlnt/source/worksheet/range.cpp:189-192 | editing a defined side changes only that side's style: its colour, the other sides and the rest of the cell are kept |
| RangeView.Range.EditCell | xlnt/source/worksheet/range.cpp:186-200 | fails exactly when a visited cell lacks the side; the handle stores the cell first, so a failing cell ends up stored unchanged; otherwise the side's style is set and the border written back; skipped cells stay absent |
| RangeView.Range.EditEdge | xlnt/source/worksheet/range.cpp:184-201 | succeeds exactly when no visited cell lacks the side; the grid is the one BorderEdited describes, edited up to the first failing cell with no rollback |
| RangeView.EditEdgeStep | xlnt/source/worksheet/range.cpp:185-201 | one iteration either edits the cell and stays before the first failing coordinate, or stops exactly at it with the final grid |
| RangeView.BorderEditedEffect | xlnt/source/worksheet/range.cpp:182-223 | success iff no visited edge cell lacks the side, and then every visited edge cell has exactly that side edited |
| RangeView.BorderEditedFailure | xlnt/source/worksheet/range.cpp:185-192 | on failure, the failing cell is stored unchanged and every visited cell before it has the side edited |
| RangeView.BorderEditedElsewhere | xlnt/source/worksheet/range.cpp:182-223 | a coordinate off the edge keeps its cell, or stays absent |
| RangeView.Range.HorizontalBorderStyle | xlnt/source/worksheet/range.cpp:182-202 | the start side along the left column or the end side along the right column is edited, failing on an undefined side |
| RangeView.Range.VerticalBorderStyle | xlnt/source/worksheet/range.cpp:203-223 | the top side along the top row or the bottom side along the bottom row is edited, failing on an undefined side |
| RangeView.HorizontalBorderFrame | xlnt/source/worksheet/range.cpp:182-202 | no cell outside the chosen edge column changes |
| RangeView.VerticalBorderFrame | xlnt/source/worksheet/range.cpp:203-223 | no cell outside the chosen edge row changes |
| RangeView.FirstEmptyMeans | xlnt/source/worksheet/range.cpp:429-433 | the stopping index is the least one whose vector is empty, or the vector count when none is |
| RangeView.NoSkipReachesAll | xlnt/source/worksheet/range.cpp:429-433 | without skip-null no vector is empty, so the walk reaches every vector |
| RangeView.SetRunAt | xlnt/source/worksheet/range.cpp:434-436 | the run holds the value at the k keys from the first one on and keeps every other key as it was |
| RangeView.RunStep | xlnt/source/worksheet/range.cpp:429-437 | a non-empty vector lies before the first empty one, and setting the value at the next key extends the run by one |
| RangeView.RunEnd | xlnt/source/worksheet/range.cpp:429-438 | where the loop stops, by break or at the end, the run covers exactly the vectors before the first empty one |
| RangeView.FrontCellsAre | xlnt/source/worksheet/range.cpp:434 | the fronts of the vectors without skip-null are exactly the rectangle's first row (Column order) or first column (Row order), one per vector |
| RangeView.FrontsKeepEmpty | xlnt/source/worksheet/range.cpp:430-434 | storing the fronts of earlier vectors does not change whether a later vector is empty |
| RangeView.FrontStep | xlnt/source/worksheet/range.cpp:434 | the front of non-empty vector i lies on major coordinate top-left + i, and handing it out stores one more front |
| RangeView.FrontsEnd | xlnt/source/worksheet/range.cpp:429-438 | where the loop stops, no cell is new under skip-null, and without it the whole first row or column is stored |
| RangeView.SizeStep | xlnt/source/worksheet/range.cpp:429-437 | one pass over a non-empty vector extends both the stored fronts and the run of values by one vector |
| RangeView.SizeEnd | xlnt/source/worksheet/range.cpp:429-438 | where the loop stops, the run covers exactly the vectors before the first empty one and the fronts handed out are stored |
| RangeView.Range.ColumnWidth | xlnt/source/worksheet/range.cpp:424-441 | the widths of exactly the first k columns from the left are set (k = first empty column vector); without skip-null the top row's cells are stored (existing ones unchanged, missing ones as default cells), with skip-null no cell changes; row heights are unchanged and the order is restored |
| RangeView.Range.RowHeight | xlnt/source/worksheet/range.cpp:442-459 | the heights of exactly the first k rows from the top are set (k = first empty row vector); without skip-null the left column's cells are stored (existing ones unchanged, missing ones as default cells), with skip-null no cell changes; column widths are unchanged and the order is restored |
| RangeView.RowHeightStopsAtGap | xlnt/source/worksheet/range.cpp:442-459 | on A1:A3 with row 2 empty, only row 1's height is set; row 3 keeps its height although it holds a cell |

## Left out

- `style(const std::string&)` (range.cpp:285-288): it looks up a named style in the workbook's style registry, which is not part of this model.
- `conditional_format` (range.cpp:290-293): it passes the reference straight through to the worksheet, whose conditional-format store is not part of this model.
- `target_worksheet` and `reference` (range.cpp:80-88): plain field reads, held directly as `Range.ws` and `Range.ref`.
- The const and non-const twins (`vector`, `begin`/`cbegin`, `end`/`cend`, `rbegin`/`crbegin`, `front`, `back`, `cell`) are modelled once, as the pure values they return.
- The contents of the alignment, border colour, fill, font, number format, protection and style value types: each is reduced to a few fields copied into the cell record.
- `double` widths, heights, font sizes and the `color` argument are `real` values that are only copied; floating point is not modelled.
- The `std::function` closure of `apply` is a caller-supplied function `Cell -> Cell`. A closure that fails partway is not modelled.
- Style sharing: `color` writes the fill into the cell's own copy of its style, not into a style shared by several cells.
- The chained return values (`return *this`) of the setters are not modelled; the setters are methods without results.
- `cell_vector` / `range_iterator` internals: only the walk and the one-vector steps described above are modelled.
- Iteration.CellOf: `cell(ref)` hands out a cell handle, which stores a default cell where none was. The model gives only the coordinate, so that storing is not modelled.
- Machine-width overflow of `row_t`/`column_t` and `std::size_t`: coordinates are unbounded naturals, and a rectangle needs `1 <= top_left <= bottom_right` (`RangeReference.Valid`).
- Row and column properties other than width and height.
- RangeView.Range.ClearCells: that column widths and row heights are unchanged rests on the assumption above about `clear_row`. worksheet.cpp is not part of this model.
- RangeView.Range.ClearByRows: its promise that metadata is unchanged rests on the same assumption about `clear_row`.
