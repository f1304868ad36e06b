/** The worksheet a range borrows, reduced to what the range uses: the stored cells, the
    width of each column and the height of each row that has properties, reading and
    writing one cell, clearing one cell or one row, and the lowest and highest column
    that holds a cell. */
module Sheet {
  import opened Geometry
  import opened Cells

  class Worksheet {
    var cells: Grid
    /** The width held by the properties of each column that has one. */
    var columnWidths: map<nat, real>
    /** The height held by the properties of each row that has one. */
    var rowHeights: map<nat, real>

    constructor ()
      ensures cells == map[] && columnWidths == map[] && rowHeights == map[]
    {
      cells := map[];
      columnWidths := map[];
      rowHeights := map[];
    }

    predicate HasCell(c: CellReference)
      reads this
    {
      c in cells
    }

    /** The cell at c, as the worksheet hands it out (a default one if none is stored). */
    function CellAt(c: CellReference): Cell
      reads this
    {
      Get(cells, c)
    }

    /** `cell(c)`: hands out the cell at c. A handle addresses a stored cell, so a default
        cell is stored where none was. */
    method CellHandle(c: CellReference) returns (cell: Cell)
      modifies this
      ensures cell == Get(old(cells), c)
      ensures cells == old(cells)[c := cell]
      ensures columnWidths == old(columnWidths) && rowHeights == old(rowHeights)
    {
      cell := Get(cells, c);
      cells := cells[c := cell];
    }

    /** Writes a cell record at c, storing it if it was absent. */
    method WriteCell(c: CellReference, cell: Cell)
      modifies this
      ensures cells == old(cells)[c := cell]
      ensures columnWidths == old(columnWidths) && rowHeights == old(rowHeights)
    {
      cells := cells[c := cell];
    }

    /** `clear_cell`: the cell at c is no longer stored. */
    method ClearCell(c: CellReference)
      modifies this
      ensures cells == old(cells) - {c}
      ensures columnWidths == old(columnWidths) && rowHeights == old(rowHeights)
    {
      cells := cells - {c};
    }

    /** `clear_row`: no cell of the row is stored any more, whatever its column; column and
        row properties are left alone. */
    method ClearRow(row: nat)
      modifies this
      ensures cells == map c | c in old(cells) && c.row != row :: old(cells)[c]
      ensures columnWidths == old(columnWidths) && rowHeights == old(rowHeights)
    {
      cells := map c | c in cells && c.row != row :: cells[c];
    }

    /** `column_properties(column).width = width`. */
    method SetColumnWidth(column: nat, width: real)
      modifies this
      ensures columnWidths == old(columnWidths)[column := width]
      ensures cells == old(cells) && rowHeights == old(rowHeights)
    {
      columnWidths := columnWidths[column := width];
    }

    /** `row_properties(row).height = height`. */
    method SetRowHeight(row: nat, height: real)
      modifies this
      ensures rowHeights == old(rowHeights)[row := height]
      ensures cells == old(cells) && columnWidths == old(columnWidths)
    {
      rowHeights := rowHeights[row := height];
    }

    /** `lowest_column`: the least column holding a stored cell, 1 on an empty sheet. */
    method LowestColumn() returns (lowest: nat)
      ensures cells == map[] ==> lowest == 1
      ensures cells != map[] ==> exists c :: c in cells && c.column == lowest
      ensures forall c :: c in cells ==> lowest <= c.column
    {
      if cells == map[] {
        return 1;
      }
      var seen: set<CellReference> := {};
      var pending := cells.Keys;
      var first :| first in pending;
      lowest := first.column;
      while pending != {}
        invariant seen + pending == cells.Keys
        invariant exists c :: c in cells && c.column == lowest
        invariant forall c :: c in seen ==> lowest <= c.column
        decreases pending
      {
        var c :| c in pending;
        if c.column < lowest {
          lowest := c.column;
        }
        seen := seen + {c};
        pending := pending - {c};
      }
    }

    /** `highest_column`: the greatest column holding a stored cell, 1 on an empty sheet. */
    method HighestColumn() returns (highest: nat)
      ensures cells == map[] ==> highest == 1
      ensures cells != map[] ==> exists c :: c in cells && c.column == highest
      ensures forall c :: c in cells ==> c.column <= highest
    {
      if cells == map[] {
        return 1;
      }
      var seen: set<CellReference> := {};
      var pending := cells.Keys;
      var first :| first in pending;
      highest := first.column;
      while pending != {}
        invariant seen + pending == cells.Keys
        invariant exists c :: c in cells && c.column == highest
        invariant forall c :: c in seen ==> c.column <= highest
        decreases pending
      {
        var c :| c in pending;
        if c.column > highest {
          highest := c.column;
        }
        seen := seen + {c};
        pending := pending - {c};
      }
    }
  }
}
