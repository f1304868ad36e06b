/** The range view itself: a worksheet it borrows, a rectangle, a major order and a
    skip-null flag, with the operations that write through to the worksheet. */
module RangeView {
  import opened Geometry
  import opened Cells
  import opened Sheet

  // ---------------------------------------------------------------------------
  // Per-cell updates, one for each setter built on apply.

  function WithAlignment(a: Alignment): Cell -> Cell { (c: Cell) => c.(alignment := a) }

  function WithBorder(b: Border): Cell -> Cell { (c: Cell) => c.(border := b) }

  function WithFill(f: Fill): Cell -> Cell { (c: Cell) => c.(fill := f) }

  function WithFont(f: Font): Cell -> Cell { (c: Cell) => c.(font := f) }

  /** The cell's own font, with only its size replaced. */
  function WithFontSize(size: real): Cell -> Cell { (c: Cell) => c.(font := c.font.(size := size)) }

  /** The style's fill reset to no pattern on white; the colour argument is not used. */
  function WithColor(color: real): Cell -> Cell { (c: Cell) => c.(style := c.style.(fill := NoneWhiteFill)) }

  function WithNumberFormat(n: NumberFormat): Cell -> Cell { (c: Cell) => c.(numberFormat := n) }

  function WithProtection(p: Protection): Cell -> Cell { (c: Cell) => c.(protection := p) }

  function WithStyle(s: Style): Cell -> Cell { (c: Cell) => c.(style := s) }

  function WithoutValue(): Cell -> Cell { (c: Cell) => c.(value := Null) }

  /** The grid after `apply(f)`: f has been applied once to every coordinate of the
      rectangle (with skip-null, to every one that holds a stored cell) and nothing
      outside the rectangle has changed. */
  function Applied(g: Grid, ref: RangeReference, skipNull: bool, f: Cell -> Cell): (r: Grid)
    ensures forall c :: Contains(ref, c) && Visits(g, skipNull, c) ==> c in r && r[c] == f(Get(g, c))
    ensures forall c :: !Contains(ref, c) ==> (c in r <==> c in g) && (c in g ==> r[c] == g[c])
    ensures forall c :: Contains(ref, c) && !Visits(g, skipNull, c) ==> c !in r
    ensures skipNull ==> r.Keys == g.Keys
  {
    UpdatedAt(g, Touched(g, skipNull, RectCells(ref)), f)
  }

  /** A walk along every vector of the range, in either order, leaves the grid Applied
      describes. */
  lemma AppliedAlongWalk(g: Grid, cur: Grid, ref: RangeReference, order: MajorOrder, skipNull: bool, f: Cell -> Cell, i: nat)
    requires ref.Valid() && i == Length(ref, order)
    requires cur == WriteAlong(g, skipNull, Traversal(ref, order, skipNull, i), f)
    ensures cur == Applied(g, ref, skipNull, f)
  {
    TraversalAll(ref, order, skipNull);
    WriteAlongIsUpdatedAt(g, skipNull, Traversal(ref, order, skipNull, i), f);
  }

  /** `color(x)` leaves the same grid whatever x is. */
  lemma ColorIgnoresArgument(g: Grid, ref: RangeReference, skipNull: bool, x: real, y: real)
    ensures Applied(g, ref, skipNull, WithColor(x)) == Applied(g, ref, skipNull, WithColor(y))
  {
    var a := Applied(g, ref, skipNull, WithColor(x));
    var b := Applied(g, ref, skipNull, WithColor(y));
    assert a.Keys == b.Keys;
    forall c | c in a ensures a[c] == b[c] {
      if Contains(ref, c) && Visits(g, skipNull, c) {
        assert a[c] == WithColor(x)(Get(g, c)) == WithColor(y)(Get(g, c)) == b[c];
      }
    }
  }

  // ---------------------------------------------------------------------------
  // clear_cells

  /** The grid with every stored cell of rows top .. row-1 removed, whatever its column. */
  function RowsRemoved(g: Grid, top: nat, row: nat): (r: Grid)
    ensures forall c :: c in r <==> c in g && !(top <= c.row < row)
    ensures forall c :: c in r ==> r[c] == g[c]
  {
    map c | c in g && !(top <= c.row < row) :: g[c]
  }

  /** Clearing row `row` once rows top .. row-1 are cleared. */
  lemma RowsRemovedStep(g: Grid, cur: Grid, top: nat, row: nat)
    requires top <= row && cur == RowsRemoved(g, top, row)
    ensures (map c | c in cur && c.row != row :: cur[c]) == RowsRemoved(g, top, row + 1)
  {
    var a := map c | c in cur && c.row != row :: cur[c];
    assert a.Keys == RowsRemoved(g, top, row + 1).Keys;
  }

  /** When every stored cell lies within the rectangle's columns, clearing the rectangle's
      rows is clearing the rectangle: the two branches of clear_cells agree. */
  lemma ClearBranchesAgree(g: Grid, cur: Grid, ref: RangeReference)
    requires forall c :: c in g ==> ref.topLeft.column <= c.column <= ref.bottomRight.column
    requires cur == RowsRemoved(g, ref.topLeft.row, ref.bottomRight.row + 1)
    ensures cur == Removed(g, RectCells(ref))
  {
    var b := Removed(g, RectCells(ref));
    assert cur.Keys == b.Keys;
  }

  /** Clearing the coordinate at column j of row i of the rectangle once the cells before
      it have been cleared. */
  lemma ClearCellStep(g: Grid, cur: Grid, ref: RangeReference, i: nat, j: nat, c: CellReference)
    requires ref.Valid() && i < Length(ref, Row) && j < Length(ref, Column)
    requires c == CellReference(ref.topLeft.column + j, ref.topLeft.row + i)
    requires cur == RemoveAlong(g, WalkPrefix(ref, Row, false, i, j))
    ensures cur - {c} == RemoveAlong(g, WalkPrefix(ref, Row, false, i, j + 1))
  {
    VectorCellsOfRange(ref, Row, false, i, c);
    VectorCellsAt(Vector(ref, Row, false, i));
    WalkPrefixStep(ref, Row, false, i, j);
    RemoveAlongStep(g, WalkPrefix(ref, Row, false, i, j), c);
  }

  /** Removing the cells of every row of the rectangle one by one removes the rectangle. */
  lemma RemovedAlongWalk(g: Grid, cur: Grid, ref: RangeReference, i: nat)
    requires ref.Valid() && i == Length(ref, Row)
    requires cur == RemoveAlong(g, Traversal(ref, Row, false, i))
    ensures cur == Removed(g, RectCells(ref))
  {
    TraversalAll(ref, Row, false);
    RemoveAlongIsRemoved(g, Traversal(ref, Row, false, i));
  }

  // ---------------------------------------------------------------------------
  // border_style

  /** The side border_style edits for a horizontal direction: start for left, end for
      right, none for the other alignments. */
  function SideForHorizontal(dir: HorizontalAlignment): Option<BorderSide> {
    if dir == Left then Some(StartSide) else if dir == Right then Some(EndSide) else None
  }

  /** The side border_style edits for a vertical direction: top for top, bottom for
      bottom, none for the other alignments. */
  function SideForVertical(dir: VerticalAlignment): Option<BorderSide> {
    if dir == Top then Some(TopSide) else if dir == Bottom then Some(BottomSide) else None
  }

  /** True when the side to edit is undefined in the cell's border, so reading it fails. */
  predicate Lacks(side: Option<BorderSide>, cell: Cell) {
    side.Some? && side.value !in cell.border.sides
  }

  /** The cell with the style of the given side set to bs; with no side, the cell as it was.
      `bp.style().set(bs)` is read as setting the style held in `bp` itself, so the side
      written back carries bs. */
  function EditSide(side: Option<BorderSide>, bs: BorderStyle, cell: Cell): Cell {
    match side
    case None => cell
    case Some(s) =>
      if s in cell.border.sides then
        var b := cell.border;
        cell.(border := b.(sides := b.sides[s := b.sides[s].(style := Some(bs))]))
      else cell
  }

  function SideEdit(side: Option<BorderSide>, bs: BorderStyle): Cell -> Cell {
    (c: Cell) => EditSide(side, bs, c)
  }

  /** Only the chosen side's style changes: its colour, the other sides and every other
      part of the cell stay as they were. */
  lemma EditSideChangesOneSide(side: BorderSide, bs: BorderStyle, cell: Cell)
    requires side in cell.border.sides
    ensures var r := EditSide(Some(side), bs, cell);
      && r.border.sides.Keys == cell.border.sides.Keys
      && r.border.sides[side] == cell.border.sides[side].(style := Some(bs))
      && (forall s :: s in cell.border.sides && s != side ==> r.border.sides[s] == cell.border.sides[s])
      && r == cell.(border := r.border)
  {
  }

  /** The position of the first visited coordinate whose side to edit is undefined, or
      the length of coords when there is none. */
  function FirstMissing(g: Grid, coords: seq<CellReference>, skipNull: bool, side: Option<BorderSide>): (k: nat)
    ensures k <= |coords|
    ensures forall j :: 0 <= j < k ==> !(Visits(g, skipNull, coords[j]) && Lacks(side, Get(g, coords[j])))
    ensures k < |coords| ==> Visits(g, skipNull, coords[k]) && Lacks(side, Get(g, coords[k]))
    decreases |coords|
  {
    if coords == [] then 0
    else if Visits(g, skipNull, coords[0]) && Lacks(side, Get(g, coords[0])) then 0
    else 1 + FirstMissing(g, coords[1..], skipNull, side)
  }

  /** The grid once the side has been edited on every visited coordinate among the first
      k of coords. */
  function EditedBefore(g: Grid, coords: seq<CellReference>, skipNull: bool, side: Option<BorderSide>, bs: BorderStyle, k: nat): Grid
    requires k <= |coords|
  {
    UpdatedAt(g, Touched(g, skipNull, Elements(coords[..k])), SideEdit(side, bs))
  }

  /** The grid border_style leaves: the side edited on every visited coordinate before the
      first one where it is undefined (on all of them when there is none), and that first
      one stored as it was, since its cell was handed out before the read failed; no
      rollback. */
  function BorderEdited(g: Grid, coords: seq<CellReference>, skipNull: bool, side: Option<BorderSide>, bs: BorderStyle): Grid {
    var k := FirstMissing(g, coords, skipNull, side);
    var edited := EditedBefore(g, coords, skipNull, side, bs, k);
    if k < |coords| then edited[coords[k] := Get(g, coords[k])] else edited
  }

  /** A visited coordinate before the first one lacking the side that does not lack it
      itself lies before that first one. */
  lemma FirstMissingPast(g: Grid, coords: seq<CellReference>, skipNull: bool, side: Option<BorderSide>, i: nat)
    requires i < |coords| && i <= FirstMissing(g, coords, skipNull, side)
    requires !(Visits(g, skipNull, coords[i]) && Lacks(side, Get(g, coords[i])))
    ensures i < FirstMissing(g, coords, skipNull, side)
  {
  }

  /** Walking the first k coordinates, editing each visited cell, leaves the grid
      EditedBefore describes. */
  lemma BorderEditedAlong(g: Grid, cur: Grid, coords: seq<CellReference>, skipNull: bool, side: Option<BorderSide>, bs: BorderStyle, k: nat)
    requires Distinct(coords) && k <= |coords|
    requires cur == WriteAlong(g, skipNull, coords[..k], SideEdit(side, bs))
    ensures cur == EditedBefore(g, coords, skipNull, side, bs, k)
  {
    assert Distinct(coords[..k]);
    WriteAlongIsUpdatedAt(g, skipNull, coords[..k], SideEdit(side, bs));
  }

  /** One cell of border_style's walk: when the cell there is edited, the walk moves on
      before the first coordinate lacking the side; when it fails, it is at that
      coordinate, whose cell has been stored as it was, and the grid is final. */
  lemma EditEdgeStep(g: Grid, prev: Grid, next: Grid, coords: seq<CellReference>, skipNull: bool, side: Option<BorderSide>, bs: BorderStyle, i: nat, edited: bool)
    requires Distinct(coords) && i < |coords| && i <= FirstMissing(g, coords, skipNull, side)
    requires prev == WriteAlong(g, skipNull, coords[..i], SideEdit(side, bs))
    requires edited == !(Visits(prev, skipNull, coords[i]) && Lacks(side, Get(prev, coords[i])))
    requires next == if Visits(prev, skipNull, coords[i])
      then prev[coords[i] := if edited then SideEdit(side, bs)(Get(prev, coords[i])) else Get(prev, coords[i])]
      else prev
    ensures edited ==> i < FirstMissing(g, coords, skipNull, side)
    ensures edited ==> next == WriteAlong(g, skipNull, coords[..i + 1], SideEdit(side, bs))
    ensures !edited ==> FirstMissing(g, coords, skipNull, side) == i < |coords|
    ensures !edited ==> next == BorderEdited(g, coords, skipNull, side, bs)
  {
    var c := coords[i];
    DistinctPrefix(coords, i);
    assert coords[..i + 1] == coords[..i] + [c];
    WriteAlongStep(g, skipNull, coords[..i], c, SideEdit(side, bs));
    WriteAlongElsewhere(g, skipNull, coords[..i], SideEdit(side, bs), c);
    if edited {
      FirstMissingPast(g, coords, skipNull, side, i);
    } else {
      BorderEditedAlong(g, prev, coords, skipNull, side, bs, i);
    }
  }

  /** border_style changes no coordinate off its walk: such a coordinate keeps its cell,
      or stays absent. */
  lemma BorderEditedElsewhere(g: Grid, coords: seq<CellReference>, skipNull: bool, side: Option<BorderSide>, bs: BorderStyle, c: CellReference)
    requires c !in coords
    ensures var r := BorderEdited(g, coords, skipNull, side, bs);
      (c in r <==> c in g) && Get(r, c) == Get(g, c)
  {
    var k := FirstMissing(g, coords, skipNull, side);
    assert c !in Elements(coords[..k]);
  }

  /** What border_style does along a walk of distinct coordinates: it succeeds exactly when
      no visited cell lacks the side, and then every visited cell has exactly that side
      edited. */
  lemma BorderEditedEffect(g: Grid, coords: seq<CellReference>, skipNull: bool, side: Option<BorderSide>, bs: BorderStyle, c: CellReference)
    requires Distinct(coords)
    ensures var r := BorderEdited(g, coords, skipNull, side, bs);
      FirstMissing(g, coords, skipNull, side) == |coords| && c in coords && Visits(g, skipNull, c) ==>
        c in r && r[c] == EditSide(side, bs, Get(g, c))
    ensures FirstMissing(g, coords, skipNull, side) == |coords| <==>
      forall j :: 0 <= j < |coords| && Visits(g, skipNull, coords[j]) ==> !Lacks(side, Get(g, coords[j]))
  {
    assert coords[..|coords|] == coords;
  }

  /** Where border_style fails, the cell it failed on is stored, unchanged, and every
      visited cell before it has exactly the side edited. */
  lemma BorderEditedFailure(g: Grid, coords: seq<CellReference>, skipNull: bool, side: Option<BorderSide>, bs: BorderStyle, j: nat)
    requires Distinct(coords) && FirstMissing(g, coords, skipNull, side) < |coords|
    ensures var r := BorderEdited(g, coords, skipNull, side, bs);
      var k := FirstMissing(g, coords, skipNull, side);
      && coords[k] in r && r[coords[k]] == Get(g, coords[k])
      && (j < k && Visits(g, skipNull, coords[j]) ==> coords[j] in r && r[coords[j]] == EditSide(side, bs, Get(g, coords[j])))
  {
    var k := FirstMissing(g, coords, skipNull, side);
    if j < k {
      assert coords[j] in coords[..k];
      DistinctPrefix(coords, k);
    }
  }

  /** border_style with a horizontal direction changes no cell outside the edge column:
      the left column for every direction but Right, the right column for Right. */
  lemma HorizontalBorderFrame(g: Grid, ref: RangeReference, skipNull: bool, dir: HorizontalAlignment, bs: BorderStyle, c: CellReference)
    requires ref.Valid()
    requires !Contains(ref, c) || c.column != (if dir == Right then ref.bottomRight.column else ref.topLeft.column)
    ensures var r := BorderEdited(g, VectorCells(HorizontalEdge(ref, skipNull, dir)), skipNull, SideForHorizontal(dir), bs);
      (c in r <==> c in g) && Get(r, c) == Get(g, c)
  {
    var v := HorizontalEdge(ref, skipNull, dir);
    HorizontalEdgeCells(ref, skipNull, dir, c);
    VectorCellsExactly(v, c);
    BorderEditedElsewhere(g, VectorCells(v), skipNull, SideForHorizontal(dir), bs, c);
  }

  /** border_style with a vertical direction changes no cell outside the edge row: the top
      row for every direction but Bottom, the bottom row for Bottom. */
  lemma VerticalBorderFrame(g: Grid, ref: RangeReference, skipNull: bool, dir: VerticalAlignment, bs: BorderStyle, c: CellReference)
    requires ref.Valid()
    requires !Contains(ref, c) || c.row != (if dir == Bottom then ref.bottomRight.row else ref.topLeft.row)
    ensures var r := BorderEdited(g, VectorCells(VerticalEdge(ref, skipNull, dir)), skipNull, SideForVertical(dir), bs);
      (c in r <==> c in g) && Get(r, c) == Get(g, c)
  {
    var v := VerticalEdge(ref, skipNull, dir);
    VerticalEdgeCells(ref, skipNull, dir, c);
    VectorCellsExactly(v, c);
    BorderEditedElsewhere(g, VectorCells(v), skipNull, SideForVertical(dir), bs, c);
  }

  // ---------------------------------------------------------------------------
  // column_width / row_height

  /** The index of the first empty vector at or after i, or the vector count if none is. */
  function FirstEmptyFrom(g: Grid, ref: RangeReference, order: MajorOrder, skipNull: bool, i: nat): (k: nat)
    requires ref.Valid() && i <= Length(ref, order)
    ensures i <= k <= Length(ref, order)
    decreases Length(ref, order) - i
  {
    if i == Length(ref, order) then i
    else if IsEmpty(g, Vector(ref, order, skipNull, i)) then i
    else FirstEmptyFrom(g, ref, order, skipNull, i + 1)
  }

  /** Searching from vector i finds no empty vector before the one it stops at. */
  lemma {:induction false} FirstEmptyFromBefore(g: Grid, ref: RangeReference, order: MajorOrder, skipNull: bool, i: nat, j: nat)
    requires ref.Valid() && i <= Length(ref, order) && i <= j < FirstEmptyFrom(g, ref, order, skipNull, i)
    ensures !IsEmpty(g, Vector(ref, order, skipNull, j))
    decreases j - i
  {
    if i < j {
      FirstEmptyFromBefore(g, ref, order, skipNull, i + 1, j);
    }
  }

  /** The vector a search from i stops at is empty, unless the search ran past the last one. */
  lemma {:induction false} FirstEmptyFromStops(g: Grid, ref: RangeReference, order: MajorOrder, skipNull: bool, i: nat)
    requires ref.Valid() && i <= Length(ref, order)
    ensures var k := FirstEmptyFrom(g, ref, order, skipNull, i);
      k < Length(ref, order) ==> IsEmpty(g, Vector(ref, order, skipNull, k))
    decreases Length(ref, order) - i
  {
    if i < Length(ref, order) && !IsEmpty(g, Vector(ref, order, skipNull, i)) {
      FirstEmptyFromStops(g, ref, order, skipNull, i + 1);
    }
  }

  /** The index of the first empty vector, or the vector count if none is. */
  function FirstEmpty(g: Grid, ref: RangeReference, order: MajorOrder, skipNull: bool): (k: nat)
    requires ref.Valid()
    ensures k <= Length(ref, order)
  {
    FirstEmptyFrom(g, ref, order, skipNull, 0)
  }

  /** FirstEmpty is the least index that is either empty or past the last vector. */
  lemma FirstEmptyMeans(g: Grid, ref: RangeReference, order: MajorOrder, skipNull: bool)
    requires ref.Valid()
    ensures var k := FirstEmpty(g, ref, order, skipNull);
      (forall j :: 0 <= j < k ==> !IsEmpty(g, Vector(ref, order, skipNull, j))) &&
      (k < Length(ref, order) ==> IsEmpty(g, Vector(ref, order, skipNull, k)))
  {
    forall j | 0 <= j < FirstEmpty(g, ref, order, skipNull) ensures !IsEmpty(g, Vector(ref, order, skipNull, j)) {
      FirstEmptyFromBefore(g, ref, order, skipNull, 0, j);
    }
    FirstEmptyFromStops(g, ref, order, skipNull, 0);
  }

  /** Without skip-null no vector is empty, so every vector of the range is reached. */
  lemma NoSkipReachesAll(g: Grid, ref: RangeReference, order: MajorOrder)
    requires ref.Valid()
    ensures FirstEmpty(g, ref, order, false) == Length(ref, order)
  {
    var k := FirstEmpty(g, ref, order, false);
    FirstEmptyMeans(g, ref, order, false);
    if k < Length(ref, order) {
      VectorCellsOfRange(ref, order, false, k, ref.topLeft);
    }
  }

  /** The metadata map with the value set at keys first .. first + k - 1. */
  function SetRun(m: map<nat, real>, first: nat, k: nat, value: real): map<nat, real>
    decreases k
  {
    if k == 0 then m else SetRun(m, first, k - 1, value)[first + k - 1 := value]
  }

  /** The run holds the value at the k keys from first on and leaves every other key as in m. */
  lemma {:induction false} SetRunAt(m: map<nat, real>, first: nat, k: nat, value: real)
    ensures forall x: nat :: first <= x < first + k ==>
      x in SetRun(m, first, k, value) && SetRun(m, first, k, value)[x] == value
    ensures forall x: nat :: !(first <= x < first + k) ==>
      (x in SetRun(m, first, k, value) <==> x in m) && (x in m ==> SetRun(m, first, k, value)[x] == m[x])
    decreases k
  {
    if k > 0 {
      SetRunAt(m, first, k - 1, value);
      var p := SetRun(m, first, k - 1, value);
      var key: nat := first + k - 1;
      assert SetRun(m, first, k, value) == p[key := value];
      forall x: nat | first <= x < first + k
        ensures x in SetRun(m, first, k, value) && SetRun(m, first, k, value)[x] == value
      {
        if x != key {
          assert first <= x < first + (k - 1);
          assert x in p && p[x] == value;
        }
      }
    }
  }

  /** The coordinates whose cells `front()` hands out without skip-null, one per vector:
      the first coordinate of each vector, which together make the rectangle's first row
      (Column order) or first column (Row order). */
  function FrontCells(ref: RangeReference, order: MajorOrder): seq<CellReference> {
    VectorCells(Vector(ref, Other(order), false, 0))
  }

  /** The grid once the fronts of vectors 0 .. k-1 have been handed out. Under skip-null each
      front is a stored cell, so nothing changes; without it each one is stored. */
  function FrontsStored(g: Grid, ref: RangeReference, order: MajorOrder, skipNull: bool, k: nat): Grid
    requires k <= |FrontCells(ref, order)|
  {
    if skipNull then g else WriteAlong(g, false, FrontCells(ref, order)[..k], Kept())
  }

  /** The cell update that leaves the cell as it is. */
  function Kept(): Cell -> Cell { (c: Cell) => c }

  /** The grid with the cells at s stored: those already stored keep their cells and the
      others are stored as default cells. */
  function Stored(g: Grid, s: set<CellReference>): Grid {
    UpdatedAt(g, s, Kept())
  }

  lemma StoredMeans(g: Grid, s: set<CellReference>, c: CellReference)
    ensures var r := Stored(g, s);
      && r.Keys == g.Keys + s
      && (c in g ==> r[c] == g[c])
      && (c in s && c !in g ==> r[c] == DefaultCell)
  {
  }

  /** The fronts handed out are the rectangle's first row under Column order and its first
      column under Row order. */
  lemma FrontCellsAre(ref: RangeReference, order: MajorOrder, c: CellReference)
    requires ref.Valid()
    ensures |FrontCells(ref, order)| == Length(ref, order)
    ensures c in FrontCells(ref, order) <==> Contains(ref, c) && Minor(c, order) == Minor(ref.topLeft, order)
  {
    VectorCellsOfRange(ref, Other(order), false, 0, c);
  }

  /** One vector of column_width / row_height: storing the earlier fronts does not change
      whether vector i is empty. */
  lemma FrontsKeepEmpty(g: Grid, cur: Grid, ref: RangeReference, order: MajorOrder, skipNull: bool, i: nat)
    requires ref.Valid() && i < Length(ref, order)
    requires i < |FrontCells(ref, order)| && cur == FrontsStored(g, ref, order, skipNull, i)
    ensures IsEmpty(cur, Vector(ref, order, skipNull, i)) == IsEmpty(g, Vector(ref, order, skipNull, i))
  {
    if !skipNull {
      var v := Vector(ref, order, skipNull, i);
      VectorCellsOfRange(ref, order, skipNull, i, ref.topLeft);
      assert Visible(cur, v) == VectorCells(v);
      assert Visible(g, v) == VectorCells(v);
    }
  }

  /** Without skip-null, the first coordinate of vector i is the i-th of FrontCells. */
  lemma FirstOfVector(ref: RangeReference, order: MajorOrder, i: nat)
    requires i < |FrontCells(ref, order)| && 0 < |VectorCells(Vector(ref, order, false, i))|
    ensures VectorCells(Vector(ref, order, false, i))[0] == FrontCells(ref, order)[i]
  {
    var v := Vector(ref, order, false, i);
    var w := Vector(ref, Other(order), false, 0);
    VectorCellsAt(v);
    VectorCellsAt(w);
    var a := VectorCells(v)[0];
    var b := VectorCells(w)[i];
    assert Major(a, order) == Major(b, order) && Minor(a, order) == Minor(b, order);
  }

  /** The front f of non-empty vector i lies on major coordinate top-left + i, and handing
      it out extends FrontsStored by one. */
  lemma FrontStep(g: Grid, cur: Grid, ref: RangeReference, order: MajorOrder, skipNull: bool, i: nat, f: CellReference)
    requires i < |FrontCells(ref, order)| && cur == FrontsStored(g, ref, order, skipNull, i)
    requires !IsEmpty(cur, Vector(ref, order, skipNull, i)) && f == Front(cur, Vector(ref, order, skipNull, i))
    ensures Major(f, order) == Major(ref.topLeft, order) + i
    ensures cur[f := Get(cur, f)] == FrontsStored(g, ref, order, skipNull, i + 1)
  {
    if !skipNull {
      var fc := FrontCells(ref, order);
      var v := Vector(ref, order, false, i);
      assert Visible(cur, v) == VectorCells(v);
      FirstOfVector(ref, order, i);
      assert fc[..i + 1] == fc[..i] + [fc[i]];
      WriteAlongStep(g, false, fc[..i], fc[i], Kept());
    }
  }

  /** Where column_width / row_height stops, the fronts handed out are stored: none is new
      under skip-null, and without it the loop has reached every vector, so the whole first
      row or column is stored. */
  lemma FrontsEnd(g: Grid, cur: Grid, ref: RangeReference, order: MajorOrder, skipNull: bool, i: nat)
    requires ref.Valid() && i <= FirstEmpty(g, ref, order, skipNull)
    requires i == Length(ref, order) || IsEmpty(g, Vector(ref, order, skipNull, i))
    requires i <= |FrontCells(ref, order)| && cur == FrontsStored(g, ref, order, skipNull, i)
    ensures cur == if skipNull then g else Stored(g, Elements(FrontCells(ref, order)))
  {
    if !skipNull {
      var fc := FrontCells(ref, order);
      NoSkipReachesAll(g, ref, order);
      FrontCellsAre(ref, order, ref.topLeft);
      if i < Length(ref, order) {
        VectorCellsOfRange(ref, order, false, i, ref.topLeft);
        EmptyMeans(g, Vector(ref, order, false, i));
        assert false;
      }
      assert fc[..i] == fc;
      VectorCellsOfRange(ref, Other(order), false, 0, ref.topLeft);
      WriteAlongIsUpdatedAt(g, false, fc, Kept());
      assert Touched(g, false, Elements(fc)) == Elements(fc);
    }
  }

  /** One vector of column_width / row_height: vector i is not empty, so it lies before the
      first empty one, and setting the value at its major coordinate extends the run by one. */
  lemma RunStep(g: Grid, m: map<nat, real>, cur: map<nat, real>, ref: RangeReference, order: MajorOrder, skipNull: bool, i: nat, first: nat, value: real)
    requires ref.Valid() && i < Length(ref, order) && i <= FirstEmpty(g, ref, order, skipNull)
    requires !IsEmpty(g, Vector(ref, order, skipNull, i))
    requires cur == SetRun(m, first, i, value)
    ensures i + 1 <= FirstEmpty(g, ref, order, skipNull)
    ensures cur[first + i := value] == SetRun(m, first, i + 1, value)
  {
    FirstEmptyMeans(g, ref, order, skipNull);
  }

  /** Where column_width / row_height stops, at the first empty vector or after the last
      one, the run covers exactly the vectors before the first empty one. */
  lemma RunEnd(g: Grid, m: map<nat, real>, cur: map<nat, real>, ref: RangeReference, order: MajorOrder, skipNull: bool, i: nat, first: nat, value: real)
    requires ref.Valid() && i <= FirstEmpty(g, ref, order, skipNull)
    requires i == Length(ref, order) || IsEmpty(g, Vector(ref, order, skipNull, i))
    requires cur == SetRun(m, first, i, value)
    ensures cur == SetRun(m, first, FirstEmpty(g, ref, order, skipNull), value)
  {
    FirstEmptyMeans(g, ref, order, skipNull);
  }

  /** The state of the column_width / row_height loop after i vectors: none of them is
      empty, the fronts of all of them have been handed out, and the run of values covers
      their major coordinates. */
  ghost predicate SizeLoop(g: Grid, cur: Grid, m: map<nat, real>, curM: map<nat, real>, ref: RangeReference,
                           order: MajorOrder, skipNull: bool, i: nat, value: real)
  {
    && ref.Valid() && i <= FirstEmpty(g, ref, order, skipNull) && i <= |FrontCells(ref, order)|
    && cur == FrontsStored(g, ref, order, skipNull, i)
    && curM == SetRun(m, Major(ref.topLeft, order), i, value)
  }

  /** Before the loop, no front has been handed out and no value set. */
  lemma SizeStart(g: Grid, m: map<nat, real>, ref: RangeReference, order: MajorOrder, skipNull: bool, value: real)
    requires ref.Valid()
    ensures SizeLoop(g, g, m, m, ref, order, skipNull, 0, value)
  {
  }

  /** One pass of the loop over a non-empty vector i, whose front is f: handing f out (cur
      becomes next) and setting the value at f's major coordinate (curM becomes nextM)
      extend the stored fronts and the run by one vector. */
  lemma SizeStep(g: Grid, cur: Grid, next: Grid, m: map<nat, real>, curM: map<nat, real>, nextM: map<nat, real>,
                 ref: RangeReference, order: MajorOrder, skipNull: bool, i: nat, value: real, f: CellReference)
    requires SizeLoop(g, cur, m, curM, ref, order, skipNull, i, value) && i < Length(ref, order)
    requires !IsEmpty(cur, Vector(ref, order, skipNull, i)) && f == Front(cur, Vector(ref, order, skipNull, i))
    requires next == cur[f := Get(cur, f)] && nextM == curM[Major(f, order) := value]
    ensures SizeLoop(g, next, m, nextM, ref, order, skipNull, i + 1, value)
  {
    FrontCellsAre(ref, order, ref.topLeft);
    FrontsKeepEmpty(g, cur, ref, order, skipNull, i);
    FrontStep(g, cur, ref, order, skipNull, i, f);
    RunStep(g, m, curM, ref, order, skipNull, i, Major(ref.topLeft, order), value);
  }

  /** Where the loop stops, at the first empty vector or after the last one, the run covers
      exactly the vectors before the first empty one and the fronts handed out are stored. */
  lemma SizeEnd(g: Grid, cur: Grid, m: map<nat, real>, curM: map<nat, real>, ref: RangeReference, order: MajorOrder,
                skipNull: bool, i: nat, value: real)
    requires SizeLoop(g, cur, m, curM, ref, order, skipNull, i, value)
    requires i == Length(ref, order) || IsEmpty(cur, Vector(ref, order, skipNull, i))
    ensures curM == SetRun(m, Major(ref.topLeft, order), FirstEmpty(g, ref, order, skipNull), value)
    ensures cur == if skipNull then g else Stored(g, Elements(FrontCells(ref, order)))
  {
    FrontCellsAre(ref, order, ref.topLeft);
    if i < Length(ref, order) {
      FrontsKeepEmpty(g, cur, ref, order, skipNull, i);
    }
    FrontsEnd(g, cur, ref, order, skipNull, i);
    RunEnd(g, m, curM, ref, order, skipNull, i, Major(ref.topLeft, order), value);
  }

  /** The stop at the first empty vector on a sparse column A1:A3 whose middle row is empty:
      row_height with skip-null sets the height of row 1 only, and row 3, which holds a
      cell, keeps whatever height it had. */
  lemma RowHeightStopsAtGap(m: map<nat, real>, height: real)
    ensures var ref := RangeReference(CellReference(1, 1), CellReference(1, 3));
      var g := map[CellReference(1, 1) := DefaultCell, CellReference(1, 3) := DefaultCell];
      var r := SetRun(m, ref.topLeft.row, FirstEmpty(g, ref, Row, true), height);
      && FirstEmpty(g, ref, Row, true) == 1
      && 1 in r && r[1] == height
      && (3 in r <==> 3 in m) && (3 in m ==> r[3] == m[3])
      && (2 in r <==> 2 in m)
  {
    var ref := RangeReference(CellReference(1, 1), CellReference(1, 3));
    var g := map[CellReference(1, 1) := DefaultCell, CellReference(1, 3) := DefaultCell];
    var v0 := Vector(ref, Row, true, 0);
    var v1 := Vector(ref, Row, true, 1);
    VectorCellsAt(v0);
    VectorCellsAt(v1);
    assert VectorCells(v0) == [CellReference(1, 1)];
    assert VectorCells(v1) == [CellReference(1, 2)];
    assert Visible(g, v0) == [CellReference(1, 1)];
    assert Visible(g, v1) == [];
    assert FirstEmptyFrom(g, ref, Row, true, 1) == 1;
    assert FirstEmpty(g, ref, Row, true) == 1;
    SetRunAt(m, 1, 1, height);
  }

  /** One cell of `apply`'s walk over vector i: visiting its j-th coordinate c (writing
      f of the cell there, or passing by under skip-null when none is stored) extends the
      sequential walk by one. */
  lemma ApplyStep(g: Grid, cur: Grid, ref: RangeReference, o: MajorOrder, skipNull: bool, i: nat, j: nat,
                  f: Cell -> Cell, c: CellReference)
    requires j < |VectorCells(Vector(ref, o, skipNull, i))| && c == VectorCells(Vector(ref, o, skipNull, i))[j]
    requires cur == WriteAlong(g, skipNull, WalkPrefix(ref, o, skipNull, i, j), f)
    ensures WriteAlong(g, skipNull, WalkPrefix(ref, o, skipNull, i, j + 1), f) ==
      if Visits(cur, skipNull, c) then cur[c := f(Get(cur, c))] else cur
  {
    WalkPrefixStep(ref, o, skipNull, i, j);
    WriteAlongStep(g, skipNull, WalkPrefix(ref, o, skipNull, i, j), c, f);
  }

  // ---------------------------------------------------------------------------
  // The range

  class Range {
    const ws: Worksheet
    const ref: RangeReference
    var order: MajorOrder
    const skipNull: bool

    constructor (ws: Worksheet, ref: RangeReference, order: MajorOrder, skipNull: bool)
      requires ref.Valid()
      ensures this.ws == ws && this.ref == ref && this.order == order && this.skipNull == skipNull
    {
      this.ws := ws;
      this.ref := ref;
      this.order := order;
      this.skipNull := skipNull;
    }

    /** `operator==`: same rectangle, same worksheet, same order; skip-null is not compared.
        Every range equals itself. */
    predicate Equals(other: Range): (eq: bool)
      reads this, other
      ensures this == other ==> eq
    {
      ref == other.ref && ws == other.ws && order == other.order
    }

    /** `operator!=`: the negation of `operator==`, so no range differs from itself. */
    predicate NotEquals(other: Range): (ne: bool)
      reads this, other
      ensures this == other ==> !ne
      ensures ne != Equals(other)
    {
      !Equals(other)
    }

    /** `clear_cells`: when the rectangle spans the worksheet's lowest to highest column it
        clears its rows one by one, otherwise its cells one by one; either way exactly the
        rectangle's cells are gone afterwards and every other cell is kept. */
    method ClearCells()
      requires ref.Valid()
      modifies ws
      ensures ws.cells == Removed(old(ws.cells), RectCells(ref))
      ensures ws.columnWidths == old(ws.columnWidths) && ws.rowHeights == old(ws.rowHeights)
    {
      var lowest := ws.LowestColumn();
      var highest := ws.HighestColumn();
      if ref.topLeft.column == lowest && ref.bottomRight.column == highest {
        ClearByRows();
      } else {
        ClearByCells();
      }
    }

    /** The first branch of clear_cells, taken when the rectangle spans every stored
        column: clear_row on each of its rows. */
    method ClearByRows()
      requires ref.Valid()
      requires forall c :: c in ws.cells ==> ref.topLeft.column <= c.column <= ref.bottomRight.column
      modifies ws
      ensures ws.cells == Removed(old(ws.cells), RectCells(ref))
      ensures ws.columnWidths == old(ws.columnWidths) && ws.rowHeights == old(ws.rowHeights)
    {
      var top := ref.topLeft.row;
      var row := top;
      while row <= ref.bottomRight.row
        invariant top <= row <= ref.bottomRight.row + 1
        invariant ws.cells == RowsRemoved(old(ws.cells), top, row)
        invariant ws.columnWidths == old(ws.columnWidths) && ws.rowHeights == old(ws.rowHeights)
      {
        RowsRemovedStep(old(ws.cells), ws.cells, top, row);
        ws.ClearRow(row);
        row := row + 1;
      }
      ClearBranchesAgree(old(ws.cells), ws.cells, ref);
    }

    /** The second branch of clear_cells: clear_cell on each coordinate, row by row. */
    method ClearByCells()
      requires ref.Valid()
      modifies ws
      ensures ws.cells == Removed(old(ws.cells), RectCells(ref))
      ensures ws.columnWidths == old(ws.columnWidths) && ws.rowHeights == old(ws.rowHeights)
    {
      var top := ref.topLeft.row;
      var row := top;
      ghost var i: nat := 0;
      while row <= ref.bottomRight.row
        invariant top <= row <= ref.bottomRight.row + 1 && row == top + i
        invariant ws.cells == RemoveAlong(old(ws.cells), Traversal(ref, Row, false, i))
        invariant ws.columnWidths == old(ws.columnWidths) && ws.rowHeights == old(ws.rowHeights)
      {
        ClearRowCells(row, i, old(ws.cells));
        row, i := row + 1, i + 1;
      }
      RemovedAlongWalk(old(ws.cells), ws.cells, ref, i);
    }

    /** The inner loop of clear_cells' second branch: the cells of one row of the
        rectangle, column by column. */
    method ClearRowCells(row: nat, ghost i: nat, ghost g: Grid)
      requires ref.Valid() && row == ref.topLeft.row + i && row <= ref.bottomRight.row
      requires ws.cells == RemoveAlong(g, Traversal(ref, Row, false, i))
      modifies ws
      ensures ws.cells == RemoveAlong(g, Traversal(ref, Row, false, i + 1))
      ensures ws.columnWidths == old(ws.columnWidths) && ws.rowHeights == old(ws.rowHeights)
    {
      var left := ref.topLeft.column;
      WalkPrefixStart(ref, Row, false, i);
      var column := left;
      ghost var j: nat := 0;
      while column <= ref.bottomRight.column
        invariant left <= column <= ref.bottomRight.column + 1 && column == left + j
        invariant ws.cells == RemoveAlong(g, WalkPrefix(ref, Row, false, i, j))
        invariant ws.columnWidths == old(ws.columnWidths) && ws.rowHeights == old(ws.rowHeights)
      {
        var c := CellReference(column, row);
        ClearCellStep(g, ws.cells, ref, i, j, c);
        ws.ClearCell(c);
        column, j := column + 1, j + 1;
      }
      WalkPrefixVector(ref, Row, false, i, j);
    }

    /** `apply(f)`: vector by vector in the range's order, f on every cell the vector
        yields. */
    method Apply(f: Cell -> Cell)
      requires ref.Valid()
      modifies ws
      ensures ws.cells == Applied(old(ws.cells), ref, skipNull, f)
      ensures ws.columnWidths == old(ws.columnWidths) && ws.rowHeights == old(ws.rowHeights)
    {
      var o := order;
      var i := 0;
      while i < Length(ref, o)
        invariant 0 <= i <= Length(ref, o)
        invariant ws.cells == WriteAlong(old(ws.cells), skipNull, Traversal(ref, o, skipNull, i), f)
        invariant ws.columnWidths == old(ws.columnWidths) && ws.rowHeights == old(ws.rowHeights)
      {
        ApplyVector(f, o, i, old(ws.cells));
        i := i + 1;
      }
      AppliedAlongWalk(old(ws.cells), ws.cells, ref, o, skipNull, f, i);
    }

    /** The inner loop of apply: f on every cell vector i yields. */
    method ApplyVector(f: Cell -> Cell, o: MajorOrder, i: nat, ghost g: Grid)
      requires ref.Valid() && i < Length(ref, o)
      requires ws.cells == WriteAlong(g, skipNull, Traversal(ref, o, skipNull, i), f)
      modifies ws
      ensures ws.cells == WriteAlong(g, skipNull, Traversal(ref, o, skipNull, i + 1), f)
      ensures ws.columnWidths == old(ws.columnWidths) && ws.rowHeights == old(ws.rowHeights)
    {
      var cells := VectorCells(Vector(ref, o, skipNull, i));
      WalkPrefixStart(ref, o, skipNull, i);
      var j := 0;
      while j < |cells|
        invariant 0 <= j <= |cells|
        invariant ws.cells == WriteAlong(g, skipNull, WalkPrefix(ref, o, skipNull, i, j), f)
        invariant ws.columnWidths == old(ws.columnWidths) && ws.rowHeights == old(ws.rowHeights)
      {
        var c := cells[j];
        ApplyStep(g, ws.cells, ref, o, skipNull, i, j, f, c);
        if !skipNull || ws.HasCell(c) {
          var cell := ws.CellAt(c);
          ws.WriteCell(c, f(cell));
        }
        j := j + 1;
      }
      WalkPrefixVector(ref, o, skipNull, i, j);
    }

    method SetAlignment(a: Alignment)
      requires ref.Valid()
      modifies ws
      ensures ws.cells == Applied(old(ws.cells), ref, skipNull, WithAlignment(a))
      ensures ws.columnWidths == old(ws.columnWidths) && ws.rowHeights == old(ws.rowHeights)
    {
      Apply(WithAlignment(a));
    }

    method SetBorder(b: Border)
      requires ref.Valid()
      modifies ws
      ensures ws.cells == Applied(old(ws.cells), ref, skipNull, WithBorder(b))
      ensures ws.columnWidths == old(ws.columnWidths) && ws.rowHeights == old(ws.rowHeights)
    {
      Apply(WithBorder(b));
    }

    method SetFill(f: Fill)
      requires ref.Valid()
      modifies ws
      ensures ws.cells == Applied(old(ws.cells), ref, skipNull, WithFill(f))
      ensures ws.columnWidths == old(ws.columnWidths) && ws.rowHeights == old(ws.rowHeights)
    {
      Apply(WithFill(f));
    }

    method SetFont(f: Font)
      requires ref.Valid()
      modifies ws
      ensures ws.cells == Applied(old(ws.cells), ref, skipNull, WithFont(f))
      ensures ws.columnWidths == old(ws.columnWidths) && ws.rowHeights == old(ws.rowHeights)
    {
      Apply(WithFont(f));
    }

    method SetFontSize(size: real)
      requires ref.Valid()
      modifies ws
      ensures ws.cells == Applied(old(ws.cells), ref, skipNull, WithFontSize(size))
      ensures ws.columnWidths == old(ws.columnWidths) && ws.rowHeights == old(ws.rowHeights)
    {
      Apply(WithFontSize(size));
    }

    method SetColor(color: real)
      requires ref.Valid()
      modifies ws
      ensures ws.cells == Applied(old(ws.cells), ref, skipNull, WithColor(color))
      ensures ws.columnWidths == old(ws.columnWidths) && ws.rowHeights == old(ws.rowHeights)
    {
      Apply(WithColor(color));
    }

    method ClearValue()
      requires ref.Valid()
      modifies ws
      ensures ws.cells == Applied(old(ws.cells), ref, skipNull, WithoutValue())
      ensures ws.columnWidths == old(ws.columnWidths) && ws.rowHeights == old(ws.rowHeights)
    {
      Apply(WithoutValue());
    }

    method SetNumberFormat(n: NumberFormat)
      requires ref.Valid()
      modifies ws
      ensures ws.cells == Applied(old(ws.cells), ref, skipNull, WithNumberFormat(n))
      ensures ws.columnWidths == old(ws.columnWidths) && ws.rowHeights == old(ws.rowHeights)
    {
      Apply(WithNumberFormat(n));
    }

    method SetProtection(p: Protection)
      requires ref.Valid()
      modifies ws
      ensures ws.cells == Applied(old(ws.cells), ref, skipNull, WithProtection(p))
      ensures ws.columnWidths == old(ws.columnWidths) && ws.rowHeights == old(ws.rowHeights)
    {
      Apply(WithProtection(p));
    }

    method SetStyle(s: Style)
      requires ref.Valid()
      modifies ws
      ensures ws.cells == Applied(old(ws.cells), ref, skipNull, WithStyle(s))
      ensures ws.columnWidths == old(ws.columnWidths) && ws.rowHeights == old(ws.rowHeights)
    {
      Apply(WithStyle(s));
    }

    /** The loop shared by both border_style overloads: for every cell the edge vector
        yields, read its border, edit the chosen side's style (failing, and stopping, when
        that side is undefined) and write the border back. */
    method EditEdge(v: CellVector, side: Option<BorderSide>, bs: BorderStyle) returns (ok: bool)
      requires v.skipNull == skipNull
      requires Distinct(VectorCells(v))
      modifies ws
      ensures ok == (FirstMissing(old(ws.cells), VectorCells(v), skipNull, side) == |VectorCells(v)|)
      ensures ws.cells == BorderEdited(old(ws.cells), VectorCells(v), skipNull, side, bs)
      ensures ws.columnWidths == old(ws.columnWidths) && ws.rowHeights == old(ws.rowHeights)
    {
      var cells := VectorCells(v);
      var i := 0;
      while i < |cells|
        invariant 0 <= i <= FirstMissing(old(ws.cells), cells, skipNull, side)
        invariant ws.cells == WriteAlong(old(ws.cells), skipNull, cells[..i], SideEdit(side, bs))
        invariant ws.columnWidths == old(ws.columnWidths) && ws.rowHeights == old(ws.rowHeights)
      {
        ghost var prev := ws.cells;
        var edited := EditCell(cells[i], side, bs);
        EditEdgeStep(old(ws.cells), prev, ws.cells, cells, skipNull, side, bs, i, edited);
        if !edited {
          return false;
        }
        i := i + 1;
      }
      BorderEditedAlong(old(ws.cells), ws.cells, VectorCells(v), skipNull, side, bs, i);
      assert i == FirstMissing(old(ws.cells), cells, skipNull, side);
      return true;
    }

    /** The body of border_style's loop for one cell: take the cell's handle (which stores
        it), read its border, edit the chosen side's style and write the border back.
        Reading an undefined side fails once the cell has been handed out, so the cell is
        then stored as it was. */
    method EditCell(c: CellReference, side: Option<BorderSide>, bs: BorderStyle) returns (ok: bool)
      modifies ws
      ensures ok == !(Visits(old(ws.cells), skipNull, c) && Lacks(side, Get(old(ws.cells), c)))
      ensures ws.cells == if Visits(old(ws.cells), skipNull, c)
        then old(ws.cells)[c := if ok then SideEdit(side, bs)(Get(old(ws.cells), c)) else Get(old(ws.cells), c)]
        else old(ws.cells)
      ensures ws.columnWidths == old(ws.columnWidths) && ws.rowHeights == old(ws.rowHeights)
    {
      if !skipNull || ws.HasCell(c) {
        var cell := ws.CellHandle(c);
        var border := cell.border;
        if side.Some? {
          if side.value !in border.sides {
            return false;
          }
          var bp := border.sides[side.value];
          border := border.(sides := border.sides[side.value := bp.(style := Some(bs))]);
        }
        ws.WriteCell(c, cell.(border := border));
      }
      return true;
    }

    /** `border_style(horizontal_alignment, border_style)`: edits the start side along the
        left column, the end side along the right column; for the other alignments it
        rewrites the left column's borders unchanged. Fails when a visited cell's side is
        undefined, leaving the cells before it edited. */
    method HorizontalBorderStyle(dir: HorizontalAlignment, bs: BorderStyle) returns (ok: bool)
      requires ref.Valid()
      modifies ws
      ensures var cells := VectorCells(HorizontalEdge(ref, skipNull, dir));
        && ok == (FirstMissing(old(ws.cells), cells, skipNull, SideForHorizontal(dir)) == |cells|)
        && ws.cells == BorderEdited(old(ws.cells), cells, skipNull, SideForHorizontal(dir), bs)
      ensures ws.columnWidths == old(ws.columnWidths) && ws.rowHeights == old(ws.rowHeights)
    {
      var v := HorizontalEdge(ref, skipNull, dir);
      VectorCellsExactly(v, ref.topLeft);
      ok := EditEdge(v, SideForHorizontal(dir), bs);
    }

    /** `border_style(vertical_alignment, border_style)`: edits the top side along the top
        row, the bottom side along the bottom row; for the other alignments it rewrites
        the top row's borders unchanged. Fails as the horizontal overload does. */
    method VerticalBorderStyle(dir: VerticalAlignment, bs: BorderStyle) returns (ok: bool)
      requires ref.Valid()
      modifies ws
      ensures var cells := VectorCells(VerticalEdge(ref, skipNull, dir));
        && ok == (FirstMissing(old(ws.cells), cells, skipNull, SideForVertical(dir)) == |cells|)
        && ws.cells == BorderEdited(old(ws.cells), cells, skipNull, SideForVertical(dir), bs)
      ensures ws.columnWidths == old(ws.columnWidths) && ws.rowHeights == old(ws.rowHeights)
    {
      var v := VerticalEdge(ref, skipNull, dir);
      VectorCellsExactly(v, ref.topLeft);
      ok := EditEdge(v, SideForVertical(dir), bs);
    }

    /** `column_width`: under Column order, sets the width of the columns of the vectors
        before the first empty one, then puts the original order back. */
    method ColumnWidth(width: real)
      requires ref.Valid()
      modifies this, ws
      ensures order == old(order)
      ensures ws.columnWidths ==
        SetRun(old(ws.columnWidths), ref.topLeft.column, FirstEmpty(old(ws.cells), ref, Column, skipNull), width)
      ensures ws.cells == if skipNull then old(ws.cells) else Stored(old(ws.cells), Elements(FrontCells(ref, Column)))
      ensures ws.rowHeights == old(ws.rowHeights)
    {
      var curOrder := order;
      order := Column;
      ghost var g, m := ws.cells, ws.columnWidths;
      SizeStart(g, m, ref, Column, skipNull, width);
      var i := 0;
      while i < Length(ref, Column)
        invariant order == Column
        invariant SizeLoop(g, ws.cells, m, ws.columnWidths, ref, Column, skipNull, i, width)
        invariant ws.rowHeights == old(ws.rowHeights)
      {
        var v := Vector(ref, Column, skipNull, i);
        if IsEmpty(ws.cells, v) {
          break;
        }
        var f := Front(ws.cells, v);
        ghost var cur, curM := ws.cells, ws.columnWidths;
        var front := ws.CellHandle(f);
        ws.SetColumnWidth(f.column, width);
        SizeStep(g, cur, ws.cells, m, curM, ws.columnWidths, ref, Column, skipNull, i, width, f);
        i := i + 1;
      }
      SizeEnd(g, ws.cells, m, ws.columnWidths, ref, Column, skipNull, i, width);
      order := curOrder;
    }

    /** `row_height`: under Row order, sets the height of the rows of the vectors before
        the first empty one, then puts the original order back. */
    method RowHeight(height: real)
      requires ref.Valid()
      modifies this, ws
      ensures order == old(order)
      ensures ws.rowHeights ==
        SetRun(old(ws.rowHeights), ref.topLeft.row, FirstEmpty(old(ws.cells), ref, Row, skipNull), height)
      ensures ws.cells == if skipNull then old(ws.cells) else Stored(old(ws.cells), Elements(FrontCells(ref, Row)))
      ensures ws.columnWidths == old(ws.columnWidths)
    {
      var curOrder := order;
      order := Row;
      ghost var g, m := ws.cells, ws.rowHeights;
      SizeStart(g, m, ref, Row, skipNull, height);
      var i := 0;
      while i < Length(ref, Row)
        invariant order == Row
        invariant SizeLoop(g, ws.cells, m, ws.rowHeights, ref, Row, skipNull, i, height)
        invariant ws.columnWidths == old(ws.columnWidths)
      {
        var v := Vector(ref, Row, skipNull, i);
        if IsEmpty(ws.cells, v) {
          break;
        }
        var f := Front(ws.cells, v);
        ghost var cur, curM := ws.cells, ws.rowHeights;
        var front := ws.CellHandle(f);
        ws.SetRowHeight(f.row, height);
        SizeStep(g, cur, ws.cells, m, curM, ws.rowHeights, ref, Row, skipNull, i, height, f);
        i := i + 1;
      }
      SizeEnd(g, ws.cells, m, ws.rowHeights, ref, Row, skipNull, i, height);
      order := curOrder;
    }
  }

  /** `operator==` is an equivalence (symmetric and transitive besides reflexive), and so
      `operator!=` is symmetric. */
  lemma EqualityIsEquivalence(a: Range, b: Range, c: Range)
    ensures a.Equals(b) == b.Equals(a) && a.NotEquals(b) == b.NotEquals(a)
    ensures a.Equals(b) && b.Equals(c) ==> a.Equals(c)
  {
  }

  /** Ranges that differ only in their skip-null flag compare equal, and `!=` is the
      negation of `==`. */
  lemma EqualityIgnoresSkipNull(a: Range, b: Range)
    requires a.ws == b.ws && a.ref == b.ref && a.order == b.order && a.skipNull != b.skipNull
    ensures a.Equals(b) && !a.NotEquals(b)
  {
  }
}
