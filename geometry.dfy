/** Coordinates and rectangles of a worksheet, and the integer geometry of a range:
    how many vectors it has, where each vector starts, its edge vectors, and
    which coordinates it contains. Everything here is a pure value computation. */
module Geometry {

  /** Under Row order the vectors of a range are its rows, under Column order its columns. */
  datatype MajorOrder = Row | Column

  /** A 1-based cell coordinate (column index, row). */
  datatype CellReference = CellReference(column: nat, row: nat)

  /** The inclusive rectangle spanned by a top-left and a bottom-right corner. */
  datatype RangeReference = RangeReference(topLeft: CellReference, bottomRight: CellReference) {
    predicate Valid() {
      1 <= topLeft.column <= bottomRight.column && 1 <= topLeft.row <= bottomRight.row
    }
  }

  datatype HorizontalAlignment = General | Left | Center | Right | Fill | Justify | CenterContinuous | Distributed

  datatype VerticalAlignment = Top | Center | Bottom | Justify | Distributed

  /** A row or column slice of a range: where it starts, the rectangle that bounds it,
      whether it is a row (Row) or a column (Column), and whether it skips absent cells. */
  datatype CellVector = CellVector(origin: CellReference, bounds: RangeReference, order: MajorOrder, skipNull: bool)

  function Other(order: MajorOrder): MajorOrder {
    if order == Row then Column else Row
  }

  /** The coordinate that the vector index advances: the row under Row order. */
  function Major(c: CellReference, order: MajorOrder): nat {
    if order == Row then c.row else c.column
  }

  /** The coordinate that moves along one vector: the column under Row order. */
  function Minor(c: CellReference, order: MajorOrder): nat {
    if order == Row then c.column else c.row
  }

  /** The coordinate with the given major and minor parts. */
  function At(order: MajorOrder, major: nat, minor: nat): (c: CellReference)
    ensures Major(c, order) == major && Minor(c, order) == minor
    ensures Major(c, Other(order)) == minor && Minor(c, Other(order)) == major
  {
    if order == Row then CellReference(minor, major) else CellReference(major, minor)
  }

  /** Inclusive containment on both axes: only a rectangle whose corners are in order
      contains anything, and then both of its corners are inside it. */
  predicate Contains(ref: RangeReference, c: CellReference): (b: bool)
    ensures b ==> ref.topLeft.column <= ref.bottomRight.column && ref.topLeft.row <= ref.bottomRight.row
    ensures ref.topLeft.column <= ref.bottomRight.column && ref.topLeft.row <= ref.bottomRight.row ==>
      (c == ref.topLeft || c == ref.bottomRight) ==> b
  {
    && ref.topLeft.column <= c.column
    && ref.bottomRight.column >= c.column
    && ref.topLeft.row <= c.row
    && ref.bottomRight.row >= c.row
  }

  /** Containment read along the axes of either order. */
  lemma ContainsByAxes(ref: RangeReference, order: MajorOrder, c: CellReference)
    ensures Contains(ref, c) <==>
      && Major(ref.topLeft, order) <= Major(c, order) <= Major(ref.bottomRight, order)
      && Minor(ref.topLeft, order) <= Minor(c, order) <= Minor(ref.bottomRight, order)
  {
  }

  /** The vector count: rows under Row order, columns under Column order. */
  function Length(ref: RangeReference, order: MajorOrder): (n: nat)
    requires ref.Valid()
    ensures n >= 1
    ensures n == Major(ref.bottomRight, order) - Major(ref.topLeft, order) + 1
  {
    if order == Row then
      ref.bottomRight.row - ref.topLeft.row + 1
    else
      ref.bottomRight.column - ref.topLeft.column + 1
  }

  /** The origin of vector i: the top-left corner with only the major coordinate
      advanced by i. No bounds check, as in the source. */
  function VectorOrigin(ref: RangeReference, order: MajorOrder, i: nat): (c: CellReference)
    ensures Major(c, order) == Major(ref.topLeft, order) + i
    ensures Minor(c, order) == Minor(ref.topLeft, order)
  {
    var cursor := ref.topLeft;
    if order == Row then cursor.(row := cursor.row + i)
    else cursor.(column := cursor.column + i)
  }

  /** Vector i of the range, as `operator[]` and `vector(i)` build it. */
  function Vector(ref: RangeReference, order: MajorOrder, skipNull: bool, i: nat): (v: CellVector)
    ensures v.bounds == ref && v.order == order && v.skipNull == skipNull
    ensures Major(v.origin, order) == Major(ref.topLeft, order) + i
    ensures Minor(v.origin, order) == Minor(ref.topLeft, order)
  {
    CellVector(VectorOrigin(ref, order, i), ref, order, skipNull)
  }

  /** The edge vector for a horizontal direction: a column; the rightmost one for Right,
      the leftmost one for every other alignment. */
  function HorizontalEdge(ref: RangeReference, skipNull: bool, dir: HorizontalAlignment): (v: CellVector)
    requires ref.Valid()
    ensures v.bounds == ref && v.order == Column && v.skipNull == skipNull
    ensures v.origin.row == ref.topLeft.row
    ensures v.origin.column == if dir == Right then ref.bottomRight.column else ref.topLeft.column
    ensures Contains(ref, v.origin)
  {
    var cursor := ref.topLeft;
    var cursor' :=
      if dir == Left then cursor.(column := cursor.column)
      else if dir == Right then cursor.(column := cursor.column + (ref.bottomRight.column - ref.topLeft.column))
      else cursor;
    CellVector(cursor', ref, Column, skipNull)
  }

  /** The edge vector for a vertical direction: a row; the bottom one for Bottom, the
      top one for every other alignment. */
  function VerticalEdge(ref: RangeReference, skipNull: bool, dir: VerticalAlignment): (v: CellVector)
    requires ref.Valid()
    ensures v.bounds == ref && v.order == Row && v.skipNull == skipNull
    ensures v.origin.column == ref.topLeft.column
    ensures v.origin.row == if dir == Bottom then ref.bottomRight.row else ref.topLeft.row
    ensures Contains(ref, v.origin)
  {
    var cursor := ref.topLeft;
    var cursor' :=
      if dir == Top then cursor
      else if dir == Bottom then cursor.(row := cursor.row + (ref.bottomRight.row - ref.topLeft.row))
      else cursor;
    CellVector(cursor', ref, Row, skipNull)
  }

  /** The coordinates a vector walks, before any skipping: from its origin to the end of
      its bounds along the minor axis, at the origin's major coordinate. */
  function VectorCells(v: CellVector): (s: seq<CellReference>)
    ensures Minor(v.origin, v.order) <= Minor(v.bounds.bottomRight, v.order) ==>
      |s| == Minor(v.bounds.bottomRight, v.order) - Minor(v.origin, v.order) + 1
  {
    var first := Minor(v.origin, v.order);
    var last := Minor(v.bounds.bottomRight, v.order);
    var n := if first <= last then last - first + 1 else 0;
    seq(n, j requires 0 <= j < n => At(v.order, Major(v.origin, v.order), first + j))
  }

  /** Element j of a vector is j places along the minor axis from its origin. */
  lemma VectorCellsAt(v: CellVector)
    ensures forall j :: 0 <= j < |VectorCells(v)| ==>
      VectorCells(v)[j] == At(v.order, Major(v.origin, v.order), Minor(v.origin, v.order) + j)
  {
  }

  /** Every coordinate of a sequence differs from every other. */
  predicate Distinct(s: seq<CellReference>) {
    forall i, j :: 0 <= i < j < |s| ==> s[i] != s[j]
  }

  /** In a sequence of distinct coordinates, an element does not occur before its position,
      and every prefix is itself distinct. */
  lemma DistinctPrefix(s: seq<CellReference>, i: nat)
    requires Distinct(s) && i < |s|
    ensures s[i] !in s[..i] && Distinct(s[..i])
  {
  }

  /** A vector of the range walks each coordinate once, and what it walks is exactly
      the part of the rectangle at the vector's major coordinate. */
  lemma VectorCellsExactly(v: CellVector, c: CellReference)
    requires v.bounds.Valid() && Contains(v.bounds, v.origin)
    requires Minor(v.origin, v.order) == Minor(v.bounds.topLeft, v.order)
    ensures Distinct(VectorCells(v))
    ensures c in VectorCells(v) <==> Contains(v.bounds, c) && Major(c, v.order) == Major(v.origin, v.order)
  {
    var s := VectorCells(v);
    VectorCellsAt(v);
    ContainsByAxes(v.bounds, v.order, c);
    ContainsByAxes(v.bounds, v.order, v.origin);
    if Contains(v.bounds, c) && Major(c, v.order) == Major(v.origin, v.order) {
      var j := Minor(c, v.order) - Minor(v.origin, v.order);
      assert s[j] == c;
    }
  }

  /** The left (or right) edge vector is exactly the leftmost (or rightmost) column of
      the rectangle. */
  lemma HorizontalEdgeCells(ref: RangeReference, skipNull: bool, dir: HorizontalAlignment, c: CellReference)
    requires ref.Valid()
    ensures c in VectorCells(HorizontalEdge(ref, skipNull, dir)) <==>
      Contains(ref, c) && c.column == if dir == Right then ref.bottomRight.column else ref.topLeft.column
  {
    VectorCellsExactly(HorizontalEdge(ref, skipNull, dir), c);
  }

  /** The top (or bottom) edge vector is exactly the top (or bottom) row of the rectangle. */
  lemma VerticalEdgeCells(ref: RangeReference, skipNull: bool, dir: VerticalAlignment, c: CellReference)
    requires ref.Valid()
    ensures c in VectorCells(VerticalEdge(ref, skipNull, dir)) <==>
      Contains(ref, c) && c.row == if dir == Bottom then ref.bottomRight.row else ref.topLeft.row
  {
    VectorCellsExactly(VerticalEdge(ref, skipNull, dir), c);
  }

  /** Vector i of the range walks exactly the part of the rectangle at major
      coordinate top-left + i, each coordinate once. */
  lemma VectorCellsOfRange(ref: RangeReference, order: MajorOrder, skipNull: bool, i: nat, c: CellReference)
    requires ref.Valid() && i < Length(ref, order)
    ensures Distinct(VectorCells(Vector(ref, order, skipNull, i)))
    ensures c in VectorCells(Vector(ref, order, skipNull, i)) <==>
      Contains(ref, c) && Major(c, order) == Major(ref.topLeft, order) + i
    ensures |VectorCells(Vector(ref, order, skipNull, i))| == Length(ref, Other(order))
  {
    var v := Vector(ref, order, skipNull, i);
    assert Contains(ref, VectorOrigin(ref, order, i));
    VectorCellsExactly(v, c);
    ContainsByAxes(ref, order, ref.bottomRight);
  }

  /** Every coordinate of the rectangle. */
  function RectCells(ref: RangeReference): (s: set<CellReference>)
    ensures forall c :: c in s <==> Contains(ref, c)
  {
    var s := set x: nat, y: nat |
      ref.topLeft.column <= x <= ref.bottomRight.column && ref.topLeft.row <= y <= ref.bottomRight.row
      :: CellReference(x, y);
    assert forall c :: Contains(ref, c) ==> c == CellReference(c.column, c.row);
    s
  }

  /** The coordinates of a sequence, as a set. */
  function Elements(s: seq<CellReference>): set<CellReference> {
    set c | c in s
  }

  /** The coordinates vectors 0 .. i-1 walk, vector after vector, before any skipping. */
  function Traversal(ref: RangeReference, order: MajorOrder, skipNull: bool, i: nat): seq<CellReference>
    decreases i
  {
    if i == 0 then [] else Traversal(ref, order, skipNull, i - 1) + VectorCells(Vector(ref, order, skipNull, i - 1))
  }

  /** The first i vectors walk each coordinate once, and what they walk is exactly the
      part of the rectangle before major coordinate top-left + i. */
  lemma {:induction false} TraversalCovers(ref: RangeReference, order: MajorOrder, skipNull: bool, i: nat)
    requires ref.Valid() && i <= Length(ref, order)
    ensures Distinct(Traversal(ref, order, skipNull, i))
    ensures forall c :: c in Traversal(ref, order, skipNull, i) <==>
      Contains(ref, c) && Major(c, order) < Major(ref.topLeft, order) + i
    decreases i
  {
    if i > 0 {
      TraversalCovers(ref, order, skipNull, i - 1);
      var a := Traversal(ref, order, skipNull, i - 1);
      var b := VectorCells(Vector(ref, order, skipNull, i - 1));
      var t := a + b;
      assert t == Traversal(ref, order, skipNull, i);
      VectorCellsOfRange(ref, order, skipNull, i - 1, ref.topLeft);
      forall c ensures c in b <==> Contains(ref, c) && Major(c, order) == Major(ref.topLeft, order) + i - 1 {
        VectorCellsOfRange(ref, order, skipNull, i - 1, c);
      }
      assert Distinct(b);
      forall p, q | 0 <= p < q < |t| ensures t[p] != t[q] {
        if q >= |a| && p < |a| {
          assert t[p] in a && t[q] in b;
        }
      }
    }
  }

  /** The coordinates walked once the walk stands at element j of vector i. */
  function WalkPrefix(ref: RangeReference, order: MajorOrder, skipNull: bool, i: nat, j: nat): seq<CellReference> {
    var cells := VectorCells(Vector(ref, order, skipNull, i));
    Traversal(ref, order, skipNull, i) + cells[..if j <= |cells| then j else |cells|]
  }

  lemma WalkPrefixStart(ref: RangeReference, order: MajorOrder, skipNull: bool, i: nat)
    ensures WalkPrefix(ref, order, skipNull, i, 0) == Traversal(ref, order, skipNull, i)
  {
  }

  /** One element further along vector i. */
  lemma WalkPrefixStep(ref: RangeReference, order: MajorOrder, skipNull: bool, i: nat, j: nat)
    requires j < |VectorCells(Vector(ref, order, skipNull, i))|
    ensures WalkPrefix(ref, order, skipNull, i, j + 1) ==
      WalkPrefix(ref, order, skipNull, i, j) + [VectorCells(Vector(ref, order, skipNull, i))[j]]
  {
    var cells := VectorCells(Vector(ref, order, skipNull, i));
    assert cells[..j + 1] == cells[..j] + [cells[j]];
  }

  /** The end of vector i is the start of vector i + 1. */
  lemma WalkPrefixVector(ref: RangeReference, order: MajorOrder, skipNull: bool, i: nat, j: nat)
    requires ref.Valid() && i < Length(ref, order)
    requires j == |VectorCells(Vector(ref, order, skipNull, i))| || j == Length(ref, Other(order))
    ensures WalkPrefix(ref, order, skipNull, i, j) == Traversal(ref, order, skipNull, i + 1)
  {
    var cells := VectorCells(Vector(ref, order, skipNull, i));
    VectorCellsOfRange(ref, order, skipNull, i, ref.topLeft);
    assert cells[..|cells|] == cells;
  }

  /** Walking every vector walks every coordinate of the rectangle exactly once. */
  lemma TraversalAll(ref: RangeReference, order: MajorOrder, skipNull: bool)
    requires ref.Valid()
    ensures Distinct(Traversal(ref, order, skipNull, Length(ref, order)))
    ensures Elements(Traversal(ref, order, skipNull, Length(ref, order))) == RectCells(ref)
  {
    TraversalCovers(ref, order, skipNull, Length(ref, order));
    forall c | Contains(ref, c) ensures Major(c, order) < Major(ref.topLeft, order) + Length(ref, order) {
      ContainsByAxes(ref, order, c);
      ContainsByAxes(ref, order, ref.bottomRight);
    }
  }
}
