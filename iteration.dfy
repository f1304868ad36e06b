/** The cursors of a range: the forward iterators returned by begin/end (and their const
    twins cbegin/cend), the reverse iterators built from them, front/back, and the
    cell lookup `cell(ref)`. An iterator stands on the origin of a vector and steps one
    vector along the major axis. */
module Iteration {
  import opened Geometry

  datatype RangeIterator = RangeIterator(cursor: CellReference, bounds: RangeReference, order: MajorOrder, skipNull: bool)

  /** A reverse iterator over a base forward iterator: it yields the vector just before
      its base and steps by moving its base backwards. */
  datatype ReverseIterator = ReverseIterator(base: RangeIterator)

  /** `begin`/`cbegin`: the cursor on the top-left corner. */
  function Begin(ref: RangeReference, order: MajorOrder, skipNull: bool): (it: RangeIterator)
    ensures it.cursor == VectorOrigin(ref, order, 0)
  {
    RangeIterator(ref.topLeft, ref, order, skipNull)
  }

  /** `end`/`cend`: the cursor one vector past the last one, outside the rectangle. */
  function End(ref: RangeReference, order: MajorOrder, skipNull: bool): (it: RangeIterator)
    requires ref.Valid()
    ensures it.cursor == VectorOrigin(ref, order, Length(ref, order))
    ensures !Contains(ref, it.cursor)
  {
    var cursor := ref.topLeft;
    var cursor' :=
      if order == Row then cursor.(row := ref.bottomRight.row + 1)
      else cursor.(column := ref.bottomRight.column + 1);
    RangeIterator(cursor', ref, order, skipNull)
  }

  /** `++it`: the next vector along the major axis. */
  function Next(it: RangeIterator): RangeIterator {
    var c := it.cursor;
    it.(cursor := if it.order == Row then c.(row := c.row + 1) else c.(column := c.column + 1))
  }

  /** `--it`: the previous vector along the major axis. */
  function Prev(it: RangeIterator): (r: RangeIterator)
    requires Major(it.cursor, it.order) >= 1
    ensures Next(r) == it
  {
    var c := it.cursor;
    it.(cursor := if it.order == Row then c.(row := c.row - 1) else c.(column := c.column - 1))
  }

  /** `*it`: the vector the iterator stands on. */
  function Deref(it: RangeIterator): CellVector {
    CellVector(it.cursor, it.bounds, it.order, it.skipNull)
  }

  /** The iterator reached after n steps. */
  function Advance(it: RangeIterator, n: nat): RangeIterator
    decreases n
  {
    if n == 0 then it else Advance(Next(it), n - 1)
  }

  /** The vectors yielded by n steps from it, in order. */
  function Walk(it: RangeIterator, n: nat): seq<CellVector>
    decreases n
  {
    if n == 0 then [] else [Deref(it)] + Walk(Next(it), n - 1)
  }

  lemma {:induction false} AdvanceFrom(ref: RangeReference, order: MajorOrder, skipNull: bool, i: nat, n: nat)
    ensures Advance(RangeIterator(VectorOrigin(ref, order, i), ref, order, skipNull), n)
         == RangeIterator(VectorOrigin(ref, order, i + n), ref, order, skipNull)
    decreases n
  {
    if n > 0 {
      var it := RangeIterator(VectorOrigin(ref, order, i), ref, order, skipNull);
      assert Next(it) == RangeIterator(VectorOrigin(ref, order, i + 1), ref, order, skipNull);
      AdvanceFrom(ref, order, skipNull, i + 1, n - 1);
    }
  }

  lemma {:induction false} WalkFrom(ref: RangeReference, order: MajorOrder, skipNull: bool, i: nat, n: nat)
    ensures var w := Walk(RangeIterator(VectorOrigin(ref, order, i), ref, order, skipNull), n);
      |w| == n && forall k :: 0 <= k < n ==> w[k] == Vector(ref, order, skipNull, i + k)
    decreases n
  {
    if n > 0 {
      var it := RangeIterator(VectorOrigin(ref, order, i), ref, order, skipNull);
      assert Next(it) == RangeIterator(VectorOrigin(ref, order, i + 1), ref, order, skipNull);
      WalkFrom(ref, order, skipNull, i + 1, n - 1);
    }
  }

  /** Stepping from begin reaches end after exactly length() steps and not before, and the
      vectors met on the way are vector(0), ..., vector(length() - 1) in that order. */
  lemma ForwardTraversal(ref: RangeReference, order: MajorOrder, skipNull: bool)
    requires ref.Valid()
    ensures Advance(Begin(ref, order, skipNull), Length(ref, order)) == End(ref, order, skipNull)
    ensures forall k :: 0 <= k < Length(ref, order) ==>
      Advance(Begin(ref, order, skipNull), k) != End(ref, order, skipNull)
    ensures var w := Walk(Begin(ref, order, skipNull), Length(ref, order));
      |w| == Length(ref, order) &&
      forall k :: 0 <= k < |w| ==> w[k] == Vector(ref, order, skipNull, k)
  {
    var n := Length(ref, order);
    AdvanceFrom(ref, order, skipNull, 0, n);
    forall k | 0 <= k < n ensures Advance(Begin(ref, order, skipNull), k) != End(ref, order, skipNull) {
      AdvanceFrom(ref, order, skipNull, 0, k);
    }
    WalkFrom(ref, order, skipNull, 0, n);
  }

  /** `rbegin`/`crbegin`: the reverse iterator over end; what it yields first is the last
      vector. */
  function RBegin(ref: RangeReference, order: MajorOrder, skipNull: bool): (r: ReverseIterator)
    requires ref.Valid()
    ensures Major(r.base.cursor, r.base.order) >= 1
    ensures RDeref(r) == Vector(ref, order, skipNull, Length(ref, order) - 1)
  {
    ReverseIterator(End(ref, order, skipNull))
  }

  /** `rend`/`crend`: the reverse iterator over begin, which is where length() reverse
      steps from rbegin arrive. */
  function REnd(ref: RangeReference, order: MajorOrder, skipNull: bool): (r: ReverseIterator)
    requires ref.Valid()
    ensures r == RAdvance(RBegin(ref, order, skipNull), Length(ref, order))
  {
    RWalkFrom(ref, order, skipNull, Length(ref, order), Length(ref, order));
    ReverseIterator(Begin(ref, order, skipNull))
  }

  function RDeref(r: ReverseIterator): CellVector
    requires Major(r.base.cursor, r.base.order) >= 1
  {
    Deref(Prev(r.base))
  }

  function RNext(r: ReverseIterator): ReverseIterator
    requires Major(r.base.cursor, r.base.order) >= 1
  {
    ReverseIterator(Prev(r.base))
  }

  /** The vectors yielded by n reverse steps from r, in order. */
  function RWalk(r: ReverseIterator, n: nat): seq<CellVector>
    requires Major(r.base.cursor, r.base.order) >= n
    decreases n
  {
    if n == 0 then [] else [RDeref(r)] + RWalk(RNext(r), n - 1)
  }

  /** The reverse iterator reached after n reverse steps. */
  function RAdvance(r: ReverseIterator, n: nat): ReverseIterator
    requires Major(r.base.cursor, r.base.order) >= n
    decreases n
  {
    if n == 0 then r else RAdvance(RNext(r), n - 1)
  }

  lemma {:induction false} RWalkFrom(ref: RangeReference, order: MajorOrder, skipNull: bool, i: nat, n: nat)
    requires n <= i
    requires Major(ref.topLeft, order) >= 1
    ensures var r := ReverseIterator(RangeIterator(VectorOrigin(ref, order, i), ref, order, skipNull));
      var w := RWalk(r, n);
      && |w| == n && (forall k :: 0 <= k < n ==> w[k] == Vector(ref, order, skipNull, i - 1 - k))
      && RAdvance(r, n) == ReverseIterator(RangeIterator(VectorOrigin(ref, order, i - n), ref, order, skipNull))
    decreases n
  {
    if n > 0 {
      var r := ReverseIterator(RangeIterator(VectorOrigin(ref, order, i), ref, order, skipNull));
      assert RNext(r) == ReverseIterator(RangeIterator(VectorOrigin(ref, order, i - 1), ref, order, skipNull));
      RWalkFrom(ref, order, skipNull, i - 1, n - 1);
    }
  }

  /** Reverse traversal from rbegin meets vector(length() - 1), ..., vector(0) in that
      order, and after length() steps it stands at rend. */
  lemma ReverseTraversal(ref: RangeReference, order: MajorOrder, skipNull: bool)
    requires ref.Valid()
    ensures RAdvance(RBegin(ref, order, skipNull), Length(ref, order)) == REnd(ref, order, skipNull)
    ensures var w := RWalk(RBegin(ref, order, skipNull), Length(ref, order));
      |w| == Length(ref, order) &&
      forall k :: 0 <= k < |w| ==> w[k] == Vector(ref, order, skipNull, Length(ref, order) - 1 - k)
  {
    RWalkFrom(ref, order, skipNull, Length(ref, order), Length(ref, order));
  }

  /** `front()`: the vector at begin, which is vector(0). */
  function FrontVector(ref: RangeReference, order: MajorOrder, skipNull: bool): (v: CellVector)
    ensures v == Vector(ref, order, skipNull, 0)
  {
    Deref(Begin(ref, order, skipNull))
  }

  /** `back()`: the vector before end, which is the last vector, vector(length() - 1),
      and also what rbegin yields. */
  function BackVector(ref: RangeReference, order: MajorOrder, skipNull: bool): (v: CellVector)
    requires ref.Valid()
    ensures v == Vector(ref, order, skipNull, Length(ref, order) - 1)
    ensures v == RDeref(RBegin(ref, order, skipNull))
    ensures Contains(ref, v.origin)
  {
    Deref(Prev(End(ref, order, skipNull)))
  }

  /** `cell(ref)`: element (column - 1) of vector (row - 1). The row of the argument picks
      the vector and its column the element within it, counted from 1 and not from the
      range's top-left corner, under either order. */
  function CellOf(ref: RangeReference, order: MajorOrder, target: CellReference): (c: CellReference)
    requires target.column >= 1 && target.row >= 1
    ensures Major(c, order) == Major(ref.topLeft, order) + target.row - 1
    ensures Minor(c, order) == Minor(ref.topLeft, order) + target.column - 1
  {
    var v := Vector(ref, order, false, target.row - 1);
    At(order, Major(v.origin, order), Minor(v.origin, order) + (target.column - 1))
  }

  /** For a range anchored at A1, `cell(ref)` is the cell itself under Row order and its
      transpose under Column order. */
  lemma CellOfAnchoredAtA1(ref: RangeReference, order: MajorOrder, target: CellReference)
    requires ref.topLeft == CellReference(1, 1)
    requires target.column >= 1 && target.row >= 1
    ensures order == Row ==> CellOf(ref, order, target) == target
    ensures order == Column ==> CellOf(ref, order, target) == CellReference(target.row, target.column)
  {
  }
}
