/** The cell record stored in a worksheet and the grid of stored cells, with the
    value-level operations the range builds on: reading a cell (a default one where
    nothing is stored), updating or removing a set of coordinates, and the walk of a
    cell vector that skips absent cells. */
module Cells {
  import opened Geometry

  datatype Option<T> = None | Some(value: T)

  datatype Color = Color(argb: string)

  const White := Color("ffffffff")

  /** The line styles of a border side; NoLine is xlnt's border_style::none. */
  datatype BorderStyle =
    | NoLine | DashDot | DashDotDot | Dashed | Dotted | Double | Hair | Medium
    | MediumDashDot | MediumDashDotDot | MediumDashed | SlantDashDot | Thick | Thin

  datatype BorderSide = StartSide | EndSide | TopSide | BottomSide | DiagonalSide | VerticalSide | HorizontalSide

  datatype BorderProperty = BorderProperty(style: Option<BorderStyle>, color: Option<Color>)

  /** A border; a side missing from the map is a side left undefined. */
  datatype Border = Border(sides: map<BorderSide, BorderProperty>)

  datatype PatternFillType = NoPattern | Solid | OtherPattern(name: string)

  datatype Fill = PatternFill(patternType: PatternFillType, background: Color) | GradientFill(degree: int)

  datatype Font = Font(name: string, size: real, bold: bool)

  datatype Alignment = Alignment(horizontal: Option<HorizontalAlignment>, vertical: Option<VerticalAlignment>, wrap: bool)

  datatype NumberFormat = NumberFormat(id: nat, code: string)

  datatype Protection = Protection(locked: bool, hidden: bool)

  datatype Style = Style(name: string, fill: Fill)

  datatype CellValue = Null | Number(n: real) | Text(s: string) | Boolean(b: bool)

  datatype Cell = Cell(
    value: CellValue, alignment: Alignment, border: Border, fill: Fill, font: Font,
    numberFormat: NumberFormat, protection: Protection, style: Style)

  /** The fill that `color` writes into a cell's style: no pattern on a white background. */
  const NoneWhiteFill := PatternFill(NoPattern, White)

  /** The record a coordinate reads as when no cell is stored there. */
  const DefaultCell := Cell(
    Null, Alignment(None, None, false), Border(map[]), NoneWhiteFill,
    Font("Calibri", 11.0, false), NumberFormat(0, "General"), Protection(true, false),
    Style("Normal", NoneWhiteFill))

  /** The stored cells of a worksheet, by coordinate. */
  type Grid = map<CellReference, Cell>

  /** The cell at c; reading an absent coordinate yields the default cell. */
  function Get(g: Grid, c: CellReference): Cell {
    if c in g then g[c] else DefaultCell
  }

  /** The grid after f has been applied to the cell at every coordinate of s. Coordinates of
      s with no stored cell are stored from then on, as writing a cell materialises it. */
  function UpdatedAt(g: Grid, s: set<CellReference>, f: Cell -> Cell): (r: Grid)
    ensures r.Keys == g.Keys + s
    ensures forall c :: c in s ==> r[c] == f(Get(g, c))
    ensures forall c :: c in g && c !in s ==> r[c] == g[c]
  {
    map c | c in g.Keys + s :: if c in s then f(Get(g, c)) else g[c]
  }

  /** The grid with the cells at s removed. */
  function Removed(g: Grid, s: set<CellReference>): (r: Grid)
    ensures r.Keys == g.Keys - s
    ensures forall c :: c in r ==> r[c] == g[c]
  {
    map c | c in g && c !in s :: g[c]
  }

  /** Whether a walk over g with the given skip flag visits coordinate c. */
  predicate Visits(g: Grid, skipNull: bool, c: CellReference) {
    !skipNull || c in g
  }

  /** The coordinates of s that a walk visits: all of them, or with skipNull only those
      holding a stored cell. */
  function Touched(g: Grid, skipNull: bool, s: set<CellReference>): (t: set<CellReference>)
    ensures t <= s
    ensures forall c :: c in s ==> (c in t <==> Visits(g, skipNull, c))
  {
    set c | c in s && Visits(g, skipNull, c)
  }

  /** One more coordinate c passed by a walk: it is visited exactly when Visits says so. */
  lemma TouchedStep(g: Grid, skipNull: bool, s: set<CellReference>, c: CellReference)
    ensures Touched(g, skipNull, s + {c}) ==
      if Visits(g, skipNull, c) then Touched(g, skipNull, s) + {c} else Touched(g, skipNull, s)
  {
  }

  /** Applying f at one more coordinate c, given the cell there has not been written yet. */
  lemma UpdatedAtStep(g: Grid, s: set<CellReference>, f: Cell -> Cell, c: CellReference)
    requires c !in s
    ensures UpdatedAt(g, s + {c}, f) == UpdatedAt(g, s, f)[c := f(Get(g, c))]
  {
    var a := UpdatedAt(g, s + {c}, f);
    var b := UpdatedAt(g, s, f)[c := f(Get(g, c))];
    assert a.Keys == b.Keys;
    forall x | x in a ensures a[x] == b[x] {
    }
  }

  /** Removing one more coordinate c. */
  lemma RemovedStep(g: Grid, s: set<CellReference>, c: CellReference)
    ensures Removed(g, s + {c}) == Removed(g, s) - {c}
  {
    assert Removed(g, s + {c}).Keys == (Removed(g, s) - {c}).Keys;
  }

  /** The coordinates of s kept by the skip rule, in order. */
  function Filter(g: Grid, skipNull: bool, s: seq<CellReference>): (r: seq<CellReference>)
    ensures |r| <= |s|
    ensures !skipNull ==> r == s
  {
    if s == [] then []
    else if Visits(g, skipNull, s[0]) then [s[0]] + Filter(g, skipNull, s[1..])
    else Filter(g, skipNull, s[1..])
  }

  /** The filter keeps exactly the coordinates of s the walk visits. */
  lemma {:induction false} FilterMeans(g: Grid, skipNull: bool, s: seq<CellReference>)
    ensures forall c :: c in Filter(g, skipNull, s) <==> c in s && Visits(g, skipNull, c)
  {
    if s != [] {
      FilterMeans(g, skipNull, s[1..]);
      assert forall c :: c in s <==> c == s[0] || c in s[1..];
    }
  }

  /** The cells a cell vector yields, in order: with skip-null only the stored ones. */
  function Visible(g: Grid, v: CellVector): seq<CellReference> {
    Filter(g, v.skipNull, VectorCells(v))
  }

  /** A vector is empty when its walk yields no cell: only possible with skip-null, when
      none of its coordinates holds a stored cell. */
  predicate IsEmpty(g: Grid, v: CellVector) {
    Visible(g, v) == []
  }

  lemma EmptyMeans(g: Grid, v: CellVector)
    requires |VectorCells(v)| > 0
    ensures IsEmpty(g, v) <==> v.skipNull && forall c :: c in VectorCells(v) ==> c !in g
  {
    FilterMeans(g, v.skipNull, VectorCells(v));
    if !v.skipNull {
      assert VectorCells(v)[0] in Visible(g, v);
    } else if !IsEmpty(g, v) {
      assert Visible(g, v)[0] in Visible(g, v);
    }
  }

  /** The first cell a non-empty vector yields: one of its own coordinates, so it shares
      the vector's major coordinate. */
  function Front(g: Grid, v: CellVector): (c: CellReference)
    requires !IsEmpty(g, v)
    ensures c in VectorCells(v) && Visits(g, v.skipNull, c)
    ensures Major(c, v.order) == Major(v.origin, v.order)
  {
    var c := Visible(g, v)[0];
    FilterMeans(g, v.skipNull, VectorCells(v));
    assert c in Visible(g, v);
    VectorCellsAt(v);
    c
  }

  /** The grid after a walk along cs that, at every coordinate it visits, replaces the
      cell with f of the cell found there, one coordinate after the other. */
  function WriteAlong(g: Grid, skipNull: bool, cs: seq<CellReference>, f: Cell -> Cell): Grid
    decreases |cs|
  {
    if cs == [] then g
    else
      var prev := WriteAlong(g, skipNull, cs[..|cs| - 1], f);
      var c := cs[|cs| - 1];
      if Visits(prev, skipNull, c) then prev[c := f(Get(prev, c))] else prev
  }

  /** One more coordinate written. */
  lemma WriteAlongStep(g: Grid, skipNull: bool, cs: seq<CellReference>, c: CellReference, f: Cell -> Cell)
    ensures var prev := WriteAlong(g, skipNull, cs, f);
      WriteAlong(g, skipNull, cs + [c], f) == if Visits(prev, skipNull, c) then prev[c := f(Get(prev, c))] else prev
  {
    assert (cs + [c])[..|cs|] == cs;
  }

  /** A coordinate the walk has not reached yet still holds its original cell. */
  lemma {:induction false} WriteAlongElsewhere(g: Grid, skipNull: bool, cs: seq<CellReference>, f: Cell -> Cell, c: CellReference)
    requires c !in cs
    ensures var r := WriteAlong(g, skipNull, cs, f);
      (c in r <==> c in g) && Get(r, c) == Get(g, c)
    decreases |cs|
  {
    if cs != [] {
      WriteAlongElsewhere(g, skipNull, cs[..|cs| - 1], f, c);
    }
  }

  /** Along coordinates that are all different, writing one coordinate after the other is
      applying f once at every visited coordinate: no write sees another's result. */
  lemma {:induction false} WriteAlongIsUpdatedAt(g: Grid, skipNull: bool, cs: seq<CellReference>, f: Cell -> Cell)
    requires Distinct(cs)
    ensures WriteAlong(g, skipNull, cs, f) == UpdatedAt(g, Touched(g, skipNull, Elements(cs)), f)
    decreases |cs|
  {
    if cs == [] {
      assert Elements(cs) == {};
      assert UpdatedAt(g, {}, f) == g;
    } else {
      var p := cs[..|cs| - 1];
      var c := cs[|cs| - 1];
      assert cs == p + [c];
      assert Distinct(p);
      assert c !in p;
      WriteAlongIsUpdatedAt(g, skipNull, p, f);
      var done := Touched(g, skipNull, Elements(p));
      assert Elements(cs) == Elements(p) + {c};
      assert c !in done;
      TouchedStep(g, skipNull, Elements(p), c);
      UpdatedAtStep(g, done, f, c);
    }
  }

  /** The grid after removing the cell at every coordinate of cs, one after the other. */
  function RemoveAlong(g: Grid, cs: seq<CellReference>): Grid
    decreases |cs|
  {
    if cs == [] then g else RemoveAlong(g, cs[..|cs| - 1]) - {cs[|cs| - 1]}
  }

  /** One more coordinate removed. */
  lemma RemoveAlongStep(g: Grid, cs: seq<CellReference>, c: CellReference)
    ensures RemoveAlong(g, cs + [c]) == RemoveAlong(g, cs) - {c}
  {
    assert (cs + [c])[..|cs|] == cs;
  }

  /** Removing one coordinate after the other removes exactly the coordinates walked. */
  lemma {:induction false} RemoveAlongIsRemoved(g: Grid, cs: seq<CellReference>)
    ensures RemoveAlong(g, cs) == Removed(g, Elements(cs))
    decreases |cs|
  {
    if cs == [] {
      assert Removed(g, {}) == g;
    } else {
      var p := cs[..|cs| - 1];
      var c := cs[|cs| - 1];
      assert cs == p + [c];
      assert Elements(cs) == Elements(p) + {c};
      RemoveAlongIsRemoved(g, p);
      RemovedStep(g, Elements(p), c);
    }
  }
}
