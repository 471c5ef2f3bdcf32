/** Conversions between areas of the plane (in metres) and rectangles of cells, in exact arithmetic. */
module CellAreas {
  import opened CellRects

  /** 2 to the power -23. */
  const FLT_EPSILON: real := 1.0 / 8388608.0

  datatype Area = Area(x: real, y: real, width: real, height: real) {

    /** The far end on the x axis; a non-positive width counts as none. */
    function XMax(): real {
      if 0.0 < width then x + width else x
    }

    function YMax(): real {
      if 0.0 < height then y + height else y
    }

    predicate IsEmpty() {
      width <= FLT_EPSILON && height <= FLT_EPSILON
    }
  }

  const ZERO_AREA := Area(0.0, 0.0, 0.0, 0.0)

  function Length(resolution: real, cells: int): real {
    resolution * cells as real
  }

  function AreaOf(resolution: real, r: Rect): Area {
    Area(Length(resolution, r.x), Length(resolution, r.y), Length(resolution, r.width), Length(resolution, r.height))
  }

  function Abs(v: real): real {
    if v < 0.0 then -v else v
  }

  /** Rounding half away from zero. */
  function Round(v: real): int {
    if 0.0 <= v then (v + 0.5).Floor else -(0.5 - v).Floor
  }

  function InCells(resolution: real, length: real): real
    requires 0.0 < resolution
  {
    length / resolution
  }

  function RoundCell(resolution: real, length: real): int
    requires 0.0 < resolution
  {
    Round(InCells(resolution, length))
  }

  function FloorCell(resolution: real, length: real): int
    requires 0.0 < resolution
  {
    InCells(resolution, length).Floor
  }

  /** The result is at most one half away, halves go away from zero, and the sign does not matter. */
  lemma RoundIsNearest(v: real)
    ensures Abs(Round(v) as real - v) <= 0.5
    ensures Abs(Round(v) as real - v) == 0.5 ==> Abs(v) < Abs(Round(v) as real)
    ensures Round(-v) == -Round(v)
  {
  }

  /** No cell starts nearer to the position than this one, and of two equally near ones this is the farther from 0. */
  ghost predicate IsNearestCell(resolution: real, v: real, cell: int) {
    forall other: int :: other != cell ==>
      || Abs(Length(resolution, cell) - v) < Abs(Length(resolution, other) - v)
      || (Abs(Length(resolution, cell) - v) == Abs(Length(resolution, other) - v)
          && Abs(Length(resolution, other)) < Abs(Length(resolution, cell)))
  }

  lemma Scale(k: real, a: real, b: real)
    requires 0.0 < k
    ensures a <= b <==> k * a <= k * b
    ensures a < b <==> k * a < k * b
  {
  }

  lemma AbsScales(k: real, a: real)
    requires 0.0 < k
    ensures Abs(k * a) == k * Abs(a)
  {
    Scale(k, a, 0.0);
  }

  lemma LengthOfInCells(resolution: real, v: real)
    requires 0.0 < resolution
    ensures resolution * InCells(resolution, v) == v
  {
  }

  lemma AbsLength(resolution: real, cell: int)
    requires 0.0 < resolution
    ensures Abs(Length(resolution, cell)) == resolution * Abs(cell as real)
  {
    AbsScales(resolution, cell as real);
  }

  /** A distance in metres is the resolution times the distance in cells. */
  lemma DistanceInCells(resolution: real, v: real, cell: int)
    requires 0.0 < resolution
    ensures Abs(Length(resolution, cell) - v) == resolution * Abs(cell as real - InCells(resolution, v))
  {
    LengthOfInCells(resolution, v);
    var d := cell as real - InCells(resolution, v);
    assert resolution * d == Length(resolution, cell) - v;
    AbsScales(resolution, d);
  }

  lemma NearerNumber(q: real, cell: int, other: int)
    requires cell == Round(q) && other != cell
    ensures Abs(cell as real - q) < Abs(other as real - q)
            || (Abs(cell as real - q) == Abs(other as real - q) && Abs(other as real) < Abs(cell as real))
  {
    RoundIsNearest(q);
    if cell < other {
      assert (cell + 1) as real <= other as real;
    } else {
      assert (other + 1) as real <= cell as real;
    }
  }

  lemma NearerInCells(resolution: real, v: real, cell: int, other: int, q: real)
    requires 0.0 < resolution && q == InCells(resolution, v) && cell == Round(q) && other != cell
    ensures Abs(Length(resolution, cell) - v) < Abs(Length(resolution, other) - v)
            || (Abs(Length(resolution, cell) - v) == Abs(Length(resolution, other) - v)
                && Abs(Length(resolution, other)) < Abs(Length(resolution, cell)))
  {
    hide Round, Abs, Length, InCells;
    DistanceInCells(resolution, v, cell);
    DistanceInCells(resolution, v, other);
    Scale(resolution, Abs(cell as real - q), Abs(other as real - q));
    AbsLength(resolution, cell);
    AbsLength(resolution, other);
    Scale(resolution, Abs(other as real), Abs(cell as real));
    NearerNumber(q, cell, other);
  }

  /** Rounding to cells takes the nearest one, at most half a cell away, on both sides of 0. */
  lemma RoundCellIsNearest(resolution: real, v: real)
    requires 0.0 < resolution
    ensures IsNearestCell(resolution, v, RoundCell(resolution, v))
    ensures Abs(Length(resolution, RoundCell(resolution, v)) - v) <= resolution / 2.0
  {
    hide Round, Abs, Length, InCells;
    var q, cell := InCells(resolution, v), RoundCell(resolution, v);
    RoundIsNearest(q);
    DistanceInCells(resolution, v, cell);
    Scale(resolution, Abs(cell as real - q), 0.5);
    forall other: int | other != cell
      ensures Abs(Length(resolution, cell) - v) < Abs(Length(resolution, other) - v)
              || (Abs(Length(resolution, cell) - v) == Abs(Length(resolution, other) - v)
                  && Abs(Length(resolution, other)) < Abs(Length(resolution, cell)))
    {
      NearerInCells(resolution, v, cell, other, q);
    }
  }

  function Rounded(resolution: real, a: Area): Rect
    requires 0.0 < resolution
  {
    Rect(RoundCell(resolution, a.x), RoundCell(resolution, a.y), RoundCell(resolution, a.width), RoundCell(resolution, a.height))
  }

  /** Each field of the rounded rectangle is the nearest whole number of cells to that of the area. */
  lemma RoundedIsNearest(resolution: real, a: Area)
    requires 0.0 < resolution
    ensures var r := Rounded(resolution, a);
            && IsNearestCell(resolution, a.x, r.x) && Abs(Length(resolution, r.x) - a.x) <= resolution / 2.0
            && IsNearestCell(resolution, a.y, r.y) && Abs(Length(resolution, r.y) - a.y) <= resolution / 2.0
            && IsNearestCell(resolution, a.width, r.width) && Abs(Length(resolution, r.width) - a.width) <= resolution / 2.0
            && IsNearestCell(resolution, a.height, r.height) && Abs(Length(resolution, r.height) - a.height) <= resolution / 2.0
  {
    RoundCellIsNearest(resolution, a.x);
    RoundCellIsNearest(resolution, a.y);
    RoundCellIsNearest(resolution, a.width);
    RoundCellIsNearest(resolution, a.height);
  }

  lemma InCellsOfLength(resolution: real, n: int)
    requires 0.0 < resolution
    ensures InCells(resolution, Length(resolution, n)) == n as real
  {
  }

  lemma WholeCells(resolution: real, n: int)
    requires 0.0 < resolution
    ensures RoundCell(resolution, Length(resolution, n)) == n
    ensures FloorCell(resolution, Length(resolution, n)) == n
  {
    InCellsOfLength(resolution, n);
  }

  /** A cell rectangle survives the trip to an area and back. */
  lemma RoundedInvertsAreaOf(resolution: real, r: Rect)
    requires 0.0 < resolution
    ensures Rounded(resolution, AreaOf(resolution, r)) == r
  {
    WholeCells(resolution, r.x);
    WholeCells(resolution, r.y);
    WholeCells(resolution, r.width);
    WholeCells(resolution, r.height);
  }

  /** The first cell of an axis, corrected from a quotient floor that may be too large. */
  function FirstIndex(resolution: real, min: real, floored: int): int {
    if min < Length(resolution, floored) then floored - 1 else floored
  }

  /** The last cell of an axis, corrected from a quotient floor that may be too small. */
  function LastIndex(resolution: real, max: real, floored: int): int {
    if Length(resolution, floored + 1) < max then floored + 1 else floored
  }

  /** The four floored quotients of an area's ends. */
  datatype Quotients = Quotients(xMin: int, yMin: int, xMax: int, yMax: int)

  function ExactQuotients(resolution: real, a: Area): Quotients
    requires 0.0 < resolution
  {
    Quotients(FloorCell(resolution, a.x), FloorCell(resolution, a.y), FloorCell(resolution, a.XMax()), FloorCell(resolution, a.YMax()))
  }

  function MinBoundingFrom(resolution: real, a: Area, q: Quotients): Rect {
    var xMin := FirstIndex(resolution, a.x, q.xMin);
    var yMin := FirstIndex(resolution, a.y, q.yMin);
    var xMax := LastIndex(resolution, a.XMax(), q.xMax);
    var yMax := LastIndex(resolution, a.YMax(), q.yMax);
    Rect(xMin, yMin, xMax - xMin + 1, yMax - yMin + 1)
  }

  function MinBounding(resolution: real, a: Area): Rect
    requires 0.0 < resolution
  {
    MinBoundingFrom(resolution, a, ExactQuotients(resolution, a))
  }

  lemma NextLength(resolution: real, n: int)
    ensures Length(resolution, n + 1) == Length(resolution, n) + resolution
  {
    assert (n + 1) as real == n as real + 1.0;
  }

  lemma FloorBounds(resolution: real, v: real)
    requires 0.0 < resolution
    ensures Length(resolution, FloorCell(resolution, v)) <= v < Length(resolution, FloorCell(resolution, v) + 1)
  {
    var quotient, cell := InCells(resolution, v), FloorCell(resolution, v);
    LengthOfInCells(resolution, v);
    Scale(resolution, cell as real, quotient);
    NextLength(resolution, cell);
    assert resolution * quotient < Length(resolution, cell) + resolution by {
      Scale(resolution, quotient, cell as real + 1.0);
      assert quotient < cell as real + 1.0;
    }
  }

  lemma LengthOrder(resolution: real, a: int, b: int)
    requires 0.0 < resolution
    ensures a <= b <==> Length(resolution, a) <= Length(resolution, b)
  {
    Scale(resolution, a as real, b as real);
  }

  /** The half-open cells from lo to hi inclusive cover the closed interval [min, max]. */
  ghost predicate CoversClosed(resolution: real, lo: int, hi: int, min: real, max: real) {
    Length(resolution, lo) <= min && max < Length(resolution, hi + 1)
  }

  /** The same, with the far end allowed to touch the last cell's edge. */
  ghost predicate CoversHalfOpen(resolution: real, lo: int, hi: int, min: real, max: real) {
    Length(resolution, lo) <= min && max <= Length(resolution, hi + 1)
  }

  lemma AxisIsLeast(resolution: real, min: real, max: real, lo: int, hi: int)
    requires 0.0 < resolution
    ensures FirstIndex(resolution, min, FloorCell(resolution, min)) == FloorCell(resolution, min)
    ensures LastIndex(resolution, max, FloorCell(resolution, max)) == FloorCell(resolution, max)
    ensures CoversClosed(resolution, lo, hi, min, max) <==> lo <= FloorCell(resolution, min) && FloorCell(resolution, max) <= hi
  {
    FloorBounds(resolution, min);
    FloorBounds(resolution, max);
    var a, b := FloorCell(resolution, min), FloorCell(resolution, max);
    LengthOrder(resolution, lo, a);
    LengthOrder(resolution, lo, a + 1);
    LengthOrder(resolution, hi + 1, b + 1);
    LengthOrder(resolution, hi + 1, b);
  }

  ghost predicate RectCoversArea(resolution: real, r: Rect, a: Area) {
    && CoversClosed(resolution, r.x, r.XEnd() - 1, a.x, a.x + if 0.0 < a.width then a.width else 0.0)
    && CoversClosed(resolution, r.y, r.YEnd() - 1, a.y, a.y + if 0.0 < a.height then a.height else 0.0)
  }

  lemma FloorMonotone(resolution: real, v: real, w: real)
    requires 0.0 < resolution && v <= w
    ensures FloorCell(resolution, v) <= FloorCell(resolution, w)
  {
    FloorBounds(resolution, v);
    FloorBounds(resolution, w);
    LengthOrder(resolution, FloorCell(resolution, w) + 1, FloorCell(resolution, v));
  }

  /** With exact quotients the result is the least rectangle whose cells cover the closed area. */
  lemma MinBoundingIsLeastCover(resolution: real, a: Area, r: Rect)
    requires 0.0 < resolution
    ensures !MinBounding(resolution, a).IsEmpty()
    ensures RectCoversArea(resolution, r, a) <==> r.Contains(MinBounding(resolution, a))
  {
    AxisIsLeast(resolution, a.x, a.XMax(), r.x, r.XEnd() - 1);
    AxisIsLeast(resolution, a.y, a.YMax(), r.y, r.YEnd() - 1);
    FloorMonotone(resolution, a.x, a.XMax());
    FloorMonotone(resolution, a.y, a.YMax());
  }

  lemma AxisOfCells(resolution: real, start: int, size: int)
    requires 0.0 < resolution && 0 < size
    ensures Length(resolution, start) + Length(resolution, size) == Length(resolution, start + size)
    ensures 0.0 < Length(resolution, size)
  {
    Scale(resolution, 0.0, size as real);
    assert (start + size) as real == start as real + size as real;
  }

  /** On the area of a non-empty cell rectangle the closed far edge costs one more column and row. */
  lemma MinBoundingOfCellArea(resolution: real, r: Rect)
    requires 0.0 < resolution && !r.IsEmpty()
    ensures MinBounding(resolution, AreaOf(resolution, r)) == Rect(r.x, r.y, r.width + 1, r.height + 1)
  {
    var a := AreaOf(resolution, r);
    AxisOfCells(resolution, r.x, r.width);
    AxisOfCells(resolution, r.y, r.height);
    assert a.XMax() == Length(resolution, r.XEnd()) && a.YMax() == Length(resolution, r.YEnd());
    AxisIsLeast(resolution, a.x, a.XMax(), 0, 0);
    AxisIsLeast(resolution, a.y, a.YMax(), 0, 0);
    WholeCells(resolution, r.x);
    WholeCells(resolution, r.y);
    WholeCells(resolution, r.XEnd());
    WholeCells(resolution, r.YEnd());
  }

  /** A quotient floor that is off by one in either direction. */
  ghost predicate OffByOne(resolution: real, v: real, floored: int)
    requires 0.0 < resolution
  {
    var exact := FloorCell(resolution, v);
    exact - 1 <= floored <= exact + 1
  }

  lemma AxisCorrection(resolution: real, min: real, max: real, qMin: int, qMax: int)
    requires 0.0 < resolution && min < max
    requires OffByOne(resolution, min, qMin) && OffByOne(resolution, max, qMax)
    ensures var lo, hi := FirstIndex(resolution, min, qMin), LastIndex(resolution, max, qMax);
            lo <= hi && CoversHalfOpen(resolution, lo, hi, min, max)
  {
    FloorBounds(resolution, min);
    FloorBounds(resolution, max);
    FloorMonotone(resolution, min, max);
    var a, b := FloorCell(resolution, min), FloorCell(resolution, max);
    LengthOrder(resolution, a - 1, a);
    LengthOrder(resolution, b + 1, b + 2);
    LengthOrder(resolution, b, b + 1);
    LengthOrder(resolution, a, b);
  }

  /** The correction branches: quotients off by one still yield a cover of the half-open area. */
  lemma MinBoundingToleratesOffByOne(resolution: real, a: Area, q: Quotients)
    requires 0.0 < resolution && 0.0 < a.width && 0.0 < a.height
    requires OffByOne(resolution, a.x, q.xMin) && OffByOne(resolution, a.y, q.yMin)
    requires OffByOne(resolution, a.XMax(), q.xMax) && OffByOne(resolution, a.YMax(), q.yMax)
    ensures var r := MinBoundingFrom(resolution, a, q);
            && !r.IsEmpty()
            && CoversHalfOpen(resolution, r.x, r.XEnd() - 1, a.x, a.XMax())
            && CoversHalfOpen(resolution, r.y, r.YEnd() - 1, a.y, a.YMax())
  {
    AxisCorrection(resolution, a.x, a.XMax(), q.xMin, q.xMax);
    AxisCorrection(resolution, a.y, a.YMax(), q.yMin, q.yMax);
  }
}
