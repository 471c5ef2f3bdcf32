/** The map holder as a value: one row-major buffer that stands for a total function from cells to bytes. */
module HolderSpec {
  import opened CellRects
  import opened Alignment
  import opened CellAreas
  import opened Arithmetic

  type byte = b: int | 0 <= b < 256

  /** Offset of a cell in the row-major buffer of a rectangle. */
  function Index(r: Rect, x: int, y: int): int {
    (y - r.y) * r.width + (x - r.x)
  }

  lemma IndexInBounds(r: Rect, x: int, y: int)
    requires r.HasCell(x, y)
    ensures 0 <= Index(r, x, y) < r.width * r.height
  {
    assert (y - r.y + 1) * r.width <= r.height * r.width;
  }

  lemma IndexDifference(r: Rect, x0: int, y0: int, x: int, y: int)
    ensures Index(r, x, y) - Index(r, x0, y0) == (y - y0) * r.width + (x - x0)
  {
  }

  /** The cells of one row segment are exactly the offsets of one stretch of the buffer. */
  lemma RowSegment(r: Rect, x0: int, y0: int, count: int, x: int, y: int)
    requires r.HasCell(x0, y0) && x0 + count <= r.XEnd() && r.HasCell(x, y)
    ensures Index(r, x0, y0) <= Index(r, x, y) < Index(r, x0, y0) + count <==> y == y0 && x0 <= x < x0 + count
  {
    IndexDifference(r, x0, y0, x, y);
    Multiples(y - y0, r.width);
  }

  /** Every offset of the buffer belongs to one cell. */
  lemma Unflatten(r: Rect, k: int)
    requires 0 < r.width && 0 <= k < r.width * r.height
    ensures var x, y := r.x + k % r.width, r.y + k / r.width; r.HasCell(x, y) && Index(r, x, y) == k
  {
    assert k == k / r.width * r.width + k % r.width;
    assert (k / r.width - r.height) * r.width == k / r.width * r.width - r.height * r.width;
    Multiples(k / r.width - r.height, r.width);
  }

  lemma Quotient(rows: int, column: int, width: int)
    requires 0 <= column < width
    ensures (rows * width + column) / width == rows && (rows * width + column) % width == column
  {
    var k := rows * width + column;
    var q := k / width;
    assert k == q * width + k % width;
    assert (q - rows) * width == q * width - rows * width;
    Multiples(q - rows, width);
  }

  lemma Flatten(r: Rect, x: int, y: int)
    requires r.HasCell(x, y)
    ensures Index(r, x, y) / r.width == y - r.y && Index(r, x, y) % r.width == x - r.x
  {
    Quotient(y - r.y, x - r.x, r.width);
  }

  /** The buffer that shows the function g on the rectangle r. */
  function Raster<T>(r: Rect, g: (int, int) -> T): (d: seq<T>)
    requires 0 <= r.width && 0 <= r.height
    ensures |d| == r.width * r.height
  {
    seq(r.width * r.height, k requires 0 <= k < r.width * r.height => g(r.x + k % r.width, r.y + k / r.width))
  }

  lemma RasterAt<T>(r: Rect, g: (int, int) -> T, x: int, y: int)
    requires r.HasCell(x, y)
    ensures 0 <= Index(r, x, y) < r.width * r.height
    ensures Raster(r, g)[Index(r, x, y)] == g(x, y)
  {
    IndexInBounds(r, x, y);
    Flatten(r, x, y);
  }

  /** A buffer is determined by what it shows at every cell. */
  lemma RasterUnique<T>(r: Rect, g: (int, int) -> T, d: seq<T>)
    requires 0 <= r.width && 0 <= r.height && |d| == r.width * r.height
    requires forall x, y :: r.HasCell(x, y) ==> 0 <= Index(r, x, y) < |d| && d[Index(r, x, y)] == g(x, y)
    ensures d == Raster(r, g)
  {
    forall k | 0 <= k < |d|
      ensures d[k] == Raster(r, g)[k]
    {
      Unflatten(r, k);
    }
  }

  /** The buffer d with a stretch replaced, as copying a block of bytes leaves it. */
  function Splice<T>(d: seq<T>, at: int, row: seq<T>): (r: seq<T>)
    requires 0 <= at && at + |row| <= |d|
    ensures |r| == |d|
  {
    d[..at] + row + d[at + |row|..]
  }

  /** Splicing a row segment changes exactly the cells of that segment. */
  lemma SpliceRow<T>(r: Rect, d: seq<T>, x0: int, y0: int, row: seq<T>)
    requires |d| == r.width * r.height && r.HasCell(x0, y0) && x0 + |row| <= r.XEnd() && 0 < |row|
    ensures 0 <= Index(r, x0, y0) && Index(r, x0, y0) + |row| <= |d|
    ensures forall x, y :: r.HasCell(x, y) ==>
              && 0 <= Index(r, x, y) < |d|
              && Splice(d, Index(r, x0, y0), row)[Index(r, x, y)]
                 == if y == y0 && x0 <= x < x0 + |row| then row[x - x0] else d[Index(r, x, y)]
  {
    IndexInBounds(r, x0, y0);
    IndexInBounds(r, x0 + |row| - 1, y0);
    forall x, y | r.HasCell(x, y)
      ensures 0 <= Index(r, x, y) < |d|
      ensures Splice(d, Index(r, x0, y0), row)[Index(r, x, y)]
              == if y == y0 && x0 <= x < x0 + |row| then row[x - x0] else d[Index(r, x, y)]
    {
      IndexInBounds(r, x, y);
      RowSegment(r, x0, y0, |row|, x, y);
      IndexDifference(r, x0, y0, x, y);
    }
  }

  datatype HolderState = HolderState(more: int, resolution: real, avail: Rect, valid: Rect, dat: seq<byte>)

  ghost predicate Shaped(s: HolderState) {
    0 <= s.avail.width && 0 <= s.avail.height && |s.dat| == s.avail.width * s.avail.height
  }

  /** The byte the holder stands for at a cell; unknown space is 0. */
  ghost function Cell(s: HolderState, x: int, y: int): byte
    requires Shaped(s)
  {
    if s.avail.HasCell(x, y) then
      IndexInBounds(s.avail, x, y);
      s.dat[Index(s.avail, x, y)]
    else
      0
  }

  ghost predicate BlankOutsideValid(s: HolderState)
    requires Shaped(s)
  {
    forall x, y :: !s.valid.HasCell(x, y) ==> Cell(s, x, y) == 0
  }

  /** The representation invariant. */
  ghost predicate Good(s: HolderState) {
    && Shaped(s)
    && 0 <= s.more
    && FLT_EPSILON < s.resolution
    && IsAligned(s.avail)
    && (s.avail.IsEmpty() ==> s.avail == ZERO_RECT)
    && (if s.valid.IsEmpty() then s.valid == ZERO_RECT else s.avail.Contains(s.valid))
    && BlankOutsideValid(s)
  }

  ghost function Cleared(s: HolderState): HolderState {
    s.(avail := ZERO_RECT, valid := ZERO_RECT, dat := [])
  }

  lemma ClearedIsBlank(s: HolderState)
    requires 0 <= s.more && FLT_EPSILON < s.resolution
    ensures Good(Cleared(s)) && forall x, y :: Cell(Cleared(s), x, y) == 0
  {
  }

  ghost function ReinitTo(s: HolderState, resolution: real): HolderState {
    Cleared(s).(resolution := resolution)
  }

  /** Reallocating to cover r keeps every cell. */
  ghost function Reserved(s: HolderState, r: Rect): HolderState
    requires Shaped(s)
  {
    if r.IsEmpty() || s.avail.Contains(r) then
      s
    else
      var avail := Adjusted(s.avail.Merge(r));
      AdjustedIsLeastAligned(s.avail.Merge(r), ZERO_RECT);
      s.(avail := avail, dat := Raster(avail, (x, y) => Cell(s, x, y)))
  }

  lemma ReservedKeepsCells(s: HolderState, r: Rect)
    requires Good(s)
    ensures Good(Reserved(s, r))
    ensures forall x, y :: Cell(Reserved(s, r), x, y) == Cell(s, x, y)
    ensures r.IsEmpty() || Reserved(s, r).avail.Contains(r)
    ensures s.avail.IsEmpty() || Reserved(s, r).avail.Contains(s.avail)
  {
    if !r.IsEmpty() && !s.avail.Contains(r) {
      var t, m := Reserved(s, r), s.avail.Merge(r);
      AdjustedIsLeastAligned(m, ZERO_RECT);
      if !s.avail.IsEmpty() {
        MergeIsLeastUpperBound(s.avail, r, t.avail);
      }
      forall x, y
        ensures Cell(t, x, y) == Cell(s, x, y)
      {
        if t.avail.HasCell(x, y) {
          RasterAt(t.avail, (a, b) => Cell(s, a, b), x, y);
        }
      }
    }
  }

  function ExtensionStart(start: int, upStart: int, more: int): int {
    if upStart < start then upStart - more else start
  }

  function ExtensionEnd(end: int, upEnd: int, more: int): int {
    if end < upEnd then upEnd + more else end
  }

  /** The rectangle asked for when a write does not fit: each exceeded side moves out by `more` extra cells. */
  function ExtensionRect(avail: Rect, up: Rect, more: int): Rect {
    var xMin := ExtensionStart(avail.x, up.x, more);
    var yMin := ExtensionStart(avail.y, up.y, more);
    var xEnd := ExtensionEnd(avail.XEnd(), up.XEnd(), more);
    var yEnd := ExtensionEnd(avail.YEnd(), up.YEnd(), more);
    Rect(xMin, yMin, xEnd - xMin, yEnd - yMin)
  }

  /** What an exceeded axis gains. */
  function Gain(start: int, end: int, upStart: int, upEnd: int, more: int): int {
    if upStart < start || end < upEnd then more + 1 else 0
  }

  lemma AxisGain(start: int, size: int, upStart: int, upSize: int, more: int)
    requires 0 <= more && 0 <= size && 0 < upSize
    ensures var s, e := ExtensionStart(start, upStart, more), ExtensionEnd(start + size, upStart + upSize, more);
            && s <= start && start + size <= e && s <= upStart && upStart + upSize <= e
            && size + Gain(start, start + size, upStart, upStart + upSize, more) <= e - s
  {
  }

  lemma ExtensionGains(avail: Rect, up: Rect, more: int)
    requires 0 <= more && 0 <= avail.width && 0 <= avail.height && !up.IsEmpty()
    ensures var e := ExtensionRect(avail, up, more);
            && 0 < e.width && 0 < e.height
            && e.x <= avail.x && avail.XEnd() <= e.XEnd() && e.y <= avail.y && avail.YEnd() <= e.YEnd()
            && avail.width + Gain(avail.x, avail.XEnd(), up.x, up.XEnd(), more) <= e.width
            && avail.height + Gain(avail.y, avail.YEnd(), up.y, up.YEnd(), more) <= e.height
  {
    AxisGain(avail.x, avail.width, up.x, up.width, more);
    AxisGain(avail.y, avail.height, up.y, up.height, more);
  }

  ghost function Extended(s: HolderState, up: Rect): HolderState
    requires Shaped(s)
  {
    if up.IsEmpty() || s.avail.Contains(up) then s else Reserved(s, ExtensionRect(s.avail, up, s.more))
  }

  lemma ExtensionContains(avail: Rect, up: Rect, more: int)
    requires 0 <= more && 0 <= avail.width && 0 <= avail.height && !up.IsEmpty()
    ensures ExtensionRect(avail, up, more).Contains(up)
  {
    AxisGain(avail.x, avail.width, up.x, up.width, more);
    AxisGain(avail.y, avail.height, up.y, up.height, more);
  }

  lemma ContainsTransitive(a: Rect, b: Rect, c: Rect)
    requires a.Contains(b) && b.Contains(c) && !c.IsEmpty()
    ensures a.Contains(c)
  {
  }

  lemma ReservedKeepsCellsFor(s: HolderState, r: Rect, up: Rect)
    requires Good(s) && r.Contains(up) && !up.IsEmpty()
    ensures Good(Reserved(s, r))
    ensures forall x, y :: Cell(Reserved(s, r), x, y) == Cell(s, x, y)
    ensures Reserved(s, r).avail.Contains(up)
    ensures s.avail.IsEmpty() || Reserved(s, r).avail.Contains(s.avail)
  {
    ReservedKeepsCells(s, r);
    ContainsTransitive(Reserved(s, r).avail, r, up);
  }

  lemma ExtendedKeepsCells(s: HolderState, up: Rect)
    requires Good(s)
    ensures Good(Extended(s, up))
    ensures forall x, y :: Cell(Extended(s, up), x, y) == Cell(s, x, y)
    ensures up.IsEmpty() || Extended(s, up).avail.Contains(up)
    ensures s.avail.IsEmpty() || Extended(s, up).avail.Contains(s.avail)
  {
    if !up.IsEmpty() && !s.avail.Contains(up) {
      ExtensionContains(s.avail, up, s.more);
      ReservedKeepsCellsFor(s, ExtensionRect(s.avail, up, s.more), up);
    }
  }

  ghost function Overwrite(s: HolderState, up: Rect, src: seq<byte>, x: int, y: int): byte
    requires Shaped(s) && up.width * up.height <= |src|
  {
    if up.HasCell(x, y) then
      IndexInBounds(up, x, y);
      src[Index(up, x, y)]
    else
      Cell(s, x, y)
  }

  /** Overwriting the non-empty rectangle up with the row-major bytes src. */
  ghost function Written(s: HolderState, up: Rect, src: seq<byte>): HolderState
    requires Good(s) && !up.IsEmpty() && up.width * up.height <= |src|
  {
    ExtendedKeepsCells(s, up);
    var e := Extended(s, up);
    e.(valid := s.valid.Merge(up), dat := Raster(e.avail, (x, y) => Overwrite(s, up, src, x, y)))
  }

  lemma WrittenCell(s: HolderState, up: Rect, src: seq<byte>, x: int, y: int)
    requires Good(s) && !up.IsEmpty() && up.width * up.height <= |src|
    ensures Shaped(Written(s, up, src)) && Cell(Written(s, up, src), x, y) == Overwrite(s, up, src, x, y)
  {
    ExtendedKeepsCells(s, up);
    var e, t := Extended(s, up), Written(s, up, src);
    if t.avail.HasCell(x, y) {
      RasterAt(t.avail, (a, b) => Overwrite(s, up, src, a, b), x, y);
    } else {
      assert Cell(e, x, y) == Cell(s, x, y);
    }
  }

  lemma OverwriteOutside(s: HolderState, up: Rect, src: seq<byte>, x: int, y: int)
    requires Good(s) && up.width * up.height <= |src| && !up.IsEmpty() && !s.valid.Merge(up).HasCell(x, y)
    ensures Overwrite(s, up, src, x, y) == 0
  {
  }

  lemma MergedInside(avail: Rect, before: Rect, valid: Rect, up: Rect)
    requires avail.Contains(up) && !up.IsEmpty()
    requires !valid.IsEmpty() ==> before.Contains(valid) && avail.Contains(before)
    ensures avail.Contains(valid.Merge(up)) && !valid.Merge(up).IsEmpty()
  {
    if !valid.IsEmpty() {
      MergeIsLeastUpperBound(valid, up, avail);
      ContainsTransitive(avail, before, valid);
    }
  }

  lemma WrittenCells(s: HolderState, up: Rect, src: seq<byte>)
    requires Good(s) && !up.IsEmpty() && up.width * up.height <= |src|
    ensures Shaped(Written(s, up, src)) && BlankOutsideValid(Written(s, up, src))
    ensures forall x, y :: Cell(Written(s, up, src), x, y) == Overwrite(s, up, src, x, y)
  {
    assert Shaped(s);
    hide Cell, Overwrite, Good, Extended;
    ExtendedKeepsCells(s, up);
    var t := Written(s, up, src);
    forall x, y
      ensures Shaped(t) && Cell(t, x, y) == Overwrite(s, up, src, x, y)
      ensures !t.valid.HasCell(x, y) ==> Cell(t, x, y) == 0
    {
      WrittenCell(s, up, src, x, y);
      if !t.valid.HasCell(x, y) {
        OverwriteOutside(s, up, src, x, y);
      }
    }
    WrittenCell(s, up, src, 0, 0);
  }

  /** A write is a pointwise overwrite of exactly its rectangle, and keeps the invariant. */
  lemma WrittenIsOverwrite(s: HolderState, up: Rect, src: seq<byte>)
    requires Good(s) && !up.IsEmpty() && up.width * up.height <= |src|
    ensures Good(Written(s, up, src))
    ensures forall x, y :: Cell(Written(s, up, src), x, y) == Overwrite(s, up, src, x, y)
    ensures Written(s, up, src).valid == s.valid.Merge(up)
    ensures Written(s, up, src).resolution == s.resolution && Written(s, up, src).more == s.more
  {
    hide BlankOutsideValid, Cell, Overwrite, Rect.Merge;
    ExtendedKeepsCells(s, up);
    WrittenCells(s, up, src);
    MergedInside(Extended(s, up).avail, s.avail, s.valid, up);
  }
}
