/** The map holder itself: fields updated in place, proved against the value specification. */
module MapHolder {
  import opened CellRects
  import opened Alignment
  import opened CellAreas
  import opened HolderSpec

  const DEFAULT_RESOLUTION: real := 0.05
  const DEFAULT_MORE := 32

  /** A map received from the platform; NullMap is the empty handle. */
  datatype MapMsg =
    | NullMap
    | MapMsg(x: real, y: real, resX: real, resY: real, dimX: int, dimY: int, data: seq<byte>)

  datatype MapError = InvalidResolution | InconsistentResolution | ResolutionDiffersOnAxes | TooFewCells

  datatype SetOutcome = Done | Threw(error: MapError)

  /** Float equality up to FLT_EPSILON. */
  predicate Fequal(a: real, b: real) {
    -FLT_EPSILON < a - b < FLT_EPSILON
  }

  function CheckResolutionEquality(a: real, b: real): SetOutcome {
    if !Fequal(a, b) then
      Threw(InconsistentResolution)
    else if a <= FLT_EPSILON || b <= FLT_EPSILON then
      Threw(InvalidResolution)
    else
      Done
  }

  /** The cells a block of dimX by dimY bytes at position (x, y) goes to. */
  function BlockRect(resolution: real, x: real, y: real, dimX: int, dimY: int): Rect
    requires 0.0 < resolution
  {
    Rect(RoundCell(resolution, x), RoundCell(resolution, y), dimX, dimY)
  }

  /** State after, and outcome of, storing one block. */
  ghost function BlockStored(s: HolderState, x: real, y: real, resolution: real, dimX: int, dimY: int, src: seq<byte>)
    : (SetOutcome, HolderState)
    requires Good(s) && (1 <= dimX && 1 <= dimY ==> dimX * dimY <= |src|)
  {
    if dimX < 1 || dimY < 1 then
      (Done, s)
    else
      var check := CheckResolutionEquality(resolution, s.resolution);
      if check != Done then (check, s)
      else (Done, Written(s, BlockRect(s.resolution, x, y, dimX, dimY), src))
  }

  /** State after, and outcome of, storing one received map. */
  ghost function MapStored(s: HolderState, m: MapMsg): (SetOutcome, HolderState)
    requires Good(s)
  {
    if m.NullMap? then
      (Done, s)
    else if !Fequal(m.resX, m.resY) then
      (Threw(ResolutionDiffersOnAxes), s)
    else if |m.data| < m.dimX * m.dimY then
      (Threw(TooFewCells), s)
    else
      BlockStored(s, m.x, m.y, m.resX, m.dimX, m.dimY, m.data)
  }

  /** Unknown, free or occupied, as the published grid shows it. */
  function Classify(v: byte): int {
    if v == 0 then -1 else if v <= 127 then 0 else 100
  }

  /** The cells of a published grid: the classified bytes of the requested rectangle, row by row. */
  ghost function Published(s: HolderState, r: Rect): seq<int>
    requires Shaped(s)
  {
    if r.IsEmpty() then [] else Raster(r, (x, y) => Classify(Cell(s, x, y)))
  }

  /** The published grid, without its cells. */
  datatype GridInfo = GridInfo(resolution: real, originX: real, originY: real, width: int, height: int)

  /** The grid of a requested rectangle starts at the position of its first cell; an empty request has no size. */
  function InfoOf(resolution: real, req: Rect): GridInfo
    requires 0.0 < resolution
  {
    GridInfo(resolution, Length(resolution, req.x), Length(resolution, req.y),
             if req.IsEmpty() then 0 else req.width, if req.IsEmpty() then 0 else req.height)
  }

  /** d shows, on the rectangle r, the cells of s in all rows before `row` and 0 from there on. */
  ghost predicate RowsCopied(s: HolderState, r: Rect, d: seq<byte>, row: int)
    requires Shaped(s)
  {
    && |d| == r.width * r.height
    && forall x, y :: r.HasCell(x, y) ==>
         0 <= Index(r, x, y) < |d| && d[Index(r, x, y)] == if y < row then Cell(s, x, y) else 0
  }

  lemma NoRowsCopied(s: HolderState, r: Rect, d: seq<byte>)
    requires Good(s) && |d| == r.width * r.height && forall k :: 0 <= k < |d| ==> d[k] == 0
    ensures RowsCopied(s, r, d, s.valid.y)
  {
    forall x, y | r.HasCell(x, y)
      ensures 0 <= Index(r, x, y) < |d|
    {
      IndexInBounds(r, x, y);
    }
  }

  lemma MergeKeepsInside(avail: Rect, r: Rect, valid: Rect)
    requires avail.Contains(valid) && !valid.IsEmpty() && !r.IsEmpty()
    ensures Adjusted(avail.Merge(r)).Contains(valid)
  {
    var m := avail.Merge(r);
    MergeIsLeastUpperBound(avail, r, m);
    AdjustedIsLeastAligned(m, ZERO_RECT);
    ContainsTransitive(m, avail, valid);
    ContainsTransitive(Adjusted(m), m, valid);
  }

  /** One row of the valid rectangle lies contiguously in the buffer. */
  lemma RowOfState(s: HolderState, row: int)
    requires Shaped(s) && s.avail.Contains(s.valid) && s.valid.HasCell(s.valid.x, row)
    ensures var at := Index(s.avail, s.valid.x, row);
            && 0 <= at && at + s.valid.width <= |s.dat|
            && forall x :: s.valid.x <= x < s.valid.XEnd() ==> s.dat[at + (x - s.valid.x)] == Cell(s, x, row)
  {
    IndexInBounds(s.avail, s.valid.x, row);
    IndexInBounds(s.avail, s.valid.XEnd() - 1, row);
    IndexDifference(s.avail, s.valid.x, row, s.valid.XEnd() - 1, row);
    forall x | s.valid.x <= x < s.valid.XEnd()
      ensures s.dat[Index(s.avail, s.valid.x, row) + (x - s.valid.x)] == Cell(s, x, row)
    {
      IndexDifference(s.avail, s.valid.x, row, x, row);
    }
  }

  lemma OneMoreRow(s: HolderState, r: Rect, d: seq<byte>, row: int)
    requires Shaped(s) && BlankOutsideValid(s) && s.avail.Contains(s.valid) && s.valid.HasCell(s.valid.x, row)
    requires r.Contains(s.valid) && RowsCopied(s, r, d, row)
    ensures var from, to, n := Index(s.avail, s.valid.x, row), Index(r, s.valid.x, row), s.valid.width;
            && 0 <= from && from + n <= |s.dat| && 0 <= to && to + n <= |d|
            && Index(s.avail, s.valid.x, row + 1) == from + s.avail.width
            && Index(r, s.valid.x, row + 1) == to + r.width
            && RowsCopied(s, r, Splice(d, to, s.dat[from..from + n]), row + 1)
  {
    RowOfState(s, row);
    var from := Index(s.avail, s.valid.x, row);
    SpliceRow(r, d, s.valid.x, row, s.dat[from..from + s.valid.width]);
    IndexDifference(s.avail, s.valid.x, row, s.valid.x, row + 1);
    IndexDifference(r, s.valid.x, row, s.valid.x, row + 1);
  }

  /** Once all valid rows are copied the buffer is the one the specification names: all other cells are 0. */
  lemma AllRowsCopied(s: HolderState, rect: Rect, d: seq<byte>)
    requires Good(s) && !rect.IsEmpty() && !s.avail.Contains(rect)
    requires RowsCopied(s, Adjusted(s.avail.Merge(rect)), d, s.valid.YEnd())
    ensures d == Reserved(s, rect).dat
  {
    var r := Adjusted(s.avail.Merge(rect));
    AdjustedIsLeastAligned(s.avail.Merge(rect), ZERO_RECT);
    RasterUnique(r, (x, y) => Cell(s, x, y), d);
  }

  /** d shows s on its available rectangle, with the rows of up before `row` overwritten by src. */
  ghost predicate RowsWritten(s: HolderState, up: Rect, src: seq<byte>, d: seq<byte>, row: int)
    requires Shaped(s) && up.width * up.height <= |src|
  {
    && |d| == |s.dat|
    && forall x, y :: s.avail.HasCell(x, y) ==>
         && 0 <= Index(s.avail, x, y) < |d|
         && d[Index(s.avail, x, y)] == if y < row then Overwrite(s, up, src, x, y) else Cell(s, x, y)
  }

  lemma NoRowsWritten(s: HolderState, up: Rect, src: seq<byte>)
    requires Shaped(s) && up.width * up.height <= |src|
    ensures RowsWritten(s, up, src, s.dat, up.y)
  {
    forall x, y | s.avail.HasCell(x, y)
      ensures 0 <= Index(s.avail, x, y) < |s.dat|
    {
      IndexInBounds(s.avail, x, y);
    }
  }

  lemma OneMoreRowWritten(s: HolderState, up: Rect, src: seq<byte>, d: seq<byte>, row: int)
    requires Shaped(s) && up.HasCell(up.x, row) && s.avail.Contains(up) && up.width * up.height <= |src|
    requires RowsWritten(s, up, src, d, row)
    ensures var from, to, n := Index(up, up.x, row), Index(s.avail, up.x, row), up.width;
            && 0 <= from && from + n <= |src| && 0 <= to && to + n <= |d|
            && Index(up, up.x, row + 1) == from + n
            && Index(s.avail, up.x, row + 1) == to + s.avail.width
            && RowsWritten(s, up, src, Splice(d, to, src[from..from + n]), row + 1)
  {
    var from := Index(up, up.x, row);
    IndexInBounds(up, up.x, row);
    IndexInBounds(up, up.XEnd() - 1, row);
    IndexDifference(up, up.x, row, up.XEnd() - 1, row);
    IndexDifference(up, up.x, row, up.x, row + 1);
    IndexDifference(s.avail, up.x, row, up.x, row + 1);
    SpliceRow(s.avail, d, up.x, row, src[from..from + up.width]);
    forall x | up.x <= x < up.XEnd()
      ensures src[from..from + up.width][x - up.x] == Overwrite(s, up, src, x, row)
    {
      IndexDifference(up, up.x, row, x, row);
    }
  }

  /** Once all rows are written, the buffer of the extended holder e is the one the specification names. */
  lemma AllRowsWritten(s: HolderState, e: HolderState, up: Rect, src: seq<byte>, d: seq<byte>)
    requires Good(s) && !up.IsEmpty() && up.width * up.height <= |src|
    requires e == Extended(s, up) && Good(e) && RowsWritten(e, up, src, d, up.YEnd())
    ensures d == Written(s, up, src).dat
  {
    ExtendedKeepsCells(s, up);
    forall x, y | e.avail.HasCell(x, y)
      ensures d[Index(e.avail, x, y)] == Overwrite(s, up, src, x, y)
    {
      assert Cell(e, x, y) == Cell(s, x, y);
    }
    RasterUnique(e.avail, (x, y) => Overwrite(s, up, src, x, y), d);
  }

  /** d shows the cells of the intersection that precede (toX, toY) in row order, and -1 elsewhere. */
  ghost predicate Shown(s: HolderState, intersec: Rect, res: Rect, d: seq<int>, toX: int, toY: int)
    requires Shaped(s)
  {
    && |d| == res.width * res.height
    && forall x, y :: res.HasCell(x, y) ==>
         && 0 <= Index(res, x, y) < |d|
         && d[Index(res, x, y)]
            == if intersec.HasCell(x, y) && (y < toY || (y == toY && x < toX)) then Classify(Cell(s, x, y)) else -1
  }

  lemma NothingShown(s: HolderState, intersec: Rect, res: Rect, d: seq<int>)
    requires Good(s) && |d| == res.width * res.height && forall k :: 0 <= k < |d| ==> d[k] == -1
    ensures Shown(s, intersec, res, d, intersec.x, intersec.y)
    ensures intersec.IsEmpty() ==> Shown(s, intersec, res, d, intersec.x, intersec.YEnd())
  {
    forall x, y | res.HasCell(x, y)
      ensures 0 <= Index(res, x, y) < |d|
    {
      IndexInBounds(res, x, y);
    }
  }

  lemma OneMoreShown(s: HolderState, intersec: Rect, res: Rect, d: seq<int>, x: int, y: int)
    requires Good(s) && intersec == s.valid.Intersect(res) && intersec.HasCell(x, y)
    requires Shown(s, intersec, res, d, x, y)
    ensures var from, to := Index(s.avail, x, y), Index(res, x, y);
            && from == Index(s.avail, intersec.x, y) + (x - intersec.x) && to == Index(res, intersec.x, y) + (x - intersec.x)
            && 0 <= from < |s.dat| && 0 <= to < |d| && s.dat[from] == Cell(s, x, y)
            && Shown(s, intersec, res, d[to := Classify(s.dat[from])], x + 1, y)
  {
    IntersectIsSharedCells(s.valid, res, x, y);
    IndexInBounds(s.avail, x, y);
    IndexDifference(s.avail, intersec.x, y, x, y);
    IndexDifference(res, intersec.x, y, x, y);
    forall x', y' | res.HasCell(x', y')
      ensures Index(res, x', y') == Index(res, x, y) <==> x' == x && y' == y
    {
      RowSegment(res, x, y, 1, x', y');
    }
  }

  lemma NextRowShown(s: HolderState, intersec: Rect, res: Rect, d: seq<int>, y: int)
    requires Shaped(s) && Shown(s, intersec, res, d, intersec.XEnd(), y)
    ensures Shown(s, intersec, res, d, intersec.x, y + 1)
    ensures Index(s.avail, intersec.x, y + 1) == Index(s.avail, intersec.x, y) + s.avail.width
    ensures Index(res, intersec.x, y + 1) == Index(res, intersec.x, y) + res.width
  {
    IndexDifference(s.avail, intersec.x, y, intersec.x, y + 1);
    IndexDifference(res, intersec.x, y, intersec.x, y + 1);
  }

  /** Outside the valid rectangle every cell is 0, which is shown as -1. */
  lemma AllShown(s: HolderState, res: Rect, d: seq<int>)
    requires Good(s) && !res.IsEmpty()
    requires var intersec := s.valid.Intersect(res); Shown(s, intersec, res, d, intersec.x, intersec.YEnd())
    ensures d == Published(s, res)
  {
    forall x, y | res.HasCell(x, y)
      ensures d[Index(res, x, y)] == Classify(Cell(s, x, y))
    {
      IntersectIsSharedCells(s.valid, res, x, y);
    }
    RasterUnique(res, (x, y) => Classify(Cell(s, x, y)), d);
  }

  /** A block copy of bytes into a buffer. */
  method CopyBytes(dest: array<byte>, at: int, src: seq<byte>)
    requires 0 <= at && at + |src| <= dest.Length
    modifies dest
    ensures dest[..] == Splice(old(dest[..]), at, src)
  {
    forall k | 0 <= k < |src| {
      dest[at + k] := src[k];
    }
  }

  /** The row-by-row copy of a reservation, with its two running offsets: from the buffer of s into that of newAvail. */
  method CopyValidCells(availRect: Rect, mapDat: array<byte>, validRect: Rect, newAvail: Rect, newMapDat: array<byte>,
                        ghost s: HolderState)
    requires availRect == s.avail && mapDat[..] == s.dat && validRect == s.valid && newMapDat != mapDat
    requires Shaped(s) && BlankOutsideValid(s) && !s.valid.IsEmpty()
    requires s.avail.Contains(s.valid) && newAvail.Contains(s.valid)
    requires RowsCopied(s, newAvail, newMapDat[..], s.valid.y)
    modifies newMapDat
    ensures RowsCopied(s, newAvail, newMapDat[..], s.valid.YEnd())
  {
    hide RowsCopied, BlankOutsideValid;
    var destOffX := validRect.x - newAvail.x;
    assert 0 <= destOffX < newAvail.width && destOffX + validRect.width <= newAvail.width;
    var destOffY := validRect.y - newAvail.y;
    assert 0 <= destOffY < newAvail.height && destOffY + validRect.height <= newAvail.height;
    var srcCellOffset := (validRect.y - availRect.y) * availRect.width + (validRect.x - availRect.x);
    var destCellOffset := destOffY * newAvail.width + destOffX;
    var j := 0;
    ghost var row := s.valid.y;
    while j < validRect.height
      invariant 0 <= j <= s.valid.height && row == s.valid.y + j
      invariant mapDat[..] == s.dat
      invariant srcCellOffset == Index(s.avail, s.valid.x, row)
      invariant destCellOffset == Index(newAvail, s.valid.x, row)
      invariant RowsCopied(s, newAvail, newMapDat[..], row)
    {
      OneMoreRow(s, newAvail, newMapDat[..], row);
      CopyBytes(newMapDat, destCellOffset, mapDat[srcCellOffset..srcCellOffset + validRect.width]);
      srcCellOffset := srcCellOffset + availRect.width;
      destCellOffset := destCellOffset + newAvail.width;
      j, row := j + 1, row + 1;
    }
  }

  /** The row-by-row copy of a received block, with its two running offsets, into the buffer of s. */
  method CopyBlock(availRect: Rect, mapDat: array<byte>, up: Rect, src: seq<byte>, ghost s: HolderState)
    requires availRect == s.avail && Shaped(s) && !up.IsEmpty() && s.avail.Contains(up)
    requires up.width * up.height <= |src| && RowsWritten(s, up, src, mapDat[..], up.y)
    modifies mapDat
    ensures RowsWritten(s, up, src, mapDat[..], up.YEnd())
  {
    hide RowsWritten;
    var destOffX := up.x - availRect.x;
    assert 0 <= destOffX < availRect.width && destOffX + up.width <= availRect.width;
    var destOffY := up.y - availRect.y;
    assert 0 <= destOffY < availRect.height && destOffY + up.height <= availRect.height;
    var srcCellOffset := 0;
    var destCellOffset := destOffY * availRect.width + destOffX;
    var j := 0;
    ghost var row := up.y;
    while j < up.height
      invariant 0 <= j <= up.height && row == up.y + j
      invariant srcCellOffset == Index(up, up.x, row)
      invariant destCellOffset == Index(s.avail, up.x, row)
      invariant RowsWritten(s, up, src, mapDat[..], row)
    {
      OneMoreRowWritten(s, up, src, mapDat[..], row);
      CopyBytes(mapDat, destCellOffset, src[srcCellOffset..srcCellOffset + up.width]);
      srcCellOffset := srcCellOffset + up.width;
      destCellOffset := destCellOffset + availRect.width;
      j, row := j + 1, row + 1;
    }
  }

  class Holder {
    var more: int
    var resolution: real
    var availRect: Rect
    var availArea: Area
    var validRect: Rect
    var validArea: Area
    var mapDat: array<byte>

    ghost function State(): HolderState
      reads this, mapDat
    {
      HolderState(more, resolution, availRect, validRect, mapDat[..])
    }

    ghost predicate Valid()
      reads this, mapDat
    {
      && Good(State())
      && availArea == AreaOf(resolution, availRect)
      && validArea == AreaOf(resolution, validRect)
    }

    constructor ()
      ensures Valid() && fresh(mapDat)
      ensures State() == HolderState(32, 0.05, Rect(0, 0, 0, 0), Rect(0, 0, 0, 0), [])
    {
      more := DEFAULT_MORE;
      resolution := DEFAULT_RESOLUTION;
      availRect, availArea := ZERO_RECT, ZERO_AREA;
      validRect, validArea := ZERO_RECT, ZERO_AREA;
      mapDat := new byte[0];
    }

    method Clear()
      requires Valid()
      modifies this
      ensures Valid() && fresh(mapDat)
      ensures State() == Cleared(old(State()))
    {
      availRect, availArea := ZERO_RECT, ZERO_AREA;
      validRect, validArea := ZERO_RECT, ZERO_AREA;
      mapDat := new byte[0];
    }

    method Reinit(newResolution: real) returns (outcome: SetOutcome)
      requires Valid()
      modifies this
      ensures Valid() && (mapDat == old(mapDat) || fresh(mapDat))
      ensures outcome == if newResolution <= FLT_EPSILON then Threw(InvalidResolution) else Done
      ensures State() == if outcome == Done then ReinitTo(old(State()), newResolution) else old(State())
    {
      if newResolution <= FLT_EPSILON {
        return Threw(InvalidResolution);
      }
      Clear();
      resolution := newResolution;
      return Done;
    }

    method SetMoreCellCountToExtend(count: int)
      requires Valid()
      modifies this`more
      ensures Valid()
      ensures State() == old(State()).(more := if 0 <= count then count else 32)
    {
      more := if 0 <= count then count else DEFAULT_MORE;
      assert forall x, y :: Cell(State(), x, y) == Cell(old(State()), x, y);
    }

    /** The zero-filled buffer of the new available rectangle, with the valid cells of the state s copied into it. */
    method NewBuffer(r: Rect, newAvail: Rect, ghost s: HolderState) returns (newMapDat: array<byte>)
      requires s == State() && Good(s) && !r.IsEmpty() && !s.avail.Contains(r) && newAvail == Adjusted(s.avail.Merge(r))
      ensures fresh(newMapDat) && newMapDat[..] == Reserved(s, r).dat
    {
      AdjustedIsLeastAligned(s.avail.Merge(r), ZERO_RECT);
      newMapDat := new byte[newAvail.width * newAvail.height](_ => 0);
      NoRowsCopied(s, newAvail, newMapDat[..]);
      if !validRect.IsEmpty() {
        MergeKeepsInside(s.avail, r, s.valid);
        CopyValidCells(availRect, mapDat, validRect, newAvail, newMapDat, s);
      }
      AllRowsCopied(s, r, newMapDat[..]);
    }

    method ReserveByCellIdxRect(r: Rect)
      requires Valid()
      modifies this
      ensures Valid() && (mapDat == old(mapDat) || fresh(mapDat))
      ensures State() == Reserved(old(State()), r)
    {
      if r.IsEmpty() || availRect.Contains(r) {
        return;
      }
      ghost var s := State();
      var newAvail := Adjusted(availRect.Merge(r));
      var newMapDat := NewBuffer(r, newAvail, s);
      ReservedKeepsCells(s, r);
      availRect, availArea := newAvail, AreaOf(resolution, newAvail);
      mapDat := newMapDat;
      assert State() == Reserved(s, r);
    }

    method CheckToExtendMap(up: Rect)
      requires Valid()
      modifies this
      ensures Valid() && (mapDat == old(mapDat) || fresh(mapDat))
      ensures State() == Extended(old(State()), up)
    {
      if up.IsEmpty() || availRect.Contains(up) {
        return;
      }
      var tXMin := availRect.x;
      if up.x < tXMin {
        tXMin := up.x - more;
      }
      var tYMin := availRect.y;
      if up.y < tYMin {
        tYMin := up.y - more;
      }
      var tXEnd := availRect.x + availRect.width;
      if tXEnd < up.x + up.width {
        tXEnd := up.x + up.width + more;
      }
      var tYEnd := availRect.y + availRect.height;
      if tYEnd < up.y + up.height {
        tYEnd := up.y + up.height + more;
      }
      var tCellIdxRect := Rect(tXMin, tYMin, tXEnd - tXMin, tYEnd - tYMin);
      assert tCellIdxRect == ExtensionRect(availRect, up, more);
      ReserveByCellIdxRect(tCellIdxRect);
    }

    /** Stores a block of dimX by dimY bytes whose first cell is at position (x, y). */
    method SetBlock(x: real, y: real, blockResolution: real, dimX: int, dimY: int, src: seq<byte>)
      returns (outcome: SetOutcome)
      requires Valid()
      requires 1 <= dimX && 1 <= dimY ==> dimX * dimY <= |src|
      modifies this, mapDat
      ensures Valid() && (mapDat == old(mapDat) || fresh(mapDat))
      ensures (outcome, State()) == BlockStored(old(State()), x, y, blockResolution, dimX, dimY, src)
    {
      if dimX < 1 || dimY < 1 {
        return Done;
      }
      outcome := CheckResolutionEquality(blockResolution, resolution);
      if outcome != Done {
        return;
      }
      ghost var s := State();
      var up := BlockRect(resolution, x, y, dimX, dimY);
      CheckToExtendMap(up);
      ExtendedKeepsCells(s, up);
      ghost var e := State();
      NoRowsWritten(e, up, src);
      CopyBlock(availRect, mapDat, up, src, e);
      AllRowsWritten(s, e, up, src, mapDat[..]);
      WrittenIsOverwrite(s, up, src);
      validRect := validRect.Merge(up);
      validArea := AreaOf(resolution, validRect);
      assert State() == Written(s, up, src);
    }

    /** Stores a map received from the platform. */
    method SetMapData(m: MapMsg) returns (outcome: SetOutcome)
      requires Valid()
      modifies this, mapDat
      ensures Valid() && (mapDat == old(mapDat) || fresh(mapDat))
      ensures (outcome, State()) == MapStored(old(State()), m)
    {
      if m.NullMap? {
        return Done;
      }
      if !Fequal(m.resX, m.resY) {
        return Threw(ResolutionDiffersOnAxes);
      }
      if |m.data| < m.dimX * m.dimY {
        return Threw(TooFewCells);
      }
      outcome := SetBlock(m.x, m.y, m.resX, m.dimX, m.dimY, m.data);
    }

    /** One row of the publication; srcRowOffset and destRowOffset are where it starts in the two buffers. */
    method ShowRow(intersec: Rect, res: Rect, data: array<int>, row: int, srcRowOffset: int, destRowOffset: int)
      requires Valid() && intersec == validRect.Intersect(res) && intersec.HasCell(intersec.x, row)
      requires srcRowOffset == Index(availRect, intersec.x, row) && destRowOffset == Index(res, intersec.x, row)
      requires Shown(State(), intersec, res, data[..], intersec.x, row)
      modifies data
      ensures Shown(State(), intersec, res, data[..], intersec.XEnd(), row)
    {
      ghost var s := State();
      var tSrcIdx, tDestIdx := srcRowOffset, destRowOffset;
      var i := 0;
      while i < intersec.width
        invariant 0 <= i <= intersec.width
        invariant tSrcIdx == srcRowOffset + i && tDestIdx == destRowOffset + i
        invariant Shown(s, intersec, res, data[..], intersec.x + i, row)
      {
        OneMoreShown(s, intersec, res, data[..], intersec.x + i, row);
        var tVal := mapDat[tSrcIdx];
        if tVal == 0 {
          data[tDestIdx] := -1;
        } else if tVal <= 127 {
          data[tDestIdx] := 0;
        } else {
          data[tDestIdx] := 100;
        }
        tSrcIdx := tSrcIdx + 1;
        tDestIdx := tDestIdx + 1;
        i := i + 1;
      }
    }

    /** The nested loops of the publication: one row of the intersection at a time, cell by cell. */
    method ShowCells(intersec: Rect, res: Rect, data: array<int>)
      requires Valid() && !res.IsEmpty() && intersec == validRect.Intersect(res) && !intersec.IsEmpty()
      requires Shown(State(), intersec, res, data[..], intersec.x, intersec.y)
      modifies data
      ensures Shown(State(), intersec, res, data[..], intersec.x, intersec.YEnd())
    {
      ghost var s := State();
      var srcRowOffset := Index(availRect, intersec.x, intersec.y);
      var destRowOffset := Index(res, intersec.x, intersec.y);
      var j := 0;
      while j < intersec.height
        invariant 0 <= j <= intersec.height
        invariant mapDat[..] == s.dat
        invariant srcRowOffset == Index(availRect, intersec.x, intersec.y + j)
        invariant destRowOffset == Index(res, intersec.x, intersec.y + j)
        invariant Shown(s, intersec, res, data[..], intersec.x, intersec.y + j)
      {
        ShowRow(intersec, res, data, intersec.y + j, srcRowOffset, destRowOffset);
        NextRowShown(s, intersec, res, data[..], intersec.y + j);
        srcRowOffset := srcRowOffset + availRect.width;
        destRowOffset := destRowOffset + res.width;
        j := j + 1;
      }
    }

    /** Fills a published grid for the requested rectangle. */
    method FillRosMapMsg(req: Rect) returns (res: Rect, info: GridInfo, data: array<int>)
      requires Valid()
      ensures res == req
      ensures info == InfoOf(resolution, req)
      ensures data[..] == Published(State(), req)
    {
      res := req;
      var resArea := AreaOf(resolution, res);
      if res.IsEmpty() {
        info := GridInfo(resolution, resArea.x, resArea.y, 0, 0);
        data := new int[0];
      } else {
        info := GridInfo(resolution, resArea.x, resArea.y, res.width, res.height);
        var intersec := validRect.Intersect(res);
        data := new int[res.width * res.height](_ => -1);
        NothingShown(State(), intersec, res, data[..]);
        if !intersec.IsEmpty() {
          ShowCells(intersec, res, data);
        }
        AllShown(State(), res, data[..]);
      }
    }

    /** Fills a published grid for an area, through its minimal bounding rectangle. */
    method FillRosMapMsgForArea(reqArea: Area) returns (res: Rect, info: GridInfo, data: array<int>)
      requires Valid()
      ensures res == if reqArea.IsEmpty() then ZERO_RECT else MinBounding(resolution, reqArea)
      ensures info == InfoOf(resolution, res)
      ensures data[..] == Published(State(), res)
    {
      var reqIdxRect := ZERO_RECT;
      if !reqArea.IsEmpty() {
        reqIdxRect := MinBounding(resolution, reqArea);
        MinBoundingIsLeastCover(resolution, reqArea, ZERO_RECT);
      }
      res, info, data := FillRosMapMsg(reqIdxRect);
    }

    method ReserveByArea(reqArea: Area)
      requires Valid()
      modifies this
      ensures Valid() && (mapDat == old(mapDat) || fresh(mapDat))
      ensures State() == if reqArea.IsEmpty() then old(State()) else Reserved(old(State()), MinBounding(old(resolution), reqArea))
    {
      if reqArea.IsEmpty() {
        return;
      }
      ReserveByCellIdxRect(MinBounding(resolution, reqArea));
    }
  }
}
