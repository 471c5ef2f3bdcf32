/** Why unbounded integers suffice: in a fitting box no signed 32-bit value of the map holder overflows. */
module HolderWidth {
  import opened CellRects
  import opened Alignment
  import opened CellAreas
  import opened HolderSpec
  import opened MapHolder
  import opened HolderRuns

  function BoxWidth(box: Box, more: int): int {
    box.xHi - box.xLo + 2 * (more + 15)
  }

  function BoxHeight(box: Box, more: int): int {
    box.yHi - box.yLo + 2 * (more + 15)
  }

  /** The widened box has machine-representable ends and area. */
  predicate BoxFits(box: Box, more: int) {
    && INT_MIN < box.xLo - more - 15 && box.xHi + more + 15 <= INT_MAX
    && INT_MIN < box.yLo - more - 15 && box.yHi + more + 15 <= INT_MAX
    && BoxWidth(box, more) * BoxHeight(box, more) <= INT_MAX
  }

  predicate EndsFit(r: Rect) {
    IsInt32Rect(r) && IsInt32(r.XEnd()) && IsInt32(r.YEnd())
  }

  /** The signed values of an adjustment: ends, aligned values, and the product that sizes the buffer. */
  ghost predicate AdjustmentFits(m: Rect) {
    EndsFit(m) && Adjusted32(m) == Value(Adjusted(m)) && IsInt32(Adjusted(m).width * Adjusted(m).height)
  }

  /** The offset of r's first cell in the buffer of `frame`, with its intermediate product. */
  predicate OffsetIn(frame: Rect, r: Rect) {
    IsInt32((r.y - frame.y) * frame.width) && IsInt32(Index(frame, r.x, r.y))
  }

  /** The signed values of a reservation: ends, the adjustment of the merge, and both copy offsets. */
  ghost predicate ReserveFits(s: HolderState, r: Rect) {
    && EndsFit(s.avail) && EndsFit(s.valid) && EndsFit(r)
    && AdjustmentFits(s.avail.Merge(r))
    && (!s.valid.IsEmpty() ==> OffsetIn(s.avail, s.valid) && OffsetIn(Adjusted(s.avail.Merge(r)), s.valid))
  }

  /**
    The signed values of a write: the product of its dimensions, the ends before and after, the extension and its
    reservation, and the copy offset.
   */
  ghost predicate StoreFits(s: HolderState, up: Rect)
    requires Shaped(s)
  {
    && IsInt32(up.width * up.height)
    && EndsFit(s.avail) && EndsFit(up) && EndsFit(s.valid) && EndsFit(s.valid.Merge(up))
    && (!s.avail.Contains(up) ==>
          && EndsFit(ExtensionRect(s.avail, up, s.more))
          && ReserveFits(s, ExtensionRect(s.avail, up, s.more)))
    && var avail := Extended(s, up).avail;
       OffsetIn(avail, up)
  }

  lemma WidthBound(w: int, h: int)
    requires 1 <= w && 1 <= h && w * h <= INT_MAX
    ensures w <= INT_MAX && h <= INT_MAX
  {
  }

  lemma EnclosedFits(box: Box, more: int, r: Rect, margin: int)
    requires BoxFits(box, more) && box.xLo <= box.xHi && box.yLo <= box.yHi && 0 <= more
    requires margin <= more + 15 && box.Encloses(r, margin) && 0 <= r.width && 0 <= r.height
    ensures EndsFit(r) && r.width <= BoxWidth(box, more) && r.height <= BoxHeight(box, more)
  {
    WidthBound(BoxWidth(box, more), BoxHeight(box, more));
  }

  lemma AreaBound(w: int, h: int, w': int, h': int)
    requires 0 <= w <= w' && 0 <= h <= h'
    ensures 0 <= w * h <= w' * h'
  {
  }

  lemma AreaFits(frame: Rect, box: Box, more: int)
    requires !frame.IsEmpty() && BoxFits(box, more) && box.Encloses(frame, more + 15)
    ensures 0 <= frame.width * frame.height <= INT_MAX
  {
    AreaBound(frame.width, frame.height, BoxWidth(box, more), BoxHeight(box, more));
  }

  /** Offsets inside an enclosed rectangle fit, and so does its area. */
  lemma OffsetFits(frame: Rect, r: Rect, box: Box, more: int)
    requires frame.Contains(r) && BoxFits(box, more) && box.Encloses(frame, more + 15)
    ensures OffsetIn(frame, r)
  {
    AreaFits(frame, box, more);
    IndexInBounds(frame, r.x, r.y);
    IndexInBounds(frame, frame.x, r.y);
  }

  lemma MergeEnclosed(a: Rect, b: Rect, box: Box, margin: int)
    requires !b.IsEmpty() && box.Encloses(a, margin) && box.Encloses(b, margin)
    ensures !a.Merge(b).IsEmpty() && box.Encloses(a.Merge(b), margin)
  {
  }

  lemma AdjustedFits(m: Rect)
    requires !m.IsEmpty() && EndsFit(m) && IsInt32Rect(Adjusted(m)) && INT_MIN < Adjusted(m).x && INT_MIN < Adjusted(m).y
    ensures Adjusted32(m) == Value(Adjusted(m))
  {
    Adjusted32Exact(m);
  }

  lemma AdjustmentFitsInBox(m: Rect, box: Box, more: int)
    requires !m.IsEmpty() && BoxFits(box, more) && 0 <= more && box.xLo <= box.xHi && box.yLo <= box.yHi
    requires box.Encloses(m, more + 15) && box.Encloses(Adjusted(m), more + 15)
    ensures AdjustmentFits(m)
  {
    AdjustedIsLeastAligned(m, ZERO_RECT);
    EnclosedFits(box, more, m, more + 15);
    EnclosedFits(box, more, Adjusted(m), more + 15);
    AdjustedFits(m);
    AreaFits(Adjusted(m), box, more);
  }

  lemma OffsetsFitInBox(avail: Rect, r: Rect, valid: Rect, box: Box, more: int)
    requires avail.Contains(valid) && !valid.IsEmpty() && !r.IsEmpty() && 0 <= more
    requires BoxFits(box, more) && box.xLo <= box.xHi && box.yLo <= box.yHi
    requires box.Encloses(avail, more + 15) && box.Encloses(Adjusted(avail.Merge(r)), more + 15)
    ensures EndsFit(valid) && OffsetIn(avail, valid) && OffsetIn(Adjusted(avail.Merge(r)), valid)
  {
    EnclosedFits(box, more, valid, more + 15);
    OffsetFits(avail, valid, box, more);
    MergeKeepsInside(avail, r, valid);
    OffsetFits(Adjusted(avail.Merge(r)), valid, box, more);
  }

  lemma ReserveFitsInBox(s: HolderState, r: Rect, box: Box, more: int)
    requires Good(s) && !r.IsEmpty() && BoxFits(box, more) && 0 <= more
    requires box.xLo <= box.xHi && box.yLo <= box.yHi
    requires box.Encloses(s.avail, more + 15) && box.Encloses(r, more + 15)
    requires box.Encloses(Adjusted(s.avail.Merge(r)), more + 15)
    ensures ReserveFits(s, r)
  {
    EnclosedFits(box, more, s.avail, more + 15);
    EnclosedFits(box, more, r, more + 15);
    MergeEnclosed(s.avail, r, box, more + 15);
    AdjustmentFitsInBox(s.avail.Merge(r), box, more);
    hide BoxFits, AdjustmentFits, Adjusted;
    if s.valid.IsEmpty() {
      assert EndsFit(ZERO_RECT);
    } else {
      OffsetsFitInBox(s.avail, r, s.valid, box, more);
    }
  }

  lemma BoxGrows(initial: real, ops: seq<Op>, op: Op)
    requires FLT_EPSILON < initial && !IsReset(op)
    ensures var b, b' := Touched(initial, ops), Touched(initial, ops + [op]);
            && b'.xLo <= b.xLo && b.xHi <= b'.xHi && b'.yLo <= b.yLo && b.yHi <= b'.yHi
            && (op.Reserve? && !op.rect.IsEmpty() ==> b'.Encloses(op.rect, 0))
            && (op.Store? && Accepts(ResolutionAfter(initial, ops), op.msg) && 0.0 < ResolutionAfter(initial, ops) ==>
                  b'.Encloses(TargetRect(ResolutionAfter(initial, ops), op.msg), 0))
  {
    assert (ops + [op])[..|ops|] == ops;
  }

  lemma InnerEnclosed(outer: Rect, r: Rect, box: Box, margin: int)
    requires outer.Contains(r) && !r.IsEmpty() && box.Encloses(outer, margin)
    ensures box.Encloses(r, margin)
  {
  }

  lemma ValidEnclosed(s: HolderState, box: Box, margin: int)
    requires Good(s) && box.Encloses(s.avail, margin) && 0 <= margin && box.xLo <= 0 <= box.xHi && box.yLo <= 0 <= box.yHi
    ensures box.Encloses(s.valid, margin) && 0 <= s.valid.width && 0 <= s.valid.height
  {
    if s.valid.IsEmpty() {
      assert box.Encloses(ZERO_RECT, margin);
    } else {
      InnerEnclosed(s.avail, s.valid, box, margin);
    }
  }

  lemma MergeFits(a: Rect, b: Rect, box: Box, more: int)
    requires !b.IsEmpty() && BoxFits(box, more) && 0 <= more && box.xLo <= box.xHi && box.yLo <= box.yHi
    requires box.Encloses(a, more + 15) && box.Encloses(b, more + 15)
    ensures EndsFit(a.Merge(b))
  {
    MergeEnclosed(a, b, box, more + 15);
    EnclosedFits(box, more, a.Merge(b), more + 15);
  }

  lemma ExtensionEnclosed(avail: Rect, up: Rect, more: int, box: Box)
    requires 0 <= more && box.Encloses(avail, more + 15) && box.Encloses(up, 0)
    ensures box.Encloses(ExtensionRect(avail, up, more), more + 15)
  {
  }

  lemma ExtensionFits(s: HolderState, up: Rect, box: Box)
    requires Good(s) && !up.IsEmpty() && !s.avail.Contains(up) && BoxFits(box, s.more)
    requires box.xLo <= 0 <= box.xHi && box.yLo <= 0 <= box.yHi
    requires box.Encloses(s.avail, s.more + 15) && box.Encloses(up, 0) && box.Encloses(Extended(s, up).avail, s.more + 15)
    ensures EndsFit(ExtensionRect(s.avail, up, s.more)) && ReserveFits(s, ExtensionRect(s.avail, up, s.more))
  {
    ExtensionReplaces(s.avail, up, s.more);
    ExtendedAvail(s, up);
    ExtensionEnclosed(s.avail, up, s.more, box);
    EnclosedFits(box, s.more, ExtensionRect(s.avail, up, s.more), s.more + 15);
    ReserveFitsInBox(s, ExtensionRect(s.avail, up, s.more), box, s.more);
  }

  lemma GoodSizes(s: HolderState)
    requires Good(s)
    ensures Shaped(s) && 0 <= s.more && 0 <= s.avail.width && 0 <= s.avail.height
  {
  }

  lemma StoreFitsInBox(s: HolderState, up: Rect, box: Box)
    requires Good(s) && !up.IsEmpty() && BoxFits(box, s.more)
    requires box.xLo <= 0 <= box.xHi && box.yLo <= 0 <= box.yHi
    requires box.Encloses(s.avail, s.more + 15) && box.Encloses(up, 0) && box.Encloses(Extended(s, up).avail, s.more + 15)
    ensures StoreFits(s, up)
  {
    hide BoxFits, Good, Extended, ExtensionRect, EndsFit, OffsetIn, ReserveFits, Rect.Merge;
    GoodSizes(s);
    var avail := Extended(s, up).avail;
    ExtendedKeepsCells(s, up);
    GoodSizes(Extended(s, up));
    EnclosedFits(box, s.more, s.avail, s.more + 15);
    EnclosedFits(box, s.more, up, 0);
    EnclosedFits(box, s.more, avail, s.more + 15);
    OffsetFits(avail, up, box, s.more);
    AreaFits(up, box, s.more);
    ValidEnclosed(s, box, s.more + 15);
    EnclosedFits(box, s.more, s.valid, s.more + 15);
    MergeFits(s.valid, up, box, s.more);
    if !s.avail.Contains(up) {
      ExtensionFits(s, up, box);
    }
  }

  /** Over every run: while the touched box fits, the next accepted write computes without overflow. */
  lemma StoreNeverOverflows(start: HolderState, ops: seq<Op>, msg: MapMsg)
    requires Blank(start) && Accepts(Run(start, ops).resolution, msg)
    requires BoxFits(Touched(start.resolution, ops + [Store(msg)]), start.more)
    ensures StoreFits(Run(start, ops), TargetRect(Run(start, ops).resolution, msg))
  {
    var s, box := Run(start, ops), Touched(start.resolution, ops + [Store(msg)]);
    RunRefinesGrid(start, ops);
    WasteIsBounded(start, ops);
    BoxGrows(start.resolution, ops, Store(msg));
    var up := TargetRect(s.resolution, msg);
    ExtendedKeepsCells(s, up);
    ExtendedWaste(s, up, box);
    StoreFitsInBox(s, up, box);
  }

  /** The same for reservations. */
  lemma ReserveNeverOverflows(start: HolderState, ops: seq<Op>, r: Rect)
    requires Blank(start) && !r.IsEmpty() && !Run(start, ops).avail.Contains(r)
    requires BoxFits(Touched(start.resolution, ops + [Reserve(r)]), start.more)
    ensures ReserveFits(Run(start, ops), r)
  {
    var s, box := Run(start, ops), Touched(start.resolution, ops + [Reserve(r)]);
    WasteIsBounded(start, ops);
    BoxGrows(start.resolution, ops, Reserve(r));
    ReservationWaste(s.avail, r, box, s.more);
    ReserveFitsInBox(s, r, box, s.more);
  }
}
