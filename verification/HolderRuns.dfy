/** Every sequence of operations on the map holder: what it stands for, and how far its buffer grows. */
module HolderRuns {
  import opened CellRects
  import opened Alignment
  import opened CellAreas
  import opened HolderSpec
  import opened MapHolder
  import opened Arithmetic

  datatype Op =
    | Clear
    | Reinit(resolution: real)
    | Reserve(rect: Rect)
    | Store(msg: MapMsg)

  ghost function Apply(s: HolderState, op: Op): HolderState
    requires Good(s)
  {
    match op
    case Clear => Cleared(s)
    case Reinit(resolution) => if resolution <= FLT_EPSILON then s else ReinitTo(s, resolution)
    case Reserve(rect) => Reserved(s, rect)
    case Store(msg) => MapStored(s, msg).1
  }

  /** Whether a holder of the given resolution stores the map at all. */
  predicate Accepts(resolution: real, m: MapMsg) {
    && m.MapMsg?
    && Fequal(m.resX, m.resY)
    && m.dimX * m.dimY <= |m.data|
    && 1 <= m.dimX && 1 <= m.dimY
    && Fequal(m.resX, resolution) && FLT_EPSILON < m.resX
  }

  function TargetRect(resolution: real, m: MapMsg): Rect
    requires m.MapMsg? && 0.0 < resolution
  {
    BlockRect(resolution, m.x, m.y, m.dimX, m.dimY)
  }

  /** Every operation keeps the representation invariant and the extension count. */
  lemma ApplyKeepsInvariant(s: HolderState, op: Op)
    requires Good(s)
    ensures Good(Apply(s, op)) && Apply(s, op).more == s.more
  {
    match op
    case Clear => ClearedIsBlank(s);
    case Reinit(_) =>
    case Reserve(rect) => ReservedKeepsCells(s, rect);
    case Store(msg) =>
      if Accepts(s.resolution, msg) {
        WrittenIsOverwrite(s, TargetRect(s.resolution, msg), msg.data);
      }
  }

  ghost function Run(start: HolderState, ops: seq<Op>): (s: HolderState)
    requires Good(start)
    ensures Good(s) && s.more == start.more
  {
    if ops == [] then
      start
    else
      var before := Run(start, ops[..|ops| - 1]);
      ApplyKeepsInvariant(before, ops[|ops| - 1]);
      Apply(before, ops[|ops| - 1])
  }

  // ----- The reference: no buffer, only the list of operations -----

  /** Storing a map writes exactly when the holder accepts it; otherwise nothing changes. */
  lemma StoreEffect(s: HolderState, m: MapMsg)
    requires Good(s)
    ensures Accepts(s.resolution, m) ==> MapStored(s, m) == (Done, Written(s, TargetRect(s.resolution, m), m.data))
    ensures !Accepts(s.resolution, m) ==> MapStored(s, m).1 == s
    ensures Accepts(s.resolution, m) ==> Apply(s, Store(m)).avail == Extended(s, TargetRect(s.resolution, m)).avail
  {
  }

  /** The resolution after the operations: that of the last valid reinit. */
  function ResolutionAfter(initial: real, ops: seq<Op>): real {
    if ops == [] then
      initial
    else
      match ops[|ops| - 1]
      case Reinit(resolution) =>
        if resolution <= FLT_EPSILON then ResolutionAfter(initial, ops[..|ops| - 1]) else resolution
      case _ => ResolutionAfter(initial, ops[..|ops| - 1])
  }

  predicate IsReset(op: Op) {
    op.Clear? || (op.Reinit? && FLT_EPSILON < op.resolution)
  }

  lemma {:induction false} ResolutionIsPositive(initial: real, ops: seq<Op>)
    requires FLT_EPSILON < initial
    ensures FLT_EPSILON < ResolutionAfter(initial, ops)
  {
    if ops != [] {
      ResolutionIsPositive(initial, ops[..|ops| - 1]);
    }
  }

  /** The byte of a cell: that of the last accepted map over it, or 0 if there is none since the last reset. */
  ghost function GridAt(initial: real, ops: seq<Op>, x: int, y: int): byte
    requires FLT_EPSILON < initial
  {
    if ops == [] then
      0
    else
      var earlier, op := ops[..|ops| - 1], ops[|ops| - 1];
      ResolutionIsPositive(initial, earlier);
      var resolution := ResolutionAfter(initial, earlier);
      if IsReset(op) then
        0
      else if op.Store? && Accepts(resolution, op.msg) && TargetRect(resolution, op.msg).HasCell(x, y) then
        var target := TargetRect(resolution, op.msg);
        IndexInBounds(target, x, y);
        op.msg.data[Index(target, x, y)]
      else
        GridAt(initial, earlier, x, y)
  }

  /** The rectangles of the accepted maps since the last reset, in order. */
  function Writes(initial: real, ops: seq<Op>): seq<Rect>
    requires FLT_EPSILON < initial
  {
    if ops == [] then
      []
    else
      var earlier, op := ops[..|ops| - 1], ops[|ops| - 1];
      ResolutionIsPositive(initial, earlier);
      var resolution := ResolutionAfter(initial, earlier);
      if IsReset(op) then
        []
      else if op.Store? && Accepts(resolution, op.msg) then
        Writes(initial, earlier) + [TargetRect(resolution, op.msg)]
      else
        Writes(initial, earlier)
  }

  ghost predicate Blank(s: HolderState) {
    Good(s) && s.avail == ZERO_RECT && s.valid == ZERO_RECT
  }

  /** The holder agrees with the list of operations: same resolution, same bytes, same bounding box. */
  ghost predicate Refines(s: HolderState, initial: real, ops: seq<Op>)
    requires FLT_EPSILON < initial && Shaped(s)
  {
    && s.resolution == ResolutionAfter(initial, ops)
    && (forall x, y :: Cell(s, x, y) == GridAt(initial, ops, x, y))
    && s.valid == Hull(Writes(initial, ops))
  }

  lemma HullAppend(rects: seq<Rect>, r: Rect)
    ensures Hull(rects + [r]) == Hull(rects).Merge(r)
  {
    assert (rects + [r])[..|rects|] == rects;
  }

  lemma StoreRefines(s: HolderState, initial: real, earlier: seq<Op>, msg: MapMsg)
    requires FLT_EPSILON < initial && Good(s) && Refines(s, initial, earlier)
    ensures Good(Apply(s, Store(msg))) && Refines(Apply(s, Store(msg)), initial, earlier + [Store(msg)])
  {
    var ops := earlier + [Store(msg)];
    assert ops[..|ops| - 1] == earlier && ops[|ops| - 1] == Store(msg);
    hide Written, MapStored;
    ResolutionIsPositive(initial, earlier);
    ApplyKeepsInvariant(s, Store(msg));
    StoreEffect(s, msg);
    if Accepts(s.resolution, msg) {
      var target := TargetRect(s.resolution, msg);
      WrittenIsOverwrite(s, target, msg.data);
      HullAppend(Writes(initial, earlier), target);
    }
  }

  lemma StepRefines(s: HolderState, initial: real, earlier: seq<Op>, op: Op)
    requires FLT_EPSILON < initial && Good(s) && Refines(s, initial, earlier)
    ensures Good(Apply(s, op)) && Refines(Apply(s, op), initial, earlier + [op])
  {
    var ops := earlier + [op];
    assert ops[..|ops| - 1] == earlier && ops[|ops| - 1] == op;
    ResolutionIsPositive(initial, earlier);
    ApplyKeepsInvariant(s, op);
    match op
    case Clear => ClearedIsBlank(s);
    case Reinit(resolution) => if FLT_EPSILON < resolution { ClearedIsBlank(s); }
    case Reserve(rect) => ReservedKeepsCells(s, rect);
    case Store(msg) => StoreRefines(s, initial, earlier, msg);
  }

  /** The buffer refines the list of operations, over every run from a blank holder. */
  lemma {:induction false} RunRefinesGrid(start: HolderState, ops: seq<Op>)
    requires Blank(start)
    ensures Refines(Run(start, ops), start.resolution, ops)
  {
    if ops == [] {
      ClearedIsBlank(start);
    } else {
      var earlier, op := ops[..|ops| - 1], ops[|ops| - 1];
      RunRefinesGrid(start, earlier);
      StepRefines(Run(start, earlier), start.resolution, earlier, op);
      assert ops == earlier + [op];
    }
  }

  /** What a published grid shows after any run: -1 for 0, 0 for 1..127, 100 for 128..255, everywhere. */
  lemma PublishedShowsGrid(start: HolderState, ops: seq<Op>, req: Rect, x: int, y: int)
    requires Blank(start) && req.HasCell(x, y)
    ensures var d, v := Published(Run(start, ops), req), GridAt(start.resolution, ops, x, y);
            && |d| == req.width * req.height
            && 0 <= Index(req, x, y) < |d|
            && (d[Index(req, x, y)] == -1 <==> v == 0)
            && (d[Index(req, x, y)] == 0 <==> 1 <= v <= 127)
            && (d[Index(req, x, y)] == 100 <==> 128 <= v)
  {
    var s := Run(start, ops);
    RunRefinesGrid(start, ops);
    RasterAt(req, (a, b) => Classify(Cell(s, a, b)), x, y);
    assert Cell(s, x, y) == GridAt(start.resolution, ops, x, y);
  }

  lemma RunHasResolution(start: HolderState, ops: seq<Op>)
    requires Blank(start)
    ensures 0.0 < Run(start, ops).resolution == ResolutionAfter(start.resolution, ops)
  {
    RunRefinesGrid(start, ops);
  }

  lemma LengthSum(resolution: real, a: int, b: int)
    ensures Length(resolution, a + b) == Length(resolution, a) + resolution * b as real
  {
    assert (a + b) as real == a as real + b as real;
  }

  lemma CornerAt(resolution: real, req: Rect, k: int) returns (cx: int, cy: int)
    requires 0.0 < resolution && !req.IsEmpty() && 0 <= k < req.width * req.height
    ensures var info := InfoOf(resolution, req);
            && info.width == req.width && info.height == req.height && info.resolution == resolution
            && Length(resolution, cx) == info.originX + info.resolution * (k % info.width) as real
            && Length(resolution, cy) == info.originY + info.resolution * (k / info.width) as real
    ensures req.HasCell(cx, cy) && Index(req, cx, cy) == k
  {
    cx, cy := req.x + k % req.width, req.y + k / req.width;
    Unflatten(req, k);
    hide Index, Length;
    LengthSum(resolution, req.x, k % req.width);
    LengthSum(resolution, req.y, k / req.width);
  }

  /**
    What a published grid means as a map, from the grid alone, after any run and for any non-empty request: entry k
    classifies the cell whose lower corner lies k % width columns and k / width rows from the published origin.
   */
  lemma PublishedIsMap(start: HolderState, ops: seq<Op>, req: Rect, k: int) returns (cx: int, cy: int)
    requires Blank(start) && !req.IsEmpty() && 0 <= k < req.width * req.height
    ensures var s := Run(start, ops);
            var info, d := InfoOf(s.resolution, req), Published(s, req);
            && |d| == info.width * info.height == req.width * req.height && 0 < info.width
            && info.resolution == s.resolution == ResolutionAfter(start.resolution, ops)
            && Length(s.resolution, cx) == info.originX + info.resolution * (k % info.width) as real
            && Length(s.resolution, cy) == info.originY + info.resolution * (k / info.width) as real
            && req.HasCell(cx, cy)
            && d[k] == (var v := GridAt(start.resolution, ops, cx, cy); if v == 0 then -1 else if v <= 127 then 0 else 100)
  {
    hide Index, Length, Published, GridAt, Cell, Good, InfoOf, ResolutionAfter, Run, Rect.HasCell;
    RunHasResolution(start, ops);
    cx, cy := CornerAt(Run(start, ops).resolution, req, k);
    PublishedShowsGrid(start, ops, req, cx, cy);
  }

  lemma PositiveResolution(s: HolderState)
    requires Good(s)
    ensures 0.0 < s.resolution && Shaped(s)
  {
  }

  lemma TargetIsNearest(resolution: real, m: MapMsg)
    requires 0.0 < resolution && m.MapMsg?
    ensures var target := TargetRect(resolution, m);
            && IsNearestCell(resolution, m.x, target.x) && Abs(Length(resolution, target.x) - m.x) <= resolution / 2.0
            && IsNearestCell(resolution, m.y, target.y) && Abs(Length(resolution, target.y) - m.y) <= resolution / 2.0
            && target.width == m.dimX && target.height == m.dimY
  {
    hide IsNearestCell, RoundCell;
    RoundCellIsNearest(resolution, m.x);
    RoundCellIsNearest(resolution, m.y);
  }

  lemma OverwriteAt(s: HolderState, up: Rect, src: seq<byte>, i: int, j: int)
    requires Shaped(s) && up.width * up.height <= |src| && 0 <= i < up.width && 0 <= j < up.height
    ensures 0 <= j * up.width + i < |src| && Overwrite(s, up, src, up.x + i, up.y + j) == src[j * up.width + i]
  {
    IndexInBounds(up, up.x + i, up.y + j);
  }

  /** Where a received map goes: its first cell is the one nearest to the received position, and the rest follows row by row. */
  lemma StoredMapIsNearest(s: HolderState, m: MapMsg, i: int, j: int)
    requires Good(s) && Accepts(s.resolution, m) && 0 <= i < m.dimX && 0 <= j < m.dimY
    ensures var target := TargetRect(s.resolution, m);
            && IsNearestCell(s.resolution, m.x, target.x) && Abs(Length(s.resolution, target.x) - m.x) <= s.resolution / 2.0
            && IsNearestCell(s.resolution, m.y, target.y) && Abs(Length(s.resolution, target.y) - m.y) <= s.resolution / 2.0
            && 0 <= j * m.dimX + i < |m.data|
            && Good(MapStored(s, m).1)
            && Cell(MapStored(s, m).1, target.x + i, target.y + j) == m.data[j * m.dimX + i]
  {
    hide Good, MapStored, Written, IsNearestCell, Overwrite;
    PositiveResolution(s);
    var target := TargetRect(s.resolution, m);
    TargetIsNearest(s.resolution, m);
    StoreEffect(s, m);
    WrittenIsOverwrite(s, target, m.data);
    OverwriteAt(s, target, m.data, i, j);
  }

  /** Why a received map is refused: the first of the checks that fails, in their order; the state tells nothing. */
  lemma StoreOutcome(s: HolderState, m: MapMsg)
    requires Good(s)
    ensures var outcome := MapStored(s, m).0;
            && (m.NullMap? ==> outcome == Done)
            && (m.MapMsg? ==>
                  && (outcome == Threw(ResolutionDiffersOnAxes) <==> FLT_EPSILON <= Abs(m.resX - m.resY))
                  && (outcome == Threw(TooFewCells) <==> Abs(m.resX - m.resY) < FLT_EPSILON && |m.data| < m.dimX * m.dimY)
                  && (outcome == Threw(InconsistentResolution) <==>
                        && Abs(m.resX - m.resY) < FLT_EPSILON && m.dimX * m.dimY <= |m.data|
                        && 0 < m.dimX && 0 < m.dimY && FLT_EPSILON <= Abs(m.resX - s.resolution))
                  && (outcome == Threw(InvalidResolution) <==>
                        && Abs(m.resX - m.resY) < FLT_EPSILON && m.dimX * m.dimY <= |m.data|
                        && 0 < m.dimX && 0 < m.dimY && Abs(m.resX - s.resolution) < FLT_EPSILON && m.resX <= FLT_EPSILON))
  {
    assert FLT_EPSILON < s.resolution;
    hide Good, Written;
  }

  lemma {:induction false} WritesAreNonEmpty(initial: real, ops: seq<Op>)
    requires FLT_EPSILON < initial
    ensures AllNonEmpty(Writes(initial, ops))
  {
    if ops != [] {
      ResolutionIsPositive(initial, ops[..|ops| - 1]);
      WritesAreNonEmpty(initial, ops[..|ops| - 1]);
    }
  }

  /** The valid rectangle does not depend on the order of the writes. */
  lemma ValidRectIgnoresOrder(start: HolderState, ops: seq<Op>, others: seq<Op>)
    requires Blank(start)
    requires forall r :: r in Writes(start.resolution, ops) <==> r in Writes(start.resolution, others)
    ensures Run(start, ops).valid == Run(start, others).valid
  {
    RunRefinesGrid(start, ops);
    RunRefinesGrid(start, others);
    WritesAreNonEmpty(start.resolution, ops);
    HullIgnoresOrder(Writes(start.resolution, ops), Writes(start.resolution, others));
  }

  // ----- Amortised growth -----

  /** The number of reallocating writes since the last reset, after one more operation. */
  ghost function NextCount(s: HolderState, op: Op, n: nat): nat
    requires Good(s)
  {
    if IsReset(op) then
      0
    else if op.Store? && Accepts(s.resolution, op.msg) && !s.avail.Contains(TargetRect(s.resolution, op.msg)) then
      n + 1
    else
      n
  }

  /** How often a write since the last reset had to reallocate. */
  ghost function Reallocations(start: HolderState, ops: seq<Op>): nat
    requires Good(start)
  {
    if ops == [] then
      0
    else
      var earlier := ops[..|ops| - 1];
      NextCount(Run(start, earlier), ops[|ops| - 1], Reallocations(start, earlier))
  }

  function Girth(r: Rect): int {
    r.width + r.height
  }

  /** A non-empty rectangle that is not contained exceeds an axis. */
  lemma SomeGain(avail: Rect, up: Rect, more: int)
    requires 0 <= more && 0 <= avail.width && 0 <= avail.height && (avail.IsEmpty() ==> avail == ZERO_RECT)
    requires !up.IsEmpty() && !avail.Contains(up)
    ensures more + 1 <= Gain(avail.x, avail.XEnd(), up.x, up.XEnd(), more) + Gain(avail.y, avail.YEnd(), up.y, up.YEnd(), more)
  {
  }

  /** e reaches as far as avail on all four sides and has a girth larger by more than `more`. */
  ghost predicate Widened(avail: Rect, e: Rect, more: int) {
    && 0 < e.width && 0 < e.height
    && e.x <= avail.x && avail.XEnd() <= e.XEnd() && e.y <= avail.y && avail.YEnd() <= e.YEnd()
    && Girth(avail) + more + 1 <= Girth(e)
  }

  /** The extension rectangle contains what was available and exceeds it by the extension count somewhere. */
  lemma ExtensionWidens(avail: Rect, up: Rect, more: int)
    requires 0 <= more && 0 <= avail.width && 0 <= avail.height && (avail.IsEmpty() ==> avail == ZERO_RECT)
    requires !up.IsEmpty() && !avail.Contains(up)
    ensures Widened(avail, ExtensionRect(avail, up, more), more)
  {
    var gainX := Gain(avail.x, avail.XEnd(), up.x, up.XEnd(), more);
    var gainY := Gain(avail.y, avail.YEnd(), up.y, up.YEnd(), more);
    assert more + 1 <= gainX + gainY by {
      SomeGain(avail, up, more);
    }
    ExtensionGains(avail, up, more);
  }

  /** A widened rectangle is not contained and absorbs the other in a merge. */
  lemma WidenedReplaces(avail: Rect, e: Rect, more: int)
    requires 0 <= more && 0 <= avail.width && 0 <= avail.height && Widened(avail, e, more)
    ensures avail.Merge(e) == e && !avail.Contains(e) && !e.IsEmpty()
  {
  }

  lemma ContainedGirth(a: Rect, b: Rect)
    requires a.Contains(b) && !b.IsEmpty()
    ensures Girth(b) <= Girth(a)
  {
  }

  lemma AlignedGrowth(a: Rect, b: Rect, n: int)
    requires IsAligned(a) && IsAligned(b) && Girth(a) + n <= Girth(b)
    ensures Girth(a) + AlignedCeil(n) <= Girth(b)
  {
    MultiplesOf16(AlignedCeil(n), Girth(b) - Girth(a));
  }

  lemma AdjustedGirth(avail: Rect, e: Rect, more: int)
    requires IsAligned(avail) && Widened(avail, e, more)
    ensures Girth(avail) + AlignedCeil(more + 1) <= Girth(Adjusted(e))
  {
    AdjustedIsLeastAligned(e, ZERO_RECT);
    ContainedGirth(Adjusted(e), e);
    AlignedGrowth(avail, Adjusted(e), more + 1);
  }

  lemma ExtensionReplaces(avail: Rect, up: Rect, more: int)
    requires 0 <= more && 0 <= avail.width && 0 <= avail.height && (avail.IsEmpty() ==> avail == ZERO_RECT)
    requires !up.IsEmpty() && !avail.Contains(up)
    ensures var e := ExtensionRect(avail, up, more);
            avail.Merge(e) == e && !avail.Contains(e) && !e.IsEmpty()
  {
    ExtensionWidens(avail, up, more);
    WidenedReplaces(avail, ExtensionRect(avail, up, more), more);
  }

  lemma ReservedAvail(s: HolderState, r: Rect)
    requires Shaped(s) && !r.IsEmpty() && !s.avail.Contains(r)
    ensures Reserved(s, r).avail == Adjusted(s.avail.Merge(r))
  {
  }

  /** A write that does not fit reallocates to the adjusted extension rectangle. */
  lemma ExtendedAvail(s: HolderState, up: Rect)
    requires Good(s) && !up.IsEmpty() && !s.avail.Contains(up)
    ensures Extended(s, up).avail == Adjusted(ExtensionRect(s.avail, up, s.more))
  {
    ExtensionReplaces(s.avail, up, s.more);
    ReservedAvail(s, ExtensionRect(s.avail, up, s.more));
  }

  /** A reallocating write widens the buffer by more than the extension count, in whole 16-cell steps. */
  lemma ReallocationGrows(s: HolderState, up: Rect)
    requires Good(s) && !up.IsEmpty() && !s.avail.Contains(up)
    ensures Girth(s.avail) + AlignedCeil(s.more + 1) <= Girth(Extended(s, up).avail)
  {
    hide Adjusted, AlignedCeil, Extended, ExtensionRect, Girth, Widened;
    var e := ExtensionRect(s.avail, up, s.more);
    ExtensionWidens(s.avail, up, s.more);
    ExtendedAvail(s, up);
    AdjustedGirth(s.avail, e, s.more);
  }

  lemma ReservationGrows(s: HolderState, r: Rect)
    requires Good(s)
    ensures Girth(s.avail) <= Girth(Reserved(s, r).avail)
  {
    ReservedKeepsCells(s, r);
  }

  lemma AcceptedAvail(s: HolderState, m: MapMsg)
    requires Good(s) && Accepts(s.resolution, m)
    ensures Apply(s, Store(m)).avail == Extended(s, TargetRect(s.resolution, m)).avail
  {
    StoreEffect(s, m);
  }

  /** The girth that n reallocations account for: each at least the extension count plus one, in 16-cell steps. */
  function Paid(n: nat, more: int): int {
    n * AlignedCeil(more + 1)
  }

  lemma OneMorePaid(n: nat, more: int)
    ensures Paid(n + 1, more) == Paid(n, more) + AlignedCeil(more + 1)
  {
  }

  lemma CountPaid(n: nat, fits: bool, more: int)
    ensures Paid(if fits then n else n + 1, more) == Paid(n, more) + if fits then 0 else AlignedCeil(more + 1)
  {
    OneMorePaid(n, more);
  }

  lemma StoreGrows(s: HolderState, up: Rect)
    requires Good(s) && !up.IsEmpty()
    ensures Girth(s.avail) + (if s.avail.Contains(up) then 0 else AlignedCeil(s.more + 1)) <= Girth(Extended(s, up).avail)
  {
    if !s.avail.Contains(up) {
      ReallocationGrows(s, up);
    }
  }

  lemma AmortisedStore(s: HolderState, m: MapMsg, n: nat)
    requires Good(s) && Paid(n, s.more) <= Girth(s.avail)
    ensures Paid(NextCount(s, Store(m), n), s.more) <= Girth(Apply(s, Store(m)).avail)
  {
    hide Good, MapStored, Paid, AlignedCeil, Extended;
    if Accepts(s.resolution, m) {
      var up := TargetRect(s.resolution, m);
      AcceptedAvail(s, m);
      StoreGrows(s, up);
      CountPaid(n, s.avail.Contains(up), s.more);
    } else {
      StoreEffect(s, m);
    }
  }

  lemma NothingPaid(more: int)
    ensures Paid(0, more) == 0
  {
  }

  lemma AmortisedStep(s: HolderState, op: Op, n: nat)
    requires Good(s) && Paid(n, s.more) <= Girth(s.avail)
    ensures Paid(NextCount(s, op, n), s.more) <= Girth(Apply(s, op).avail)
  {
    match op
    case Clear => NothingPaid(s.more);
    case Reinit(_) => NothingPaid(s.more);
    case Reserve(rect) => ReservationGrows(s, rect);
    case Store(msg) => AmortisedStore(s, msg, n);
  }

  /** Each reallocation is paid for by growth, so width plus height bounds their number. */
  lemma {:induction false} ReallocationsAreAmortised(start: HolderState, ops: seq<Op>)
    requires Blank(start)
    ensures Paid(Reallocations(start, ops), start.more) <= Girth(Run(start, ops).avail)
  {
    NothingPaid(start.more);
    if ops != [] {
      var earlier, op := ops[..|ops| - 1], ops[|ops| - 1];
      ReallocationsAreAmortised(start, earlier);
      AmortisedStep(Run(start, earlier), op, Reallocations(start, earlier));
    }
  }

  lemma QuotientBound(n: nat, step: int, least: int, total: int)
    requires 0 < step <= least && n * least <= total
    ensures n <= total / step
  {
    assert n * step <= n * least;
    QuotientAtLeast(n, step, total);
  }

  /** The bound in plain numbers: reallocations times (extension count + 1) never exceed width plus height. */
  lemma ReallocationBound(start: HolderState, ops: seq<Op>)
    requires Blank(start)
    ensures var s := Run(start, ops);
            Reallocations(start, ops) <= (s.avail.width + s.avail.height) / (start.more + 1)
  {
    hide AlignedCeil, Run, Reallocations;
    ReallocationsAreAmortised(start, ops);
    QuotientBound(Reallocations(start, ops), start.more + 1, AlignedCeil(start.more + 1), Girth(Run(start, ops).avail));
  }

  // ----- Bounded waste -----

  /** The cells between the least start and the greatest end of some rectangles and the origin, on both axes. */
  datatype Box = Box(xLo: int, xHi: int, yLo: int, yHi: int) {
    function Add(r: Rect): Box {
      Box(Min(xLo, r.x), Max(xHi, r.XEnd()), Min(yLo, r.y), Max(yHi, r.YEnd()))
    }

    /** The rectangle lies inside this box widened by the margin on each side. */
    predicate Encloses(r: Rect, margin: int) {
      && xLo - margin <= r.x && r.XEnd() <= xHi + margin
      && yLo - margin <= r.y && r.YEnd() <= yHi + margin
    }
  }

  /** The box of the origin and everything written or reserved since the last reset. */
  function Touched(initial: real, ops: seq<Op>): (b: Box)
    requires FLT_EPSILON < initial
    ensures b.xLo <= 0 <= b.xHi && b.yLo <= 0 <= b.yHi
  {
    if ops == [] then
      Box(0, 0, 0, 0)
    else
      var earlier, op := ops[..|ops| - 1], ops[|ops| - 1];
      ResolutionIsPositive(initial, earlier);
      var resolution := ResolutionAfter(initial, earlier);
      var box := Touched(initial, earlier);
      match op
      case Clear => Box(0, 0, 0, 0)
      case Reinit(r) => if r <= FLT_EPSILON then box else Box(0, 0, 0, 0)
      case Reserve(rect) => if rect.IsEmpty() then box else box.Add(rect)
      case Store(msg) => if Accepts(resolution, msg) then box.Add(TargetRect(resolution, msg)) else box
  }

  /** The aligned end is the same from whichever aligned start it is counted. */
  lemma AlignedEnd(end: int, floor: int)
    requires floor % ALIGNMENT == 0
    ensures floor + AlignedCeil(end - floor) == AlignedCeil(end)
  {
    hide AlignedCeil;
    MultiplesOf16(AlignedCeil(end - floor), AlignedCeil(end) - floor);
  }

  lemma AlignedIsItself(n: int)
    requires n % ALIGNMENT == 0
    ensures AlignedFloor(n) == n && AlignedCeil(n) == n
  {
  }

  /** One axis of an adjustment: at most 15 cells beyond an end, and none beyond an aligned one. */
  lemma AxisWaste(start: int, size: int, lo: int, hi: int)
    requires 0 < size
    requires lo - 15 <= start && (start % ALIGNMENT == 0 || lo <= start)
    requires start + size <= hi + 15 && ((start + size) % ALIGNMENT == 0 || start + size <= hi)
    ensures var (alignedStart, alignedSize) := AdjustedAxis(start, size);
            lo - 15 <= alignedStart && alignedStart + alignedSize <= hi + 15
  {
    hide AlignedFloor, AlignedCeil;
    AlignedEnd(start + size, AlignedFloor(start));
    if start % ALIGNMENT == 0 {
      AlignedIsItself(start);
    }
    if (start + size) % ALIGNMENT == 0 {
      AlignedIsItself(start + size);
    }
  }

  /** Each end of a rectangle is aligned, or inside the box widened by the margin. */
  ghost predicate AlignedOrInside(r: Rect, box: Box, margin: int) {
    && (r.x % ALIGNMENT == 0 || box.xLo - margin <= r.x) && (r.XEnd() % ALIGNMENT == 0 || r.XEnd() <= box.xHi + margin)
    && (r.y % ALIGNMENT == 0 || box.yLo - margin <= r.y) && (r.YEnd() % ALIGNMENT == 0 || r.YEnd() <= box.yHi + margin)
  }

  lemma AdjustedWaste(r: Rect, box: Box, margin: int)
    requires !r.IsEmpty() && box.Encloses(r, margin + 15) && AlignedOrInside(r, box, margin)
    ensures box.Encloses(Adjusted(r), margin + 15)
  {
    AxisWaste(r.x, r.width, box.xLo - margin, box.xHi + margin);
    AxisWaste(r.y, r.height, box.yLo - margin, box.yHi + margin);
  }

  lemma AlignedEnds(r: Rect)
    requires IsAligned(r)
    ensures r.XEnd() % ALIGNMENT == 0 && r.YEnd() % ALIGNMENT == 0
  {
  }

  /** One reservation stays inside any box that enclosed the buffer and reaches the request up to 15 cells. */
  lemma ReservationWaste(avail: Rect, r: Rect, box: Box, margin: int)
    requires IsAligned(avail) && box.Encloses(avail, margin + 15)
    requires !r.IsEmpty() && box.Encloses(r, margin) && 0 <= margin
    ensures box.Encloses(Adjusted(avail.Merge(r)), margin + 15)
  {
    AlignedEnds(avail);
    var m := avail.Merge(r);
    assert box.Encloses(m, margin + 15) && AlignedOrInside(m, box, margin) && !m.IsEmpty();
    AdjustedWaste(m, box, margin);
  }

  /** The rectangle an operation reaches for, if any. */
  predicate Reaches(s: HolderState, op: Op, r: Rect)
    requires FLT_EPSILON < s.resolution
  {
    match op
    case Reserve(rect) => r == rect && !rect.IsEmpty()
    case Store(msg) => Accepts(s.resolution, msg) && r == TargetRect(s.resolution, msg)
    case _ => false
  }

  lemma ReservedWaste(s: HolderState, r: Rect, box: Box)
    requires Good(s) && box.Encloses(s.avail, s.more + 15) && (r.IsEmpty() || box.Encloses(r, 0))
    ensures box.Encloses(Reserved(s, r).avail, s.more + 15)
  {
    if !r.IsEmpty() && !s.avail.Contains(r) {
      ReservationWaste(s.avail, r, box, s.more);
    }
  }

  lemma AxisInBox(start: int, end: int, upStart: int, upEnd: int, lo: int, hi: int, more: int)
    requires 0 <= more && start % ALIGNMENT == 0 && end % ALIGNMENT == 0
    requires lo - (more + 15) <= start && end <= hi + (more + 15) && lo <= upStart && upEnd <= hi
    ensures var s, e := ExtensionStart(start, upStart, more), ExtensionEnd(end, upEnd, more);
            && lo - (more + 15) <= s && (s % ALIGNMENT == 0 || lo - more <= s)
            && e <= hi + (more + 15) && (e % ALIGNMENT == 0 || e <= hi + more)
  {
  }

  lemma ExtensionInBox(avail: Rect, up: Rect, box: Box, more: int)
    requires 0 <= more && IsAligned(avail) && box.Encloses(avail, more + 15) && box.Encloses(up, 0)
    ensures var e := ExtensionRect(avail, up, more); box.Encloses(e, more + 15) && AlignedOrInside(e, box, more)
  {
    AlignedEnds(avail);
    AxisInBox(avail.x, avail.XEnd(), up.x, up.XEnd(), box.xLo, box.xHi, more);
    AxisInBox(avail.y, avail.YEnd(), up.y, up.YEnd(), box.yLo, box.yHi, more);
  }

  lemma StoreWaste(avail: Rect, up: Rect, box: Box, more: int)
    requires 0 <= more && 0 <= avail.width && 0 <= avail.height && (avail.IsEmpty() ==> avail == ZERO_RECT) && IsAligned(avail)
    requires !up.IsEmpty() && !avail.Contains(up)
    requires box.Encloses(avail, more + 15) && box.Encloses(up, 0)
    requires box.xLo <= 0 <= box.xHi && box.yLo <= 0 <= box.yHi
    ensures box.Encloses(Adjusted(ExtensionRect(avail, up, more)), more + 15)
  {
    var e := ExtensionRect(avail, up, more);
    ExtensionWidens(avail, up, more);
    ExtensionInBox(avail, up, box, more);
    AdjustedWaste(e, box, more);
  }

  lemma ExtendedWaste(s: HolderState, up: Rect, box: Box)
    requires Good(s) && !up.IsEmpty() && box.Encloses(s.avail, s.more + 15) && box.Encloses(up, 0)
    requires box.xLo <= 0 <= box.xHi && box.yLo <= 0 <= box.yHi
    ensures box.Encloses(Extended(s, up).avail, s.more + 15)
  {
    if !s.avail.Contains(up) {
      StoreWaste(s.avail, up, box, s.more);
      ExtendedAvail(s, up);
    }
  }

  lemma StepWaste(s: HolderState, op: Op, box: Box)
    requires Good(s) && !IsReset(op) && box.Encloses(s.avail, s.more + 15)
    requires box.xLo <= 0 <= box.xHi && box.yLo <= 0 <= box.yHi
    requires forall r :: Reaches(s, op, r) ==> box.Encloses(r, 0)
    ensures box.Encloses(Apply(s, op).avail, s.more + 15)
  {
    match op
    case Reinit(_) =>
    case Reserve(rect) =>
      assert !rect.IsEmpty() ==> Reaches(s, op, rect);
      ReservedWaste(s, rect, box);
    case Store(msg) =>
      StoreEffect(s, msg);
      if Accepts(s.resolution, msg) {
        assert Reaches(s, op, TargetRect(s.resolution, msg));
        ExtendedWaste(s, TargetRect(s.resolution, msg), box);
      }
  }

  /** The buffer never leaves the touched box by more than the extension count plus 15 cells. */
  lemma {:induction false} WasteIsBounded(start: HolderState, ops: seq<Op>)
    requires Blank(start)
    ensures Touched(start.resolution, ops).Encloses(Run(start, ops).avail, start.more + 15)
  {
    if ops != [] {
      var earlier, op := ops[..|ops| - 1], ops[|ops| - 1];
      WasteIsBounded(start, earlier);
      RunRefinesGrid(start, earlier);
      var before, box := Run(start, earlier), Touched(start.resolution, ops);
      if !IsReset(op) {
        StepWaste(before, op, box);
      }
    }
  }
}
