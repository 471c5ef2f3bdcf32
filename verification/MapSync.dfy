/** The explore-map update as value functions, and what a whole-map sync achieves. */
module MapSync {
  import opened CellRects
  import opened CellAreas
  import opened Alignment
  import opened HolderSpec
  import opened MapHolder
  import opened HolderRuns
  import opened Platform
  import opened SyncTiles

  /** The state the map update works on: its own flag, the shared request flag, and the holder. */
  datatype MapState = MapState(shouldReinit: bool, syncRequested: bool, holder: HolderState)

  /** A boolean result, or an exception on its way to the work loop. */
  datatype Result = Ok(success: bool) | Failed(ex: Exception)

  /** State and outcome after some calls, with the number of calls made so far. */
  datatype Step = Step(result: Result, state: MapState, calls: nat)

  /** A map request; only an operation failure is turned into an empty map. */
  function Fetch(p: Script, calls: nat, area: Area): Reply<MapMsg> {
    match p.getMap(calls, area)
    case Raised(OperationFail) => Returned(NullMap)
    case other => other
  }

  ghost function UpdateInRect(p: Script, calls: nat, s: MapState, r: Rect): Step
    requires Good(s.holder)
  {
    match Fetch(p, calls, AreaOf(s.holder.resolution, r))
    case Raised(ex) => Step(Failed(ex), s, calls + 1)
    case Returned(m) =>
      if m.NullMap? then
        Step(Ok(false), s, calls + 1)
      else if !Fequal(s.holder.resolution, m.resX) then
        Step(Ok(false), s.(shouldReinit := true), calls + 1)
      else
        var (outcome, holder) := MapStored(s.holder, m);
        if outcome == Done then Step(Ok(true), s.(holder := holder), calls + 1)
        else Step(Failed(MapFault(outcome.error)), s, calls + 1)
  }

  /** The platform answered with a map of another resolution. */
  ghost predicate Mismatch(p: Script, calls: nat, s: MapState, r: Rect) {
    var reply := Fetch(p, calls, AreaOf(s.holder.resolution, r));
    reply.Returned? && reply.value.MapMsg? && !Fequal(s.holder.resolution, reply.value.resX)
  }

  lemma StoreKeepsInvariant(h: HolderState, m: MapMsg)
    requires Good(h)
    ensures var (outcome, t) := MapStored(h, m);
            Good(t) && t.resolution == h.resolution && t.more == h.more && (outcome != Done ==> t == h)
  {
    hide Written, MapStored;
    StoreEffect(h, m);
    if Accepts(h.resolution, m) {
      WrittenIsOverwrite(h, TargetRect(h.resolution, m), m.data);
    }
  }

  lemma UpdateKeepsInvariant(p: Script, calls: nat, s: MapState, r: Rect)
    requires Good(s.holder)
    ensures var t := UpdateInRect(p, calls, s, r);
            && Good(t.state.holder) && t.calls == calls + 1
            && t.state.syncRequested == s.syncRequested
            && t.state.shouldReinit == (s.shouldReinit || Mismatch(p, calls, s, r))
            && (Mismatch(p, calls, s, r) ==> t.result == Ok(false))
            && t.state.holder.resolution == s.holder.resolution && t.state.holder.more == s.holder.more
            && (t.result != Ok(true) ==> t.state.holder == s.holder)
  {
    hide Fetch, Fequal;
    var reply := Fetch(p, calls, AreaOf(s.holder.resolution, r));
    if reply.Returned? {
      StoreKeepsInvariant(s.holder, reply.value);
    }
  }

  /** The tiles requested one after the other, up to the first that does not succeed. */
  ghost function UpdateTiles(p: Script, calls: nat, s: MapState, tiles: seq<Rect>): Step
    requires Good(s.holder)
    decreases |tiles|
  {
    if tiles == [] then
      Step(Ok(true), s, calls)
    else
      UpdateKeepsInvariant(p, calls, s, tiles[0]);
      var t := UpdateInRect(p, calls, s, tiles[0]);
      if t.result != Ok(true) then t else UpdateTiles(p, t.calls, t.state, tiles[1..])
  }

  /** One of the requested tiles, all before it succeeding, was answered with a map of another resolution. */
  ghost predicate TilesMismatch(p: Script, calls: nat, s: MapState, tiles: seq<Rect>)
    requires Good(s.holder)
    decreases |tiles|
  {
    tiles != []
    && (UpdateKeepsInvariant(p, calls, s, tiles[0]);
        var t := UpdateInRect(p, calls, s, tiles[0]);
        Mismatch(p, calls, s, tiles[0]) || (t.result == Ok(true) && TilesMismatch(p, t.calls, t.state, tiles[1..])))
  }

  /** The tiles leave the request flag alone, and raise the other one exactly on a mismatch. */
  lemma {:induction false} UpdateTilesFlags(p: Script, calls: nat, s: MapState, tiles: seq<Rect>)
    requires Good(s.holder)
    ensures var t := UpdateTiles(p, calls, s, tiles);
            && Good(t.state.holder) && calls <= t.calls
            && t.state.syncRequested == s.syncRequested
            && t.state.shouldReinit == (s.shouldReinit || TilesMismatch(p, calls, s, tiles))
            && (t.result == Ok(true) ==> !TilesMismatch(p, calls, s, tiles))
    decreases |tiles|
  {
    hide Good, UpdateInRect;
    if tiles != [] {
      UpdateKeepsInvariant(p, calls, s, tiles[0]);
      var t := UpdateInRect(p, calls, s, tiles[0]);
      if t.result == Ok(true) {
        UpdateTilesFlags(p, t.calls, t.state, tiles[1..]);
      }
    }
  }

  const LEAST_ONCE_MAX_WH: real := 16.0

  function MaxReal(a: real, b: real): real {
    if a <= b then b else a
  }

  /** The tile limit in cells for the configured length. */
  function OnceMaxCellCount(resolution: real, onceMaxWH: real): int
    requires 0.0 < resolution
  {
    RoundCell(resolution, MaxReal(LEAST_ONCE_MAX_WH, onceMaxWH))
  }

  lemma ProductSign(k: real, a: real)
    requires 0.0 < k
    ensures 0.0 <= a <==> 0.0 <= k * a
  {
  }

  lemma HalfRoundsUp(resolution: real, length: real, quotient: real)
    requires 0.0 < resolution && 0.0 <= length && resolution * quotient == length
    ensures 0 < Round(quotient) <==> resolution <= 2.0 * length
  {
    var d := quotient - 0.5;
    assert resolution * d == length - resolution / 2.0;
    ProductSign(resolution, d);
    ProductSign(resolution, quotient);
  }

  lemma RoundsToSome(resolution: real, length: real)
    requires 0.0 < resolution && 0.0 <= length
    ensures 0 < RoundCell(resolution, length) <==> resolution <= 2.0 * length
  {
    LengthOfInCells(resolution, length);
    HalfRoundsUp(resolution, length, InCells(resolution, length));
  }

  /** The request limit is rounded to the nearest cell; some cell is left while a cell is at most twice as long. */
  lemma TileLimitIsPositive(resolution: real, onceMaxWH: real)
    requires 0.0 < resolution
    ensures var length := if onceMaxWH <= 16.0 then 16.0 else onceMaxWH;
            && (0 < OnceMaxCellCount(resolution, onceMaxWH) <==> resolution <= 2.0 * length)
            && Abs(Length(resolution, OnceMaxCellCount(resolution, onceMaxWH)) - length) <= resolution / 2.0
  {
    RoundCellIsNearest(resolution, MaxReal(LEAST_ONCE_MAX_WH, onceMaxWH));
    RoundsToSome(resolution, MaxReal(LEAST_ONCE_MAX_WH, onceMaxWH));
  }

  /** The holder a sync starts from: cleared, with room for the whole known rectangle. */
  ghost function SyncStart(h: HolderState, known: Rect): HolderState {
    Reserved(Cleared(h), known)
  }

  lemma StartKeepsInvariant(h: HolderState, known: Rect)
    requires Good(h) && !known.IsEmpty()
    ensures var t := SyncStart(h, known);
            && Good(t) && t.resolution == h.resolution && t.more == h.more && t.valid == ZERO_RECT
            && t.avail == Adjusted(known) && t.avail.Contains(known)
            && forall x, y :: Cell(t, x, y) == 0
  {
    ClearedIsBlank(h);
    ReservedKeepsCells(Cleared(h), known);
  }

  /** The sync gets as far as clearing the holder. */
  ghost predicate SyncStarts(p: Script, calls: nat, s: MapState, onceMaxWH: real)
    requires Good(s.holder)
  {
    var reply := p.getKnownArea(calls);
    && 0 < OnceMaxCellCount(s.holder.resolution, onceMaxWH)
    && reply.Returned? && !Rounded(s.holder.resolution, reply.value).IsEmpty()
  }

  ghost function SyncWhole(p: Script, calls: nat, s: MapState, onceMaxWH: real): Step
    requires Good(s.holder)
  {
    var limit := OnceMaxCellCount(s.holder.resolution, onceMaxWH);
    if limit <= 0 then
      Step(Failed(AssertionFailed), s, calls)
    else
      match p.getKnownArea(calls)
      case Raised(ex) => Step(Failed(ex), s, calls + 1)
      case Returned(area) =>
        var known := Rounded(s.holder.resolution, area);
        if known.IsEmpty() then
          Step(Ok(false), s, calls + 1)
        else
          StartKeepsInvariant(s.holder, known);
          UpdateTiles(p, calls + 1, s.(holder := SyncStart(s.holder, known)), Tiles(known, limit))
  }

  /** A request of the sync was answered with a map of another resolution. */
  ghost predicate SyncMismatch(p: Script, calls: nat, s: MapState, onceMaxWH: real)
    requires Good(s.holder)
  {
    SyncStarts(p, calls, s, onceMaxWH)
    && var known := Rounded(s.holder.resolution, p.getKnownArea(calls).value);
       var limit := OnceMaxCellCount(s.holder.resolution, onceMaxWH);
       StartKeepsInvariant(s.holder, known);
       TilesMismatch(p, calls + 1, s.(holder := SyncStart(s.holder, known)), Tiles(known, limit))
  }

  /** A sync leaves the request flag alone, and raises the other one exactly on a mismatch. */
  lemma SyncFlags(p: Script, calls: nat, s: MapState, onceMaxWH: real)
    requires Good(s.holder)
    ensures var t := SyncWhole(p, calls, s, onceMaxWH);
            && Good(t.state.holder) && calls <= t.calls
            && t.state.syncRequested == s.syncRequested
            && t.state.shouldReinit == (s.shouldReinit || SyncMismatch(p, calls, s, onceMaxWH))
            && (SyncStarts(p, calls, s, onceMaxWH) ==> calls + 1 <= t.calls)
            && (t.result == Ok(true) ==> SyncStarts(p, calls, s, onceMaxWH) && !SyncMismatch(p, calls, s, onceMaxWH))
  {
    assert 0.0 < s.holder.resolution;
    hide Good, UpdateTiles, TilesMismatch, Tiles, OnceMaxCellCount, SyncStart;
    if SyncStarts(p, calls, s, onceMaxWH) {
      var known := Rounded(s.holder.resolution, p.getKnownArea(calls).value);
      var limit := OnceMaxCellCount(s.holder.resolution, onceMaxWH);
      StartKeepsInvariant(s.holder, known);
      UpdateTilesFlags(p, calls + 1, s.(holder := SyncStart(s.holder, known)), Tiles(known, limit));
    }
  }

  lemma GoodResolution(h: HolderState)
    requires Good(h)
    ensures 0.0 < h.resolution
  {
  }

  lemma {:induction false} TilesKeepResolution(p: Script, calls: nat, s: MapState, tiles: seq<Rect>)
    requires Good(s.holder)
    ensures UpdateTiles(p, calls, s, tiles).state.holder.resolution == s.holder.resolution
    decreases |tiles|
  {
    hide Good, UpdateInRect;
    if tiles != [] {
      UpdateKeepsInvariant(p, calls, s, tiles[0]);
      var t := UpdateInRect(p, calls, s, tiles[0]);
      if t.result == Ok(true) {
        TilesKeepResolution(p, t.calls, t.state, tiles[1..]);
      }
    }
  }

  lemma SyncKeepsResolution(p: Script, calls: nat, s: MapState, onceMaxWH: real)
    requires Good(s.holder)
    ensures SyncWhole(p, calls, s, onceMaxWH).state.holder.resolution == s.holder.resolution
  {
    GoodResolution(s.holder);
    hide Good, UpdateTiles, Tiles, OnceMaxCellCount, Rounded;
    if SyncStarts(p, calls, s, onceMaxWH) {
      var known := Rounded(s.holder.resolution, p.getKnownArea(calls).value);
      StartKeepsInvariant(s.holder, known);
      TilesKeepResolution(p, calls + 1, s.(holder := SyncStart(s.holder, known)),
                          Tiles(known, OnceMaxCellCount(s.holder.resolution, onceMaxWH)));
    }
  }

  // ----- Exceptions -----

  /** What the exception of a call leaves of the operation that made it: only a map request may fail quietly. */
  function AfterRaise(ask: Ask, ex: Exception): Result {
    if ask.AskMap? && ex.OperationFail? then Ok(false) else Failed(ex)
  }

  /** The i-th of the calls, the first of which is number `calls`, raises this exception. */
  ghost predicate RaisesAt(p: Script, calls: nat, asks: seq<Ask>, i: nat, ex: Exception) {
    i < |asks| && FateOf(p, calls + i, asks[i]) == Raises(ex)
  }

  ghost predicate NoneRaises(p: Script, calls: nat, asks: seq<Ask>) {
    forall i: nat, ex :: !RaisesAt(p, calls, asks, i, ex)
  }

  /** A call that raises is the last one and decides the result, and a connection fault was raised by the last call. */
  ghost predicate EndsAtRaise(p: Script, calls: nat, asks: seq<Ask>, result: Result) {
    && (forall i: nat, ex :: RaisesAt(p, calls, asks, i, ex) ==> i == |asks| - 1 && result == AfterRaise(asks[i], ex))
    && (result.Failed? && IsConnection(result.ex) ==> 0 < |asks| && RaisesAt(p, calls, asks, |asks| - 1, result.ex))
  }

  lemma RaisesInJoin(p: Script, calls: nat, a: seq<Ask>, b: seq<Ask>, i: nat, ex: Exception)
    ensures RaisesAt(p, calls, a + b, i, ex) <==>
              if i < |a| then RaisesAt(p, calls, a, i, ex) else RaisesAt(p, calls + |a|, b, i - |a|, ex)
  {
  }

  lemma JoinAsks(p: Script, calls: nat, a: seq<Ask>, b: seq<Ask>, result: Result)
    requires NoneRaises(p, calls, a) && EndsAtRaise(p, calls + |a|, b, result)
    ensures EndsAtRaise(p, calls, a + b, result)
  {
    hide RaisesAt;
    forall i: nat, ex | RaisesAt(p, calls, a + b, i, ex)
      ensures i == |a + b| - 1 && result == AfterRaise((a + b)[i], ex)
    {
      RaisesInJoin(p, calls, a, b, i, ex);
    }
    if result.Failed? && IsConnection(result.ex) {
      RaisesInJoin(p, calls, a, b, |a| + |b| - 1, result.ex);
    }
  }

  lemma OneAsk(p: Script, calls: nat, ask: Ask, result: Result)
    requires match FateOf(p, calls, ask)
             case Raises(ex) => result == AfterRaise(ask, ex)
             case Answers => result.Failed? ==> !IsConnection(result.ex)
    ensures EndsAtRaise(p, calls, [ask], result)
  {
  }

  function UpdateAsks(s: MapState, r: Rect): seq<Ask> {
    [AskMap(AreaOf(s.holder.resolution, r))]
  }

  lemma UpdateEndsAtRaise(p: Script, calls: nat, s: MapState, r: Rect)
    requires Good(s.holder)
    ensures var t := UpdateInRect(p, calls, s, r);
            EndsAtRaise(p, calls, UpdateAsks(s, r), t.result) && t.calls == calls + 1
  {
    hide Good, MapStored;
    OneAsk(p, calls, AskMap(AreaOf(s.holder.resolution, r)), UpdateInRect(p, calls, s, r).result);
  }

  /** The calls made for the tiles, one by one, up to the first that does not succeed. */
  ghost function TilesAsks(p: Script, calls: nat, s: MapState, tiles: seq<Rect>): seq<Ask>
    requires Good(s.holder)
    decreases |tiles|
  {
    if tiles == [] then
      []
    else
      UpdateKeepsInvariant(p, calls, s, tiles[0]);
      var t := UpdateInRect(p, calls, s, tiles[0]);
      UpdateAsks(s, tiles[0]) + if t.result == Ok(true) then TilesAsks(p, t.calls, t.state, tiles[1..]) else []
  }

  lemma OneUpdate(s: MapState, r: Rect)
    ensures |UpdateAsks(s, r)| == 1
  {
  }

  lemma SuccessMeansNone(p: Script, calls: nat, asks: seq<Ask>)
    requires EndsAtRaise(p, calls, asks, Ok(true))
    ensures NoneRaises(p, calls, asks)
  {
    hide RaisesAt;
  }

  lemma {:induction false} TilesEndAtRaise(p: Script, calls: nat, s: MapState, tiles: seq<Rect>)
    requires Good(s.holder)
    ensures var t, asks := UpdateTiles(p, calls, s, tiles), TilesAsks(p, calls, s, tiles);
            EndsAtRaise(p, calls, asks, t.result) && t.calls == calls + |asks|
    decreases |tiles|
  {
    hide Good, UpdateInRect, NoneRaises, UpdateAsks, Mismatch;
    if tiles != [] {
      hide EndsAtRaise;
      UpdateKeepsInvariant(p, calls, s, tiles[0]);
      UpdateEndsAtRaise(p, calls, s, tiles[0]);
      OneUpdate(s, tiles[0]);
      var t := UpdateInRect(p, calls, s, tiles[0]);
      if t.result == Ok(true) {
        TilesEndAtRaise(p, t.calls, t.state, tiles[1..]);
        SuccessMeansNone(p, calls, UpdateAsks(s, tiles[0]));
        JoinAsks(p, calls, UpdateAsks(s, tiles[0]), TilesAsks(p, t.calls, t.state, tiles[1..]),
                 UpdateTiles(p, t.calls, t.state, tiles[1..]).result);
      } else {
        assert UpdateAsks(s, tiles[0]) + [] == UpdateAsks(s, tiles[0]);
      }
    }
  }

  /** The calls made by a whole sync. */
  ghost function SyncAsks(p: Script, calls: nat, s: MapState, onceMaxWH: real): seq<Ask>
    requires Good(s.holder)
  {
    if OnceMaxCellCount(s.holder.resolution, onceMaxWH) <= 0 then
      []
    else if !SyncStarts(p, calls, s, onceMaxWH) then
      [AskKnownArea]
    else
      var known := Rounded(s.holder.resolution, p.getKnownArea(calls).value);
      StartKeepsInvariant(s.holder, known);
      [AskKnownArea] + TilesAsks(p, calls + 1, s.(holder := SyncStart(s.holder, known)),
                                 Tiles(known, OnceMaxCellCount(s.holder.resolution, onceMaxWH)))
  }

  lemma SyncEndsAtRaise(p: Script, calls: nat, s: MapState, onceMaxWH: real)
    requires Good(s.holder)
    ensures var t, asks := SyncWhole(p, calls, s, onceMaxWH), SyncAsks(p, calls, s, onceMaxWH);
            EndsAtRaise(p, calls, asks, t.result) && t.calls == calls + |asks|
  {
    hide Good, UpdateTiles, TilesAsks, Tiles, SyncStart, OnceMaxCellCount, Rounded, Rect.IsEmpty;
    GoodResolution(s.holder);
    var reply := p.getKnownArea(calls);
    if SyncStarts(p, calls, s, onceMaxWH) {
      var known := Rounded(s.holder.resolution, reply.value);
      var limit := OnceMaxCellCount(s.holder.resolution, onceMaxWH);
      StartKeepsInvariant(s.holder, known);
      TilesEndAtRaise(p, calls + 1, s.(holder := SyncStart(s.holder, known)), Tiles(known, limit));
      OneAsk(p, calls, AskKnownArea, Ok(true));
      SuccessMeansNone(p, calls, [AskKnownArea]);
      hide EndsAtRaise, NoneRaises;
      JoinAsks(p, calls, [AskKnownArea], TilesAsks(p, calls + 1, s.(holder := SyncStart(s.holder, known)), Tiles(known, limit)),
               SyncWhole(p, calls, s, onceMaxWH).result);
    } else if 0 < OnceMaxCellCount(s.holder.resolution, onceMaxWH) {
      OneAsk(p, calls, AskKnownArea, SyncWhole(p, calls, s, onceMaxWH).result);
    }
  }

  // ----- What a sync achieves -----

  /** The platform's own map. */
  type Grid = (int, int) -> byte

  /** A map message that shows exactly the cells of r, at a resolution the holder takes for its own. */
  ghost predicate Shows(m: MapMsg, resolution: real, r: Rect, grid: Grid) {
    && m.MapMsg?
    && m.x == Length(resolution, r.x) && m.y == Length(resolution, r.y)
    && m.dimX == r.width && m.dimY == r.height && r.width * r.height <= |m.data|
    && Fequal(m.resX, m.resY) && Fequal(m.resX, resolution) && FLT_EPSILON < m.resX
    && forall cx, cy :: r.HasCell(cx, cy) ==> 0 <= Index(r, cx, cy) < |m.data| && m.data[Index(r, cx, cy)] == grid(cx, cy)
  }

  /** The call fails in some way, or returns exactly what was asked for. */
  ghost predicate FailsOrShows(p: Script, calls: nat, resolution: real, r: Rect, grid: Grid) {
    match p.getMap(calls, AreaOf(resolution, r))
    case Raised(_) => true
    case Returned(m) => m.NullMap? || Shows(m, resolution, r, grid)
  }

  ghost predicate Fails(p: Script, calls: nat, resolution: real, r: Rect) {
    var reply := p.getMap(calls, AreaOf(resolution, r));
    reply.Raised? || reply.value.NullMap?
  }

  /** The holder shows the grid on the listed rectangles, nothing elsewhere, and its valid rectangle is their hull. */
  ghost predicate ShowsExactly(h: HolderState, done: seq<Rect>, grid: Grid)
    requires Shaped(h)
  {
    && h.valid == Hull(done)
    && forall cx, cy :: Cell(h, cx, cy) == if SomeTileHas(done, cx, cy) then grid(cx, cy) else 0
  }

  lemma OneMoreTile(done: seq<Rect>, r: Rect, cx: int, cy: int)
    ensures SomeTileHas(done + [r], cx, cy) <==> SomeTileHas(done, cx, cy) || r.HasCell(cx, cy)
  {
    if SomeTileHas(done, cx, cy) {
      var i :| 0 <= i < |done| && done[i].HasCell(cx, cy);
      assert (done + [r])[i].HasCell(cx, cy);
    }
    if r.HasCell(cx, cy) {
      assert (done + [r])[|done|].HasCell(cx, cy);
    }
  }

  /** Storing a map that shows the cells of r overwrites exactly these cells with the grid. */
  lemma StoreShows(h: HolderState, m: MapMsg, r: Rect, grid: Grid)
    requires Good(h) && !r.IsEmpty() && Shows(m, h.resolution, r, grid)
    ensures MapStored(h, m) == (Done, Written(h, r, m.data)) && Good(Written(h, r, m.data))
    ensures Written(h, r, m.data).valid == h.valid.Merge(r)
    ensures forall cx, cy :: Cell(Written(h, r, m.data), cx, cy) == if r.HasCell(cx, cy) then grid(cx, cy) else Cell(h, cx, cy)
  {
    WholeCells(h.resolution, r.x);
    WholeCells(h.resolution, r.y);
    assert TargetRect(h.resolution, m) == r;
    StoreEffect(h, m);
    WrittenIsOverwrite(h, r, m.data);
  }

  lemma StoreShownTile(h: HolderState, m: MapMsg, done: seq<Rect>, r: Rect, grid: Grid)
    requires Good(h) && !r.IsEmpty() && Shows(m, h.resolution, r, grid) && h.avail.Contains(r)
    requires ShowsExactly(h, done, grid)
    ensures MapStored(h, m) == (Done, Written(h, r, m.data))
    ensures Good(Written(h, r, m.data)) && ShowsExactly(Written(h, r, m.data), done + [r], grid)
    ensures Written(h, r, m.data).avail == h.avail
  {
    StoreShows(h, m, r, grid);
    HullAppend(done, r);
    var t := Written(h, r, m.data);
    forall cx, cy
      ensures Cell(t, cx, cy) == if SomeTileHas(done + [r], cx, cy) then grid(cx, cy) else 0
    {
      OneMoreTile(done, r, cx, cy);
    }
  }

  /** The i-th call fails or shows the i-th tile, for every tile. */
  ghost predicate EachFailsOrShows(p: Script, calls: nat, resolution: real, tiles: seq<Rect>, grid: Grid)
    decreases |tiles|
  {
    tiles == []
    || (FailsOrShows(p, calls, resolution, tiles[0], grid) && EachFailsOrShows(p, calls + 1, resolution, tiles[1..], grid))
  }

  /** One of the calls for the tiles fails. */
  ghost predicate SomeFails(p: Script, calls: nat, resolution: real, tiles: seq<Rect>)
    decreases |tiles|
  {
    tiles != []
    && (Fails(p, calls, resolution, tiles[0]) || SomeFails(p, calls + 1, resolution, tiles[1..]))
  }

  ghost predicate AllInside(avail: Rect, tiles: seq<Rect>) {
    forall i :: 0 <= i < |tiles| ==> !tiles[i].IsEmpty() && avail.Contains(tiles[i])
  }

  /** What a series of tile requests leaves, from a holder that shows `done`. */
  ghost predicate TilesEnd(t: Step, h: HolderState, failed: bool, shown: seq<Rect>, grid: Grid) {
    && Good(t.state.holder)
    && t.state.holder.avail == h.avail
    && (t.result == Ok(true) <==> !failed)
    && (t.result == Ok(true) ==> ShowsExactly(t.state.holder, shown, grid))
  }

  /** One call: it succeeds just when it does not fail, and then one more tile is shown. */
  lemma UpdateInRectShows(p: Script, calls: nat, s: MapState, done: seq<Rect>, r: Rect, grid: Grid)
    requires Good(s.holder) && ShowsExactly(s.holder, done, grid)
    requires !r.IsEmpty() && s.holder.avail.Contains(r)
    requires FailsOrShows(p, calls, s.holder.resolution, r, grid)
    ensures var t := UpdateInRect(p, calls, s, r);
            && t.calls == calls + 1 && t.state.holder.resolution == s.holder.resolution
            && TilesEnd(t, s.holder, Fails(p, calls, s.holder.resolution, r), done + [r], grid)
  {
    UpdateKeepsInvariant(p, calls, s, r);
    var res := s.holder.resolution;
    if !Fails(p, calls, res, r) {
      StoreShownTile(s.holder, p.getMap(calls, AreaOf(res, r)).value, done, r, grid);
    }
  }

  /** Against a platform that fails or answers exactly, the tiles succeed just when no call fails. */
  lemma {:induction false} UpdateTilesShows(p: Script, calls: nat, s: MapState, done: seq<Rect>, tiles: seq<Rect>, grid: Grid)
    requires Good(s.holder) && ShowsExactly(s.holder, done, grid)
    requires AllInside(s.holder.avail, tiles) && EachFailsOrShows(p, calls, s.holder.resolution, tiles, grid)
    ensures TilesEnd(UpdateTiles(p, calls, s, tiles), s.holder, SomeFails(p, calls, s.holder.resolution, tiles), done + tiles, grid)
    decreases |tiles|
  {
    hide Good, ShowsExactly, UpdateInRect, FailsOrShows, Fails;
    if tiles == [] {
      assert done + tiles == done;
    } else {
      UpdateInRectShows(p, calls, s, done, tiles[0], grid);
      var t := UpdateInRect(p, calls, s, tiles[0]);
      if t.result == Ok(true) {
        UpdateTilesShows(p, t.calls, t.state, done + [tiles[0]], tiles[1..], grid);
        assert done + [tiles[0]] + tiles[1..] == done + tiles;
      }
    }
  }

  /** The start of a sync has room for every tile. */
  lemma TilesInside(h: HolderState, known: Rect, limit: int)
    requires Good(h) && !known.IsEmpty() && 0 < limit
    ensures AllInside(SyncStart(h, known).avail, Tiles(known, limit))
  {
    StartKeepsInvariant(h, known);
    TilesPartition(known, limit);
    forall i | 0 <= i < |Tiles(known, limit)|
      ensures SyncStart(h, known).avail.Contains(Tiles(known, limit)[i])
    {
      ContainsTransitive(SyncStart(h, known).avail, known, Tiles(known, limit)[i]);
    }
  }

  lemma CellsOfTiles(known: Rect, tiles: seq<Rect>, limit: int)
    requires Partitions(tiles, known, limit)
    ensures forall cx, cy :: SomeTileHas(tiles, cx, cy) <==> known.HasCell(cx, cy)
  {
  }

  /** A holder that shows all tiles shows the known rectangle and nothing else. */
  lemma ShownTilesShowKnown(h: HolderState, known: Rect, limit: int, grid: Grid)
    requires Shaped(h) && !known.IsEmpty() && 0 < limit && ShowsExactly(h, Tiles(known, limit), grid)
    ensures h.valid == known
    ensures forall cx, cy :: Cell(h, cx, cy) == if known.HasCell(cx, cy) then grid(cx, cy) else 0
  {
    TilesPartition(known, limit);
    TilesHull(known, limit);
    CellsOfTiles(known, Tiles(known, limit), limit);
  }

  /**
    Whole-map sync against a platform that, for each tile, fails or answers exactly: it reports success
    just when no tile fails, and then the holder is the platform's map on the known rectangle and 0 elsewhere,
    in the buffer of the initial reservation.
   */
  lemma SyncMakesHolderEqual(p: Script, calls: nat, s: MapState, onceMaxWH: real, area: Area, grid: Grid)
    requires Good(s.holder) && 0 < OnceMaxCellCount(s.holder.resolution, onceMaxWH)
    requires p.getKnownArea(calls) == Returned(area)
    requires var known := Rounded(s.holder.resolution, area);
             var tiles := Tiles(known, OnceMaxCellCount(s.holder.resolution, onceMaxWH));
             && !known.IsEmpty()
             && EachFailsOrShows(p, calls + 1, s.holder.resolution, tiles, grid)
    ensures var known := Rounded(s.holder.resolution, area);
            var tiles := Tiles(known, OnceMaxCellCount(s.holder.resolution, onceMaxWH));
            var t := SyncWhole(p, calls, s, onceMaxWH);
            && t.state.holder.avail == Adjusted(known)
            && (t.result == Ok(true) <==> !SomeFails(p, calls + 1, s.holder.resolution, tiles))
            && (t.result == Ok(true) ==>
                  && Good(t.state.holder)
                  && t.state.holder.valid == known
                  && forall cx, cy :: Cell(t.state.holder, cx, cy) == if known.HasCell(cx, cy) then grid(cx, cy) else 0)
  {
    var limit := OnceMaxCellCount(s.holder.resolution, onceMaxWH);
    var known := Rounded(s.holder.resolution, area);
    var tiles := Tiles(known, limit);
    var start := s.(holder := SyncStart(s.holder, known));
    StartKeepsInvariant(s.holder, known);
    TilesInside(s.holder, known, limit);
    UpdateTilesShows(p, calls + 1, start, [], tiles, grid);
    assert [] + tiles == tiles;
    var t := UpdateTiles(p, calls + 1, start, tiles);
    if t.result == Ok(true) {
      ShownTilesShowKnown(t.state.holder, known, limit, grid);
    }
  }
}
