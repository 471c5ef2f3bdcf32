/** One perform of the map worker as a whole: what it leaves in the holder, and which exceptions get out. */
module MapPerform {
  import opened CellRects
  import opened CellAreas
  import opened HolderSpec
  import opened MapHolder
  import opened HolderRuns
  import opened Platform
  import opened SyncTiles
  import opened MapSync
  import opened MapEpochs

  // ----- What it leaves -----

  /** The re-initialisation succeeds exactly on a map with a valid resolution, and then the holder is blank and has it. */
  lemma ReinitTakesResolution(p: Script, calls: nat, s: MapState)
    requires Good(s.holder) && s.shouldReinit
    ensures var t, reply := CheckReinit(p, calls, s), p.getMap(calls, Area(-0.5, -0.5, 1.0, 1.0));
            && t.calls == calls + 1 && t.state.syncRequested
            && t.result == (match reply
                            case Raised(ex) => if ex == OperationFail then Ok(false) else Failed(ex)
                            case Returned(m) =>
                              if m.NullMap? then Ok(false)
                              else if m.resX <= FLT_EPSILON then Failed(MapFault(InvalidResolution))
                              else Ok(true))
            && t.state.shouldReinit == (t.result != Ok(true))
            && (t.result != Ok(true) ==> t.state.holder == s.holder)
            && (t.result == Ok(true) ==>
                  && t.state.holder.resolution == reply.value.resX && t.state.holder.more == s.holder.more
                  && Blank(t.state.holder) && forall cx, cy :: Cell(t.state.holder, cx, cy) == 0)
  {
    ClearedIsBlank(s.holder);
  }

  /** The result of one request, and the flag it raises, from the platform's reply and the holder's resolution alone. */
  lemma UpdateResult(p: Script, calls: nat, s: MapState, r: Rect)
    requires Good(s.holder)
    ensures var t, reply, res := UpdateInRect(p, calls, s, r), p.getMap(calls, AreaOf(s.holder.resolution, r)), s.holder.resolution;
            match reply
            case Raised(ex) =>
              t.result == (if ex == OperationFail then Ok(false) else Failed(ex)) && t.state == s
            case Returned(m) =>
              if m.NullMap? then t.result == Ok(false) && t.state == s
              else if FLT_EPSILON <= Abs(m.resX - res) then t.result == Ok(false) && t.state == s.(shouldReinit := true)
              else if FLT_EPSILON <= Abs(m.resX - m.resY) then
                t.result == Failed(MapFault(ResolutionDiffersOnAxes)) && t.state == s
              else if |m.data| < m.dimX * m.dimY then t.result == Failed(MapFault(TooFewCells)) && t.state == s
              else if m.dimX < 1 || m.dimY < 1 then t.result == Ok(true) && t.state == s
              else if m.resX <= FLT_EPSILON then t.result == Failed(MapFault(InvalidResolution)) && t.state == s
              else t.result == Ok(true) && t.state == s.(holder := Written(s.holder, TargetRect(res, m), m.data))
  {
    assert FLT_EPSILON < s.holder.resolution;
    var reply := p.getMap(calls, AreaOf(s.holder.resolution, r));
    hide Good, Written, AreaOf;
    if reply.Returned? {
      StoreEffect(s.holder, reply.value);
    }
  }

  /** A request against a platform that fails or shows the grid: it succeeds just when it does not fail. */
  lemma UpdateStores(p: Script, calls: nat, s: MapState, r: Rect, grid: Grid)
    requires Good(s.holder) && !r.IsEmpty() && FailsOrShows(p, calls, s.holder.resolution, r, grid)
    ensures var t := UpdateInRect(p, calls, s, r);
            && Good(t.state.holder)
            && (t.result == Ok(true) <==> !Fails(p, calls, s.holder.resolution, r))
            && (t.result != Ok(true) ==> t.state.holder == s.holder)
            && (t.result == Ok(true) ==>
                  && t.state.holder.valid == s.holder.valid.Merge(r)
                  && forall cx, cy ::
                       Cell(t.state.holder, cx, cy) == if r.HasCell(cx, cy) then grid(cx, cy) else Cell(s.holder, cx, cy))
  {
    UpdateKeepsInvariant(p, calls, s, r);
    if !Fails(p, calls, s.holder.resolution, r) {
      StoreShows(s.holder, p.getMap(calls, AreaOf(s.holder.resolution, r)).value, r, grid);
    }
  }

  /** The cells asked for near the robot. */
  function NearRequest(resolution: real, inp: Inputs, known: Rect): Rect
    requires 0.0 < resolution
  {
    NearRobotRect(resolution, inp.halfWH, inp.poseX, inp.poseY).Intersect(known)
  }

  /** They are the known cells of the window. */
  lemma NearRequestIs(resolution: real, inp: Inputs, known: Rect, cx: int, cy: int)
    requires 0.0 < resolution
    ensures NearRequest(resolution, inp, known).HasCell(cx, cy)
            <==> InWindow(resolution, inp.halfWH, inp.poseX, inp.poseY, cx, cy) && known.HasCell(cx, cy)
  {
    hide NearRobotRect, InWindow, Rect.Intersect;
    NearRectIsWindow(resolution, inp.halfWH, inp.poseX, inp.poseY, cx, cy);
    IntersectIsSharedCells(NearRobotRect(resolution, inp.halfWH, inp.poseX, inp.poseY), known, cx, cy);
  }

  /** The holder t is the holder h with the known cells of the window overwritten by the grid. */
  ghost predicate ShowsWindow(h: HolderState, t: HolderState, inp: Inputs, known: Rect, grid: Grid)
    requires Shaped(h) && Shaped(t)
  {
    forall cx, cy ::
      Cell(t, cx, cy)
      == if InWindow(h.resolution, inp.halfWH, inp.poseX, inp.poseY, cx, cy) && known.HasCell(cx, cy)
         then grid(cx, cy) else Cell(h, cx, cy)
  }

  lemma NothingOfNothing(resolution: real, inp: Inputs, known: Rect)
    requires 0.0 < resolution
    ensures known.IsEmpty() ==> NearRequest(resolution, inp, known).IsEmpty()
  {
  }

  /**
    An update near the robot, against a platform that fails or shows the grid on the cells asked for. It succeeds exactly
    when neither call fails and some cell is asked for. Then every known cell of the window equals the grid, every other
    cell is unchanged, and the valid rectangle has grown by the request; otherwise the holder is unchanged.
   */
  lemma NearUpdateShows(p: Script, calls: nat, s: MapState, inp: Inputs, grid: Grid)
    requires Good(s.holder)
    requires var reply := p.getKnownArea(calls);
             reply.Returned? ==>
               var req := NearRequest(s.holder.resolution, inp, Rounded(s.holder.resolution, reply.value));
               req.IsEmpty() || FailsOrShows(p, calls + 1, s.holder.resolution, req, grid)
    ensures var t, reply, res := UpdateNearRobot(p, calls, s, inp.halfWH, inp.poseX, inp.poseY), p.getKnownArea(calls),
                                 s.holder.resolution;
            && Good(t.state.holder)
            && (t.result == Ok(true) <==>
                  && reply.Returned?
                  && !NearRequest(res, inp, Rounded(res, reply.value)).IsEmpty()
                  && !Fails(p, calls + 1, res, NearRequest(res, inp, Rounded(res, reply.value))))
            && (t.result != Ok(true) ==> t.state.holder == s.holder)
            && (t.result == Ok(true) ==>
                  && t.state.holder.valid == s.holder.valid.Merge(NearRequest(res, inp, Rounded(res, reply.value)))
                  && ShowsWindow(s.holder, t.state.holder, inp, Rounded(res, reply.value), grid))
  {
    hide Good, UpdateInRect, FailsOrShows, Fails, Rounded, NearRobotRect, InWindow, Rect.Intersect, Rect.Merge, Cell;
    GoodResolution(s.holder);
    var reply, res := p.getKnownArea(calls), s.holder.resolution;
    if reply.Returned? {
      var known := Rounded(res, reply.value);
      var req := NearRequest(res, inp, known);
      NothingOfNothing(res, inp, known);
      if !req.IsEmpty() {
        UpdateStores(p, calls + 1, s, req, grid);
        forall cx, cy
          ensures req.HasCell(cx, cy) <==> InWindow(res, inp.halfWH, inp.poseX, inp.poseY, cx, cy) && known.HasCell(cx, cy)
        {
          NearRequestIs(res, inp, known, cx, cy);
        }
      }
    }
  }

  /** With no flag up a perform is an update near the robot. */
  lemma QuietPerformIsNearUpdate(p: Script, calls: nat, s: MapState, inp: Inputs)
    requires Good(s.holder) && !s.shouldReinit && !s.syncRequested
    ensures Perform(p, calls, s, inp).step == UpdateNearRobot(p, calls, s, inp.halfWH, inp.poseX, inp.poseY)
  {
    hide Good, UpdateNearRobot, SyncWhole;
  }

  /** The map comes from the platform with a valid resolution, or none is needed. */
  ghost predicate ProbeSucceeds(p: Script, calls: nat, s: MapState) {
    s.shouldReinit ==>
      var reply := p.getMap(calls, Area(-0.5, -0.5, 1.0, 1.0));
      reply.Returned? && reply.value.MapMsg? && FLT_EPSILON < reply.value.resX
  }

  /** The resolution the sync of a perform works at, and the number of calls made before it. */
  ghost function SyncResolution(p: Script, calls: nat, s: MapState): real
    requires ProbeSucceeds(p, calls, s)
  {
    if s.shouldReinit then p.getMap(calls, PROBE_AREA).value.resX else s.holder.resolution
  }

  lemma ReadyToSync(p: Script, calls: nat, s: MapState)
    requires Good(s.holder) && (s.shouldReinit || s.syncRequested) && ProbeSucceeds(p, calls, s)
    ensures var ready := CheckReinit(p, calls, s);
            && ready.result == Ok(true) && ready.state.syncRequested && !ready.state.shouldReinit
            && ready.calls == (if s.shouldReinit then calls + 1 else calls)
            && ready.state.holder.resolution == SyncResolution(p, calls, s)
  {
    if s.shouldReinit {
      ReinitTakesResolution(p, calls, s);
    }
  }

  /**
    A perform with a flag up, against a platform whose calls succeed and that shows the grid: afterwards both flags are
    down, and the holder has the platform's resolution, its known rectangle and its cells, and 0 elsewhere.
   */
  lemma PerformShowsMap(p: Script, calls: nat, s: MapState, inp: Inputs, area: Area, grid: Grid)
    requires Good(s.holder) && (s.shouldReinit || s.syncRequested) && ProbeSucceeds(p, calls, s)
    requires var res, first := SyncResolution(p, calls, s), if s.shouldReinit then calls + 1 else calls;
             && 0.0 < res && 0 < OnceMaxCellCount(res, inp.onceMaxWH)
             && p.getKnownArea(first) == Returned(area) && !Rounded(res, area).IsEmpty()
             && var tiles := Tiles(Rounded(res, area), OnceMaxCellCount(res, inp.onceMaxWH));
                EachFailsOrShows(p, first + 1, res, tiles, grid) && !SomeFails(p, first + 1, res, tiles)
    ensures var t, res := Perform(p, calls, s, inp).step, SyncResolution(p, calls, s);
            && t.result == Ok(true) && !t.state.shouldReinit && !t.state.syncRequested
            && Good(t.state.holder) && t.state.holder.resolution == res && t.state.holder.valid == Rounded(res, area)
            && forall cx, cy ::
                 Cell(t.state.holder, cx, cy) == if Rounded(res, area).HasCell(cx, cy) then grid(cx, cy) else 0
  {
    hide Good, CheckReinit, Tiles, SyncWhole, UpdateNearRobot, EachFailsOrShows, SomeFails, OnceMaxCellCount, Rounded,
         ProbeSucceeds, SyncResolution, Cell;
    ReadyToSync(p, calls, s);
    var ready := CheckReinit(p, calls, s);
    SyncMakesHolderEqual(p, ready.calls, ready.state, inp.onceMaxWH, area, grid);
    SyncFlags(p, ready.calls, ready.state, inp.onceMaxWH);
    SyncKeepsResolution(p, ready.calls, ready.state, inp.onceMaxWH);
  }

  // ----- Which exceptions get out -----

  /** The calls made by an update near the robot. */
  ghost function NearAsks(p: Script, calls: nat, s: MapState, inp: Inputs): seq<Ask>
    requires 0.0 < s.holder.resolution
  {
    var reply := p.getKnownArea(calls);
    if reply.Returned? && !NearRequest(s.holder.resolution, inp, Rounded(s.holder.resolution, reply.value)).IsEmpty() then
      [AskKnownArea] + UpdateAsks(s, NearRequest(s.holder.resolution, inp, Rounded(s.holder.resolution, reply.value)))
    else
      [AskKnownArea]
  }

  lemma NearEndsAtRaise(p: Script, calls: nat, s: MapState, inp: Inputs)
    requires Good(s.holder)
    ensures 0.0 < s.holder.resolution
    ensures var t, asks := UpdateNearRobot(p, calls, s, inp.halfWH, inp.poseX, inp.poseY), NearAsks(p, calls, s, inp);
            EndsAtRaise(p, calls, asks, t.result) && t.calls == calls + |asks|
  {
    GoodResolution(s.holder);
    var reply, res := p.getKnownArea(calls), s.holder.resolution;
    var t := UpdateNearRobot(p, calls, s, inp.halfWH, inp.poseX, inp.poseY);
    if reply.Returned? {
      var known := Rounded(res, reply.value);
      var req := NearRequest(res, inp, known);
      NothingOfNothing(res, inp, known);
      hide Good, UpdateInRect, Rounded, NearRobotRect;
      if req.IsEmpty() {
        OneAsk(p, calls, AskKnownArea, t.result);
      } else {
        UpdateEndsAtRaise(p, calls + 1, s, req);
        OneAsk(p, calls, AskKnownArea, Ok(true));
        SuccessMeansNone(p, calls, [AskKnownArea]);
        OneUpdate(s, req);
        hide EndsAtRaise, NoneRaises, UpdateAsks;
        JoinAsks(p, calls, [AskKnownArea], UpdateAsks(s, req), t.result);
      }
    } else {
      OneAsk(p, calls, AskKnownArea, t.result);
    }
  }

  function ReinitAsks(s: MapState): seq<Ask> {
    if s.shouldReinit then [AskMap(PROBE_AREA)] else []
  }

  lemma ReinitEndsAtRaise(p: Script, calls: nat, s: MapState)
    requires Good(s.holder)
    ensures var t := CheckReinit(p, calls, s);
            EndsAtRaise(p, calls, ReinitAsks(s), t.result) && t.calls == calls + |ReinitAsks(s)|
  {
    if s.shouldReinit {
      OneAsk(p, calls, AskMap(PROBE_AREA), CheckReinit(p, calls, s).result);
    }
  }

  /** The calls made by a perform, in order. */
  ghost function PerformAsks(p: Script, calls: nat, s: MapState, inp: Inputs): seq<Ask>
    requires Good(s.holder)
  {
    var ready := CheckReinit(p, calls, s);
    if ready.result != Ok(true) then
      ReinitAsks(s)
    else if ready.state.syncRequested then
      ReinitAsks(s) + SyncAsks(p, ready.calls, ready.state, inp.onceMaxWH)
    else
      ReinitAsks(s) + NearAsks(p, ready.calls, ready.state, inp)
  }

  lemma PerformEndsAtRaise(p: Script, calls: nat, s: MapState, inp: Inputs)
    requires Good(s.holder)
    ensures var t, asks := Perform(p, calls, s, inp).step, PerformAsks(p, calls, s, inp);
            EndsAtRaise(p, calls, asks, t.result) && t.calls == calls + |asks|
  {
    ReinitEndsAtRaise(p, calls, s);
    var ready, asks := CheckReinit(p, calls, s), ReinitAsks(s);
    hide Good, CheckReinit, ReinitAsks, SyncWhole, SyncAsks, UpdateNearRobot, NearAsks, EndsAtRaise, NoneRaises;
    if ready.result == Ok(true) {
      SuccessMeansNone(p, calls, asks);
      if ready.state.syncRequested {
        SyncEndsAtRaise(p, ready.calls, ready.state, inp.onceMaxWH);
        JoinAsks(p, calls, asks, SyncAsks(p, ready.calls, ready.state, inp.onceMaxWH), Perform(p, calls, s, inp).step.result);
      } else {
        NearEndsAtRaise(p, ready.calls, ready.state, inp);
        JoinAsks(p, calls, asks, NearAsks(p, ready.calls, ready.state, inp), Perform(p, calls, s, inp).step.result);
      }
    }
  }

  /**
    Whichever call of a perform raises an exception, the perform ends there: with that exception, or quietly if a map
    request failed as an operation.
   */
  lemma RaiseEndsPerform(p: Script, calls: nat, s: MapState, inp: Inputs, i: nat, ex: Exception)
    requires Good(s.holder) && i < |PerformAsks(p, calls, s, inp)|
    requires FateOf(p, calls + i, PerformAsks(p, calls, s, inp)[i]) == Raises(ex)
    ensures var t, ask := Perform(p, calls, s, inp).step, PerformAsks(p, calls, s, inp)[i];
            && t.calls == calls + i + 1
            && t.result == if ask.AskMap? && ex == OperationFail then Ok(false) else Failed(ex)
  {
    hide Good, Perform, PerformAsks, FateOf;
    PerformEndsAtRaise(p, calls, s, inp);
    assert RaisesAt(p, calls, PerformAsks(p, calls, s, inp), i, ex);
  }

  /** A perform that ends with a connection exception has it from its last call. */
  lemma FaultWasRaised(p: Script, calls: nat, s: MapState, inp: Inputs)
    requires Good(s.holder)
    requires var r := Perform(p, calls, s, inp).step.result;
             r.Failed? && (r.ex == ConnectionLost || r.ex == ConnectionTimeOut || r.ex == ConnectionFail)
    ensures var t, asks := Perform(p, calls, s, inp).step, PerformAsks(p, calls, s, inp);
            && asks != [] && t.calls == calls + |asks|
            && FateOf(p, t.calls - 1, asks[|asks| - 1]) == Raises(t.result.ex)
  {
    hide Good, Perform, PerformAsks, FateOf;
    PerformEndsAtRaise(p, calls, s, inp);
    var t, asks := Perform(p, calls, s, inp).step, PerformAsks(p, calls, s, inp);
    assert RaisesAt(p, calls, asks, |asks| - 1, t.result.ex);
  }

  // ----- The same step by step, behind the calls already made -----

  lemma NextTile(p: Script, calls: nat, s: MapState, tiles: seq<Rect>, asked: seq<Ask>)
    requires Good(s.holder) && tiles != []
    ensures var t := UpdateInRect(p, calls, s, tiles[0]);
            && Good(t.state.holder)
            && UpdateTiles(p, calls, s, tiles)
               == (if t.result == Ok(true) then UpdateTiles(p, t.calls, t.state, tiles[1..]) else t)
            && asked + TilesAsks(p, calls, s, tiles)
               == asked + UpdateAsks(s, tiles[0])
                  + if t.result == Ok(true) then TilesAsks(p, t.calls, t.state, tiles[1..]) else []
  {
    hide Good, UpdateInRect, UpdateAsks;
    UpdateKeepsInvariant(p, calls, s, tiles[0]);
  }

  lemma NoTiles(p: Script, calls: nat, s: MapState)
    requires Good(s.holder)
    ensures UpdateTiles(p, calls, s, []) == Step(Ok(true), s, calls) && TilesAsks(p, calls, s, []) == []
  {
  }

  /** What a sync does, given the answer to its first call. */
  lemma SyncSteps(p: Script, calls: nat, s: MapState, onceMaxWH: real, asked: seq<Ask>)
    requires Good(s.holder)
    ensures var limit, reply, res := OnceMaxCellCount(s.holder.resolution, onceMaxWH), p.getKnownArea(calls), s.holder.resolution;
            var t, asks := SyncWhole(p, calls, s, onceMaxWH), asked + SyncAsks(p, calls, s, onceMaxWH);
            if limit <= 0 then t == Step(Failed(AssertionFailed), s, calls) && asks == asked
            else if reply.Raised? then t == Step(Failed(reply.ex), s, calls + 1) && asks == asked + [AskKnownArea]
            else if Rounded(res, reply.value).IsEmpty() then t == Step(Ok(false), s, calls + 1) && asks == asked + [AskKnownArea]
            else
              var start := s.(holder := SyncStart(s.holder, Rounded(res, reply.value)));
              && Good(start.holder)
              && t == UpdateTiles(p, calls + 1, start, Tiles(Rounded(res, reply.value), limit))
              && asks == asked + [AskKnownArea] + TilesAsks(p, calls + 1, start, Tiles(Rounded(res, reply.value), limit))
  {
    hide Good, UpdateTiles, TilesAsks, Tiles, SyncStart, OnceMaxCellCount, Rounded, Rect.IsEmpty;
    GoodResolution(s.holder);
    var reply := p.getKnownArea(calls);
    if reply.Returned? && !Rounded(s.holder.resolution, reply.value).IsEmpty() {
      StartKeepsInvariant(s.holder, Rounded(s.holder.resolution, reply.value));
    }
  }

  /** What a perform does after the re-initialisation. */
  lemma PerformSteps(p: Script, calls: nat, s: MapState, inp: Inputs, asked: seq<Ask>)
    requires Good(s.holder)
    ensures var ready, d := CheckReinit(p, calls, s), Perform(p, calls, s, inp).step;
            var before, asks := asked + ReinitAsks(s), asked + PerformAsks(p, calls, s, inp);
            if ready.result != Ok(true) then d == ready && asks == before
            else if ready.state.syncRequested then
              var t := SyncWhole(p, ready.calls, ready.state, inp.onceMaxWH);
              && d == (if t.result == Ok(true) then t.(state := t.state.(syncRequested := false)) else t)
              && asks == before + SyncAsks(p, ready.calls, ready.state, inp.onceMaxWH)
            else
              && d == UpdateNearRobot(p, ready.calls, ready.state, inp.halfWH, inp.poseX, inp.poseY)
              && asks == before + NearAsks(p, ready.calls, ready.state, inp.(onceMaxWH := 0.0))
  {
    hide Good, CheckReinit, SyncWhole, SyncAsks, UpdateNearRobot;
  }
}
