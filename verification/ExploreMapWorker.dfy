/** The explore-map update worker, updating the shared work data in place. */
module ExploreMapWorker {
  import opened CellRects
  import opened CellAreas
  import opened HolderSpec
  import opened MapHolder
  import opened HolderRuns
  import opened Platform
  import opened MapSync
  import opened MapEpochs
  import opened MapPerform
  import opened SyncTiles

  /** What the workers share. */
  class WorkData {
    var syncMapRequested: bool
    var poseX: real
    var poseY: real
    const exploreMapHolder: Holder

    constructor ()
      ensures syncMapRequested && fresh(exploreMapHolder) && fresh(exploreMapHolder.mapDat)
      ensures exploreMapHolder.Valid() && Blank(exploreMapHolder.State())
    {
      syncMapRequested := true;
      poseX, poseY := 0.0, 0.0;
      exploreMapHolder := new Holder();
      new;
      assert Cleared(exploreMapHolder.State()) == exploreMapHolder.State();
    }
  }

  lemma FirstOfRow(x: int, xEnd: int, y: int, height: int, limit: int, rest: seq<Rect>)
    requires x < xEnd && 0 < limit
    ensures var tiles := TileRow(x, xEnd, y, height, limit) + rest;
            var width := Min(xEnd - x, limit);
            && tiles != [] && tiles[0] == Rect(x, y, width, height)
            && tiles[1..] == TileRow(x + width, xEnd, y, height, limit) + rest
  {
  }

  class UpdateWorker {
    var shouldReinitMap: bool

    constructor ()
      ensures shouldReinitMap
    {
      shouldReinitMap := true;
    }

    ghost function State(wkDat: WorkData): MapState
      reads this, wkDat, wkDat.exploreMapHolder, wkDat.exploreMapHolder.mapDat
    {
      MapState(shouldReinitMap, wkDat.syncMapRequested, wkDat.exploreMapHolder.State())
    }

    method ReinitWorkLoop(wkDat: WorkData)
      requires wkDat.exploreMapHolder.Valid()
      modifies this
      ensures State(wkDat) == old(State(wkDat)).(shouldReinit := true)
    {
      shouldReinitMap := true;
    }

    method GetMapByPltfm(pltfm: Link, area: Area) returns (reply: Reply<MapMsg>)
      modifies pltfm
      ensures reply == Fetch(pltfm.script, old(pltfm.calls), area) && pltfm.calls == old(pltfm.calls) + 1
      ensures var answer := pltfm.script.getMap(old(pltfm.calls), area);
              reply == if answer == Raised(OperationFail) then Returned(NullMap) else answer
      ensures pltfm.asked == old(pltfm.asked) + [AskMap(area)]
    {
      reply := pltfm.GetMap(area);
      if reply == Raised(OperationFail) {
        reply := Returned(NullMap);
      }
    }

    method CheckToReinitMap(pltfm: Link, wkDat: WorkData) returns (result: Result)
      requires wkDat.exploreMapHolder.Valid()
      modifies this, wkDat, wkDat.exploreMapHolder, pltfm
      ensures wkDat.exploreMapHolder.Valid()
      ensures wkDat.exploreMapHolder.mapDat == old(wkDat.exploreMapHolder.mapDat) || fresh(wkDat.exploreMapHolder.mapDat)
      ensures wkDat.poseX == old(wkDat.poseX) && wkDat.poseY == old(wkDat.poseY)
      ensures Step(result, State(wkDat), pltfm.calls) == CheckReinit(pltfm.script, old(pltfm.calls), old(State(wkDat)))
      ensures pltfm.asked == old(pltfm.asked) + ReinitAsks(old(State(wkDat)))
    {
      if !shouldReinitMap {
        return Ok(true);
      }
      wkDat.syncMapRequested := true;
      var reply := GetMapByPltfm(pltfm, PROBE_AREA);
      if reply.Raised? {
        return Failed(reply.ex);
      }
      if reply.value.NullMap? {
        return Ok(false);
      }
      var outcome := wkDat.exploreMapHolder.Reinit(reply.value.resX);
      if outcome != Done {
        return Failed(MapFault(outcome.error));
      }
      shouldReinitMap := false;
      return Ok(true);
    }

    method CheckRecvResolution(recvResolution: real, wkDat: WorkData) returns (same: bool)
      modifies this
      ensures same == Fequal(wkDat.exploreMapHolder.resolution, recvResolution)
      ensures shouldReinitMap == (old(shouldReinitMap) || !same)
    {
      same := Fequal(wkDat.exploreMapHolder.resolution, recvResolution);
      if !same {
        shouldReinitMap := true;
      }
    }

    method UpdateMapInCellIdxRect(pltfm: Link, reqIdxRect: Rect, wkDat: WorkData) returns (result: Result)
      requires wkDat.exploreMapHolder.Valid()
      modifies this, wkDat.exploreMapHolder, wkDat.exploreMapHolder.mapDat, pltfm
      ensures wkDat.exploreMapHolder.Valid()
      ensures wkDat.exploreMapHolder.mapDat == old(wkDat.exploreMapHolder.mapDat) || fresh(wkDat.exploreMapHolder.mapDat)
      ensures Step(result, State(wkDat), pltfm.calls)
              == UpdateInRect(pltfm.script, old(pltfm.calls), old(State(wkDat)), reqIdxRect)
      ensures pltfm.asked == old(pltfm.asked) + UpdateAsks(old(State(wkDat)), reqIdxRect)
    {
      var reqArea := AreaOf(wkDat.exploreMapHolder.resolution, reqIdxRect);
      var reply := GetMapByPltfm(pltfm, reqArea);
      if reply.Raised? {
        return Failed(reply.ex);
      }
      if reply.value.NullMap? {
        return Ok(false);
      }
      var same := CheckRecvResolution(reply.value.resX, wkDat);
      if !same {
        return Ok(false);
      }
      var outcome := wkDat.exploreMapHolder.SetMapData(reply.value);
      if outcome != Done {
        return Failed(MapFault(outcome.error));
      }
      return Ok(true);
    }

    /** The inner loop: one row of tiles; `rest` are the tiles still to come after it. */
    method RequestRow(known: Rect, cellIdxY: int, reqSizeY: int, limit: int, pltfm: Link, wkDat: WorkData, ghost rest: seq<Rect>)
      returns (result: Result)
      requires wkDat.exploreMapHolder.Valid() && 0 < limit
      modifies this, wkDat.exploreMapHolder, wkDat.exploreMapHolder.mapDat, pltfm
      ensures wkDat.exploreMapHolder.Valid()
      ensures wkDat.exploreMapHolder.mapDat == old(wkDat.exploreMapHolder.mapDat) || fresh(wkDat.exploreMapHolder.mapDat)
      ensures var goal := UpdateTiles(pltfm.script, old(pltfm.calls), old(State(wkDat)),
                                      TileRow(known.x, known.XEnd(), cellIdxY, reqSizeY, limit) + rest);
              if result == Ok(true) then goal == UpdateTiles(pltfm.script, pltfm.calls, State(wkDat), rest)
              else goal == Step(result, State(wkDat), pltfm.calls)
      ensures var asks := old(pltfm.asked)
                          + TilesAsks(pltfm.script, old(pltfm.calls), old(State(wkDat)),
                                      TileRow(known.x, known.XEnd(), cellIdxY, reqSizeY, limit) + rest);
              if result == Ok(true) then asks == pltfm.asked + TilesAsks(pltfm.script, pltfm.calls, State(wkDat), rest)
              else asks == pltfm.asked
    {
      hide UpdateInRect, UpdateTiles, TilesAsks, UpdateAsks;
      ghost var goal := UpdateTiles(pltfm.script, pltfm.calls, State(wkDat),
                                    TileRow(known.x, known.XEnd(), cellIdxY, reqSizeY, limit) + rest);
      ghost var asks := pltfm.asked + TilesAsks(pltfm.script, pltfm.calls, State(wkDat),
                                                TileRow(known.x, known.XEnd(), cellIdxY, reqSizeY, limit) + rest);
      var cellIdxXEnd := known.x + known.width;
      var cellIdxX := known.x;
      while cellIdxX < cellIdxXEnd
        invariant wkDat.exploreMapHolder.Valid()
        invariant wkDat.exploreMapHolder.mapDat == old(wkDat.exploreMapHolder.mapDat) || fresh(wkDat.exploreMapHolder.mapDat)
        invariant goal == UpdateTiles(pltfm.script, pltfm.calls, State(wkDat),
                                      TileRow(cellIdxX, cellIdxXEnd, cellIdxY, reqSizeY, limit) + rest)
        invariant asks == pltfm.asked + TilesAsks(pltfm.script, pltfm.calls, State(wkDat),
                                                  TileRow(cellIdxX, cellIdxXEnd, cellIdxY, reqSizeY, limit) + rest)
      {
        var tmpRemX := cellIdxXEnd - cellIdxX;
        var reqSizeX := Min(tmpRemX, limit);
        FirstOfRow(cellIdxX, cellIdxXEnd, cellIdxY, reqSizeY, limit, rest);
        NextTile(pltfm.script, pltfm.calls, State(wkDat), TileRow(cellIdxX, cellIdxXEnd, cellIdxY, reqSizeY, limit) + rest, pltfm.asked);
        result := UpdateMapInCellIdxRect(pltfm, Rect(cellIdxX, cellIdxY, reqSizeX, reqSizeY), wkDat);
        if result != Ok(true) {
          return;
        }
        cellIdxX := cellIdxX + reqSizeX;
      }
      assert TileRow(cellIdxX, cellIdxXEnd, cellIdxY, reqSizeY, limit) + rest == rest;
      return Ok(true);
    }

    /** The loops of a sync: all rows of tiles. */
    method RequestTiles(known: Rect, limit: int, pltfm: Link, wkDat: WorkData) returns (result: Result)
      requires wkDat.exploreMapHolder.Valid() && 0 < limit
      modifies this, wkDat.exploreMapHolder, wkDat.exploreMapHolder.mapDat, pltfm
      ensures wkDat.exploreMapHolder.Valid()
      ensures wkDat.exploreMapHolder.mapDat == old(wkDat.exploreMapHolder.mapDat) || fresh(wkDat.exploreMapHolder.mapDat)
      ensures Step(result, State(wkDat), pltfm.calls)
              == UpdateTiles(pltfm.script, old(pltfm.calls), old(State(wkDat)), Tiles(known, limit))
      ensures pltfm.asked == old(pltfm.asked) + TilesAsks(pltfm.script, old(pltfm.calls), old(State(wkDat)), Tiles(known, limit))
    {
      hide TileRow, UpdateInRect, UpdateTiles, TilesAsks;
      ghost var goal := UpdateTiles(pltfm.script, pltfm.calls, State(wkDat), Tiles(known, limit));
      ghost var asks := pltfm.asked + TilesAsks(pltfm.script, pltfm.calls, State(wkDat), Tiles(known, limit));
      var cellIdxYEnd := known.y + known.height;
      var cellIdxY := known.y;
      while cellIdxY < cellIdxYEnd
        invariant wkDat.exploreMapHolder.Valid()
        invariant wkDat.exploreMapHolder.mapDat == old(wkDat.exploreMapHolder.mapDat) || fresh(wkDat.exploreMapHolder.mapDat)
        invariant goal == UpdateTiles(pltfm.script, pltfm.calls, State(wkDat), TileRows(known, cellIdxY, limit))
        invariant asks == pltfm.asked + TilesAsks(pltfm.script, pltfm.calls, State(wkDat), TileRows(known, cellIdxY, limit))
      {
        var tmpRemY := cellIdxYEnd - cellIdxY;
        var reqSizeY := Min(tmpRemY, limit);
        result := RequestRow(known, cellIdxY, reqSizeY, limit, pltfm, wkDat, TileRows(known, cellIdxY + reqSizeY, limit));
        if result != Ok(true) {
          return;
        }
        cellIdxY := cellIdxY + reqSizeY;
      }
      NoTiles(pltfm.script, pltfm.calls, State(wkDat));
      return Ok(true);
    }

    method SyncWholeMap(onceMaxWH: real, pltfm: Link, wkDat: WorkData) returns (result: Result)
      requires wkDat.exploreMapHolder.Valid()
      modifies this, wkDat.exploreMapHolder, wkDat.exploreMapHolder.mapDat, pltfm
      ensures wkDat.exploreMapHolder.Valid()
      ensures wkDat.exploreMapHolder.mapDat == old(wkDat.exploreMapHolder.mapDat) || fresh(wkDat.exploreMapHolder.mapDat)
      ensures Step(result, State(wkDat), pltfm.calls)
              == SyncWhole(pltfm.script, old(pltfm.calls), old(State(wkDat)), onceMaxWH)
      ensures pltfm.asked == old(pltfm.asked) + SyncAsks(pltfm.script, old(pltfm.calls), old(State(wkDat)), onceMaxWH)
    {
      hide UpdateTiles, TilesAsks, Tiles, OnceMaxCellCount, Rounded, SyncWhole, SyncAsks;
      SyncSteps(pltfm.script, pltfm.calls, State(wkDat), onceMaxWH, pltfm.asked);
      var holder := wkDat.exploreMapHolder;
      var limit := OnceMaxCellCount(holder.resolution, onceMaxWH);
      if limit <= 0 {
        return Failed(AssertionFailed);
      }
      var reply := pltfm.GetKnownArea();
      if reply.Raised? {
        return Failed(reply.ex);
      }
      var known := Rounded(holder.resolution, reply.value);
      if known.IsEmpty() {
        return Ok(false);
      }
      holder.Clear();
      holder.ReserveByCellIdxRect(known);
      result := RequestTiles(known, limit, pltfm, wkDat);
    }

    method UpdateMapNearRobot(halfWH: real, pltfm: Link, wkDat: WorkData) returns (result: Result)
      requires wkDat.exploreMapHolder.Valid()
      modifies this, wkDat, wkDat.exploreMapHolder, wkDat.exploreMapHolder.mapDat, pltfm
      ensures wkDat.exploreMapHolder.Valid()
      ensures wkDat.exploreMapHolder.mapDat == old(wkDat.exploreMapHolder.mapDat) || fresh(wkDat.exploreMapHolder.mapDat)
      ensures wkDat.poseX == old(wkDat.poseX) && wkDat.poseY == old(wkDat.poseY)
      ensures Step(result, State(wkDat), pltfm.calls)
              == UpdateNearRobot(pltfm.script, old(pltfm.calls), old(State(wkDat)), halfWH, old(wkDat.poseX), old(wkDat.poseY))
      ensures pltfm.asked == old(pltfm.asked) + NearAsks(pltfm.script, old(pltfm.calls), old(State(wkDat)),
                                                         Inputs(0.0, halfWH, old(wkDat.poseX), old(wkDat.poseY)))
    {
      var resolution := wkDat.exploreMapHolder.resolution;
      var nearRobotIdxRect := NearRobotRect(resolution, halfWH, wkDat.poseX, wkDat.poseY);
      var reply := pltfm.GetKnownArea();
      if reply.Raised? {
        return Failed(reply.ex);
      }
      var known := Rounded(resolution, reply.value);
      if known.IsEmpty() {
        wkDat.syncMapRequested := true;
        return Ok(false);
      }
      var reqIdxRect := nearRobotIdxRect.Intersect(known);
      if reqIdxRect.IsEmpty() {
        return Ok(false);
      }
      result := UpdateMapInCellIdxRect(pltfm, reqIdxRect, wkDat);
    }

    /** One perform; an exception is what it leaves to the work loop. */
    method DoPerform(onceMaxWH: real, halfWH: real, pltfm: Link, wkDat: WorkData) returns (raised: Result)
      requires wkDat.exploreMapHolder.Valid()
      modifies this, wkDat, wkDat.exploreMapHolder, wkDat.exploreMapHolder.mapDat, pltfm
      ensures wkDat.exploreMapHolder.Valid()
      ensures var d := Perform(pltfm.script, old(pltfm.calls), old(State(wkDat)),
                               Inputs(onceMaxWH, halfWH, old(wkDat.poseX), old(wkDat.poseY)));
              State(wkDat) == d.step.state && pltfm.calls == d.step.calls && raised == d.step.result
      ensures pltfm.asked == old(pltfm.asked)
                             + PerformAsks(pltfm.script, old(pltfm.calls), old(State(wkDat)),
                                           Inputs(onceMaxWH, halfWH, old(wkDat.poseX), old(wkDat.poseY)))
    {
      hide CheckReinit, SyncWhole, SyncAsks, UpdateNearRobot, NearAsks, ReinitAsks, Perform, PerformAsks;
      PerformSteps(pltfm.script, pltfm.calls, State(wkDat), Inputs(onceMaxWH, halfWH, wkDat.poseX, wkDat.poseY), pltfm.asked);
      var ready := CheckToReinitMap(pltfm, wkDat);
      if ready != Ok(true) {
        return ready;
      }
      if wkDat.syncMapRequested {
        raised := SyncWholeMap(onceMaxWH, pltfm, wkDat);
        if raised == Ok(true) {
          wkDat.syncMapRequested := false;
        }
      } else {
        raised := UpdateMapNearRobot(halfWH, pltfm, wkDat);
      }
    }
  }
}
