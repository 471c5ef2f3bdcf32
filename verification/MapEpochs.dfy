/** The map worker's flags over whole runs: re-initialise, then sync, and only then update near the robot. */
module MapEpochs {
  import opened CellRects
  import opened CellAreas
  import opened HolderSpec
  import opened MapHolder
  import opened HolderRuns
  import opened Platform
  import opened MapSync
  import opened SyncTiles

  const PROBE_AREA := Area(-0.5, -0.5, 1.0, 1.0)
  const LEAST_HALF_WH: real := 2.0

  /** Re-initialise the holder if asked to; success means the perform may go on. */
  ghost function CheckReinit(p: Script, calls: nat, s: MapState): (t: Step)
    requires Good(s.holder)
    ensures Good(t.state.holder) && calls <= t.calls
  {
    if !s.shouldReinit then
      Step(Ok(true), s, calls)
    else
      var asked := s.(syncRequested := true);
      match Fetch(p, calls, PROBE_AREA)
      case Raised(ex) => Step(Failed(ex), asked, calls + 1)
      case Returned(m) =>
        if m.NullMap? then
          Step(Ok(false), asked, calls + 1)
        else if m.resX <= FLT_EPSILON then
          Step(Failed(MapFault(InvalidResolution)), asked, calls + 1)
        else
          ClearedIsBlank(s.holder);
          Step(Ok(true), asked.(shouldReinit := false, holder := ReinitTo(s.holder, m.resX)), calls + 1)
  }

  /** The requested cells around the robot. */
  function NearRobotRect(resolution: real, halfWH: real, poseX: real, poseY: real): Rect
    requires 0.0 < resolution
  {
    var half := MaxReal(LEAST_HALF_WH, halfWH);
    MinBounding(resolution, Area(poseX - half, poseY - half, half + half, half + half))
  }

  lemma FloorOrder(resolution: real, v: real, c: int)
    requires 0.0 < resolution
    ensures c <= FloorCell(resolution, v) <==> Length(resolution, c) <= v
  {
    FloorBounds(resolution, v);
    LengthOrder(resolution, c, FloorCell(resolution, v));
    LengthOrder(resolution, FloorCell(resolution, v) + 1, c);
  }

  lemma WindowAxis(resolution: real, start: real, size: real, c: int)
    requires 0.0 < resolution && 0.0 <= size
    ensures FirstIndex(resolution, start, FloorCell(resolution, start)) <= c
            <==> start < Length(resolution, c + 1)
    ensures c <= LastIndex(resolution, start + size, FloorCell(resolution, start + size))
            <==> Length(resolution, c) <= start + size
  {
    AxisIsLeast(resolution, start, start + size, 0, 0);
    FloorOrder(resolution, start, c + 1);
    FloorOrder(resolution, start + size, c);
  }

  /** The half-open cell meets the closed window of the half width, which is at least 2 metres, around the position. */
  ghost predicate InWindow(resolution: real, halfWH: real, poseX: real, poseY: real, cx: int, cy: int) {
    var half := if halfWH <= 2.0 then 2.0 else halfWH;
    && Length(resolution, cx) <= poseX + half && poseX - half < Length(resolution, cx + 1)
    && Length(resolution, cy) <= poseY + half && poseY - half < Length(resolution, cy + 1)
  }

  /** The cells requested around the robot are exactly those that meet the closed window around its position. */
  lemma NearRectIsWindow(resolution: real, halfWH: real, poseX: real, poseY: real, cx: int, cy: int)
    requires 0.0 < resolution
    ensures NearRobotRect(resolution, halfWH, poseX, poseY).HasCell(cx, cy) <==> InWindow(resolution, halfWH, poseX, poseY, cx, cy)
  {
    var half := MaxReal(LEAST_HALF_WH, halfWH);
    WindowAxis(resolution, poseX - half, half + half, cx);
    WindowAxis(resolution, poseY - half, half + half, cy);
  }

  ghost function UpdateNearRobot(p: Script, calls: nat, s: MapState, halfWH: real, poseX: real, poseY: real): Step
    requires Good(s.holder)
  {
    match p.getKnownArea(calls)
    case Raised(ex) => Step(Failed(ex), s, calls + 1)
    case Returned(area) =>
      var known := Rounded(s.holder.resolution, area);
      if known.IsEmpty() then
        Step(Ok(false), s.(syncRequested := true), calls + 1)
      else
        var req := NearRobotRect(s.holder.resolution, halfWH, poseX, poseY).Intersect(known);
        if req.IsEmpty() then Step(Ok(false), s, calls + 1) else UpdateInRect(p, calls + 1, s, req)
  }

  /** The request around the robot was answered with a map of another resolution. */
  ghost predicate NearMismatch(p: Script, calls: nat, s: MapState, halfWH: real, poseX: real, poseY: real)
    requires Good(s.holder)
  {
    var reply := p.getKnownArea(calls);
    && reply.Returned?
    && var known := Rounded(s.holder.resolution, reply.value);
       var req := NearRobotRect(s.holder.resolution, halfWH, poseX, poseY).Intersect(known);
       !known.IsEmpty() && !req.IsEmpty() && Mismatch(p, calls + 1, s, req)
  }

  /** The platform knows no cell at all. */
  ghost predicate KnowsNothing(p: Script, calls: nat, resolution: real)
    requires 0.0 < resolution
  {
    var reply := p.getKnownArea(calls);
    reply.Returned? && Rounded(resolution, reply.value).IsEmpty()
  }

  /** An update near the robot asks for a sync exactly if nothing is known, and for a re-initialisation on a mismatch. */
  lemma NearFlags(p: Script, calls: nat, s: MapState, halfWH: real, poseX: real, poseY: real)
    requires Good(s.holder)
    ensures var t := UpdateNearRobot(p, calls, s, halfWH, poseX, poseY);
            && Good(t.state.holder) && calls <= t.calls
            && t.state.syncRequested == (s.syncRequested || KnowsNothing(p, calls, s.holder.resolution))
            && t.state.shouldReinit == (s.shouldReinit || NearMismatch(p, calls, s, halfWH, poseX, poseY))
  {
    hide Good, UpdateInRect, Mismatch, NearRobotRect, Rounded;
    GoodResolution(s.holder);
    var reply := p.getKnownArea(calls);
    if reply.Returned? {
      var known := Rounded(s.holder.resolution, reply.value);
      var req := NearRobotRect(s.holder.resolution, halfWH, poseX, poseY).Intersect(known);
      UpdateKeepsInvariant(p, calls + 1, s, req);
    }
  }

  /** Which way a perform went. */
  datatype Path = NotReady | Synced | SyncIncomplete | NearRobot

  datatype Performed = Performed(step: Step, path: Path)

  /** The inputs of one perform: two parameters and the robot position. */
  datatype Inputs = Inputs(onceMaxWH: real, halfWH: real, poseX: real, poseY: real)

  ghost function Perform(p: Script, calls: nat, s: MapState, inp: Inputs): Performed
    requires Good(s.holder)
  {
    var ready := CheckReinit(p, calls, s);
    if ready.result != Ok(true) then
      Performed(ready, NotReady)
    else if ready.state.syncRequested then
      var t := SyncWhole(p, ready.calls, ready.state, inp.onceMaxWH);
      if t.result == Ok(true) then Performed(t.(state := t.state.(syncRequested := false)), Synced)
      else Performed(t, SyncIncomplete)
    else
      Performed(UpdateNearRobot(p, ready.calls, ready.state, inp.halfWH, inp.poseX, inp.poseY), NearRobot)
  }

  /** A map request of the perform was answered with a map of another resolution. */
  ghost predicate PerformMismatch(p: Script, calls: nat, s: MapState, inp: Inputs)
    requires Good(s.holder)
  {
    var ready := CheckReinit(p, calls, s);
    && ready.result == Ok(true)
    && if ready.state.syncRequested then SyncMismatch(p, ready.calls, ready.state, inp.onceMaxWH)
       else NearMismatch(p, ready.calls, ready.state, inp.halfWH, inp.poseX, inp.poseY)
  }

  /** One perform: how its path, its re-initialisation and a mismatch show in the two flags. */
  lemma PerformEffect(p: Script, calls: nat, s: MapState, inp: Inputs)
    requires Good(s.holder)
    ensures var d := Perform(p, calls, s, inp);
            && Good(d.step.state.holder)
            && (d.path == NearRobot <==> !s.shouldReinit && !s.syncRequested)
            && (d.path == NearRobot ==> (d.step.state.syncRequested <==> KnowsNothing(p, calls, s.holder.resolution)))
            && (d.path == Synced ==> !d.step.state.syncRequested && !d.step.state.shouldReinit)
            && (d.path == NotReady || d.path == SyncIncomplete ==> d.step.state.syncRequested)
            && (s.syncRequested && !d.step.state.syncRequested ==> d.path == Synced)
            && (d.step.state.shouldReinit <==>
                  (s.shouldReinit && CheckReinit(p, calls, s).result != Ok(true)) || PerformMismatch(p, calls, s, inp))
  {
    GoodResolution(s.holder);
    hide SyncWhole, SyncMismatch, UpdateNearRobot, NearMismatch, KnowsNothing, Good;
    var ready := CheckReinit(p, calls, s);
    if ready.result == Ok(true) {
      if ready.state.syncRequested {
        SyncFlags(p, ready.calls, ready.state, inp.onceMaxWH);
      } else {
        NearFlags(p, ready.calls, ready.state, inp.halfWH, inp.poseX, inp.poseY);
      }
    }
  }

  datatype Event =
    | WorkLoopReinit
    | SyncRequest
    | Performs(inputs: Inputs)

  ghost function Next(p: Script, calls: nat, s: MapState, e: Event): (MapState, nat)
    requires Good(s.holder)
  {
    match e
    case WorkLoopReinit => (s.(shouldReinit := true), calls)
    case SyncRequest => (s.(syncRequested := true), calls)
    case Performs(inp) => var t := Perform(p, calls, s, inp).step; (t.state, t.calls)
  }

  // ----- Where the holder's cells come from -----

  /** The map was an answer to a call made after the first `since` calls, and before call number `calls`. */
  ghost predicate Served(p: Script, since: nat, calls: nat, m: MapMsg) {
    exists k: nat, area :: since <= k < calls && p.getMap(k, area) == Returned(m)
  }

  /** The operation reserves, or stores a map of the given resolution served since. */
  ghost predicate OwnOp(p: Script, since: nat, calls: nat, resolution: real, op: Op) {
    op.Reserve? || (op.Store? && Accepts(resolution, op.msg) && Served(p, since, calls, op.msg))
  }

  ghost predicate BuiltBy(p: Script, since: nat, calls: nat, h: HolderState, ops: seq<Op>)
    requires Good(h)
  {
    && (forall i :: 0 <= i < |ops| ==> OwnOp(p, since, calls, h.resolution, ops[i]))
    && Refines(h, h.resolution, ops)
  }

  /** Every cell of the holder is 0 or comes from a map, served since, whose resolution the holder takes for its own. */
  ghost predicate FromOwnMaps(p: Script, since: nat, calls: nat, h: HolderState) {
    Good(h) && exists ops: seq<Op> :: BuiltBy(p, since, calls, h, ops)
  }

  lemma OwnIsGood(p: Script, since: nat, calls: nat, h: HolderState)
    requires FromOwnMaps(p, since, calls, h)
    ensures Good(h)
  {
  }

  lemma BlankIsOwn(p: Script, since: nat, calls: nat, h: HolderState)
    requires Blank(h)
    ensures FromOwnMaps(p, since, calls, h)
  {
    RunRefinesGrid(h, []);
    assert BuiltBy(p, since, calls, h, []);
  }

  lemma LaterCallsKeepOwn(p: Script, since: nat, calls: nat, later: nat, h: HolderState)
    requires FromOwnMaps(p, since, calls, h) && calls <= later
    ensures FromOwnMaps(p, since, later, h)
  {
    var ops :| BuiltBy(p, since, calls, h, ops);
    assert BuiltBy(p, since, later, h, ops);
  }

  lemma OwnStep(p: Script, since: nat, calls: nat, h: HolderState, op: Op)
    requires FromOwnMaps(p, since, calls, h) && OwnOp(p, since, calls, h.resolution, op)
    ensures Good(Apply(h, op)) && FromOwnMaps(p, since, calls, Apply(h, op))
  {
    var ops :| BuiltBy(p, since, calls, h, ops);
    StepRefines(h, h.resolution, ops, op);
    assert Apply(h, op).resolution == h.resolution by {
      if op.Store? {
        StoreEffect(h, op.msg);
      }
    }
    assert BuiltBy(p, since, calls, Apply(h, op), ops + [op]);
  }

  lemma UpdateKeepsOwn(p: Script, since: nat, calls: nat, s: MapState, r: Rect)
    requires FromOwnMaps(p, since, calls, s.holder) && since <= calls
    ensures var t := UpdateInRect(p, calls, s, r);
            Good(t.state.holder) && FromOwnMaps(p, since, t.calls, t.state.holder)
  {
    hide FromOwnMaps, Good;
    OwnIsGood(p, since, calls, s.holder);
    UpdateKeepsInvariant(p, calls, s, r);
    LaterCallsKeepOwn(p, since, calls, calls + 1, s.holder);
    var area := AreaOf(s.holder.resolution, r);
    var reply := p.getMap(calls, area);
    if reply.Returned? && UpdateInRect(p, calls, s, r).result == Ok(true) {
      var m := reply.value;
      StoreEffect(s.holder, m);
      if Accepts(s.holder.resolution, m) {
        assert since <= calls < calls + 1 && p.getMap(calls, area) == Returned(m);
        assert Served(p, since, calls + 1, m);
        OwnStep(p, since, calls + 1, s.holder, Store(m));
      }
    }
  }

  lemma {:induction false} UpdateTilesKeepsOwn(p: Script, since: nat, calls: nat, s: MapState, tiles: seq<Rect>)
    requires FromOwnMaps(p, since, calls, s.holder) && since <= calls
    ensures var t := UpdateTiles(p, calls, s, tiles);
            FromOwnMaps(p, since, t.calls, t.state.holder)
    decreases |tiles|
  {
    hide FromOwnMaps, Good, UpdateInRect;
    OwnIsGood(p, since, calls, s.holder);
    if tiles != [] {
      UpdateKeepsInvariant(p, calls, s, tiles[0]);
      UpdateKeepsOwn(p, since, calls, s, tiles[0]);
      var t := UpdateInRect(p, calls, s, tiles[0]);
      if t.result == Ok(true) {
        UpdateTilesKeepsOwn(p, since, t.calls, t.state, tiles[1..]);
      }
    }
  }

  lemma StartIsOwn(p: Script, calls: nat, h: HolderState, known: Rect)
    requires Good(h) && !known.IsEmpty()
    ensures Good(SyncStart(h, known)) && FromOwnMaps(p, calls, calls, SyncStart(h, known))
  {
    ClearedIsBlank(h);
    BlankIsOwn(p, calls, calls, Cleared(h));
    OwnStep(p, calls, calls, Cleared(h), Reserve(known));
  }

  /** A sync that starts leaves only cells served after its own start. */
  lemma SyncKeepsOwn(p: Script, since: nat, calls: nat, s: MapState, onceMaxWH: real)
    requires FromOwnMaps(p, since, calls, s.holder) && since <= calls
    ensures var t := SyncWhole(p, calls, s, onceMaxWH);
            var last := if SyncStarts(p, calls, s, onceMaxWH) then calls + 1 else since;
            last <= t.calls && FromOwnMaps(p, last, t.calls, t.state.holder)
  {
    assert Good(s.holder);
    SyncFlags(p, calls, s, onceMaxWH);
    LaterCallsKeepOwn(p, since, calls, calls + 1, s.holder);
    hide FromOwnMaps, UpdateTiles, Tiles, SyncMismatch;
    if SyncStarts(p, calls, s, onceMaxWH) {
      var limit := OnceMaxCellCount(s.holder.resolution, onceMaxWH);
      var known := Rounded(s.holder.resolution, p.getKnownArea(calls).value);
      StartIsOwn(p, calls + 1, s.holder, known);
      UpdateTilesKeepsOwn(p, calls + 1, calls + 1, s.(holder := SyncStart(s.holder, known)), Tiles(known, limit));
    }
  }

  lemma NearKeepsOwn(p: Script, since: nat, calls: nat, s: MapState, inp: Inputs)
    requires FromOwnMaps(p, since, calls, s.holder) && since <= calls
    ensures var t := UpdateNearRobot(p, calls, s, inp.halfWH, inp.poseX, inp.poseY);
            since <= t.calls && FromOwnMaps(p, since, t.calls, t.state.holder)
  {
    assert Good(s.holder);
    NearFlags(p, calls, s, inp.halfWH, inp.poseX, inp.poseY);
    hide FromOwnMaps, UpdateInRect, NearMismatch;
    LaterCallsKeepOwn(p, since, calls, calls + 1, s.holder);
    var reply := p.getKnownArea(calls);
    if reply.Returned? {
      var known := Rounded(s.holder.resolution, reply.value);
      var req := NearRobotRect(s.holder.resolution, inp.halfWH, inp.poseX, inp.poseY).Intersect(known);
      if !known.IsEmpty() && !req.IsEmpty() {
        UpdateKeepsOwn(p, since, calls + 1, s, req);
      }
    }
  }

  /** The number of calls made before the holder was last cleared, if it was `since` before the perform. */
  ghost function ClearCall(p: Script, calls: nat, s: MapState, inp: Inputs, since: nat): nat
    requires Good(s.holder)
  {
    var ready := CheckReinit(p, calls, s);
    if ready.result != Ok(true) then since
    else if ready.state.syncRequested && SyncStarts(p, ready.calls, ready.state, inp.onceMaxWH) then ready.calls + 1
    else if s.shouldReinit then ready.calls
    else since
  }

  lemma ReinitKeepsOwn(p: Script, since: nat, calls: nat, s: MapState)
    requires FromOwnMaps(p, since, calls, s.holder) && since <= calls
    ensures Good(s.holder)
    ensures var ready := CheckReinit(p, calls, s);
            var begun := if ready.result == Ok(true) && s.shouldReinit then ready.calls else since;
            Good(ready.state.holder) && begun <= ready.calls && FromOwnMaps(p, begun, ready.calls, ready.state.holder)
  {
    hide FromOwnMaps, Good;
    OwnIsGood(p, since, calls, s.holder);
    var ready := CheckReinit(p, calls, s);
    LaterCallsKeepOwn(p, since, calls, ready.calls, s.holder);
    if ready.result == Ok(true) && s.shouldReinit {
      ClearedIsBlank(s.holder);
      BlankIsOwn(p, ready.calls, ready.calls, ready.state.holder);
    }
  }

  /** The holder and the number of calls after a perform are those its path left. */
  lemma PerformLeaves(p: Script, calls: nat, s: MapState, inp: Inputs)
    requires Good(s.holder)
    ensures var ready, d := CheckReinit(p, calls, s), Perform(p, calls, s, inp).step;
            Good(ready.state.holder)
            && var t := if ready.result != Ok(true) then ready
                        else if ready.state.syncRequested then SyncWhole(p, ready.calls, ready.state, inp.onceMaxWH)
                        else UpdateNearRobot(p, ready.calls, ready.state, inp.halfWH, inp.poseX, inp.poseY);
               d.state.holder == t.state.holder && d.calls == t.calls
  {
    hide SyncWhole, UpdateNearRobot;
  }

  /** After one perform all cells come from maps served since the holder was last cleared. */
  lemma PerformKeepsOwn(p: Script, since: nat, calls: nat, s: MapState, inp: Inputs)
    requires FromOwnMaps(p, since, calls, s.holder) && since <= calls
    ensures var d := Perform(p, calls, s, inp);
            var last := ClearCall(p, calls, s, inp, since);
            last <= d.step.calls && FromOwnMaps(p, last, d.step.calls, d.step.state.holder)
  {
    hide FromOwnMaps, Good, CheckReinit, SyncWhole, UpdateNearRobot, SyncStarts, Perform;
    ReinitKeepsOwn(p, since, calls, s);
    PerformLeaves(p, calls, s, inp);
    var ready, d, last := CheckReinit(p, calls, s), Perform(p, calls, s, inp).step, ClearCall(p, calls, s, inp, since);
    var begun := if ready.result == Ok(true) && s.shouldReinit then ready.calls else since;
    if ready.result != Ok(true) {
      assert d.state.holder == ready.state.holder && last == begun;
    } else if ready.state.syncRequested {
      SyncKeepsOwn(p, begun, ready.calls, ready.state, inp.onceMaxWH);
      assert last == if SyncStarts(p, ready.calls, ready.state, inp.onceMaxWH) then ready.calls + 1 else begun;
    } else {
      NearKeepsOwn(p, begun, ready.calls, ready.state, inp);
      assert last == begun;
    }
  }

  // ----- Whole runs -----

  ghost predicate Initial(s: MapState) {
    s.shouldReinit && s.syncRequested && Blank(s.holder)
  }

  /** The states between the events of a run, each with the number of calls made so far. */
  type Trace = seq<(MapState, nat)>

  /** A run of the given events from an initial state; every step is taken from a good holder. */
  ghost predicate IsRun(p: Script, t: Trace, es: seq<Event>) {
    && |t| == |es| + 1
    && Initial(t[0].0) && t[0].1 == 0
    && (forall i :: 0 <= i < |t| ==> Good(t[i].0.holder))
    && (forall i :: 0 <= i < |es| ==> t[i + 1] == Next(p, t[i].1, t[i].0, es[i]))
  }

  /** The number of calls made before the last re-initialisation or start of a sync up to state i. */
  ghost function LastClear(p: Script, t: Trace, es: seq<Event>, i: nat): nat
    requires IsRun(p, t, es) && i <= |es|
  {
    if i == 0 then
      0
    else
      var before := LastClear(p, t, es, i - 1);
      if es[i - 1].Performs? then ClearCall(p, t[i - 1].1, t[i - 1].0, es[i - 1].inputs, before) else before
  }

  /**
    In every state of every run all cells are 0 or come from maps of the holder's own resolution that the platform
    served since the last re-initialisation or start of a sync.
   */
  lemma {:induction false} RunKeepsOwn(p: Script, t: Trace, es: seq<Event>, i: nat)
    requires IsRun(p, t, es) && i <= |es|
    ensures LastClear(p, t, es, i) <= t[i].1 && FromOwnMaps(p, LastClear(p, t, es, i), t[i].1, t[i].0.holder)
  {
    hide FromOwnMaps, Perform, ClearCall;
    if i == 0 {
      BlankIsOwn(p, 0, 0, t[0].0.holder);
    } else {
      RunKeepsOwn(p, t, es, i - 1);
      assert t[i - 1 + 1] == Next(p, t[i - 1].1, t[i - 1].0, es[i - 1]);
      if es[i - 1].Performs? {
        PerformKeepsOwn(p, LastClear(p, t, es, i - 1), t[i - 1].1, t[i - 1].0, es[i - 1].inputs);
      }
    }
  }

  /** A run never gets stuck: any event extends it. */
  lemma RunExtends(p: Script, t: Trace, es: seq<Event>, e: Event)
    requires IsRun(p, t, es)
    ensures IsRun(p, t + [Next(p, t[|es|].1, t[|es|].0, e)], es + [e])
  {
    hide Perform;
    var s := t[|es|];
    assert Good(s.0.holder);
    if e.Performs? {
      PerformEffect(p, s.1, s.0, e.inputs);
    }
  }

  /** The perform at position i went this way. */
  ghost predicate Took(p: Script, t: Trace, es: seq<Event>, i: nat, path: Path)
    requires IsRun(p, t, es) && i < |es|
  {
    es[i].Performs? && Perform(p, t[i].1, t[i].0, es[i].inputs).path == path
  }

  /** Event i re-initialised the holder. */
  ghost predicate Reinitialised(p: Script, t: Trace, es: seq<Event>, i: nat)
    requires IsRun(p, t, es) && i < |es|
  {
    es[i].Performs? && t[i].0.shouldReinit && CheckReinit(p, t[i].1, t[i].0).result == Ok(true)
  }

  /** The perform at position i received a map of another resolution. */
  ghost predicate Mismatched(p: Script, t: Trace, es: seq<Event>, i: nat)
    requires IsRun(p, t, es) && i < |es|
  {
    es[i].Performs? && PerformMismatch(p, t[i].1, t[i].0, es[i].inputs)
  }

  /** Event h re-initialised, and from then to state n no re-initialisation was pending. */
  ghost predicate ReadySince(p: Script, t: Trace, es: seq<Event>, h: nat, n: nat)
    requires IsRun(p, t, es) && n <= |es|
  {
    h < n && Reinitialised(p, t, es, h) && forall k: nat :: h < k <= n ==> !t[k].0.shouldReinit
  }

  /** Event j synced the whole map, and every event from then to before n is an update near the robot. */
  ghost predicate SyncedSince(p: Script, t: Trace, es: seq<Event>, j: nat, n: nat)
    requires IsRun(p, t, es) && n <= |es|
  {
    j < n && Took(p, t, es, j, Synced) && forall k: nat :: j < k < n ==> Took(p, t, es, k, NearRobot)
  }

  /** One event of a run: how its path shows in the flags before and after it. */
  lemma RunStep(p: Script, t: Trace, es: seq<Event>, i: nat)
    requires IsRun(p, t, es) && i < |es|
    ensures !t[i + 1].0.shouldReinit ==> Reinitialised(p, t, es, i) || !t[i].0.shouldReinit
    ensures !t[i + 1].0.shouldReinit && !t[i + 1].0.syncRequested ==>
              || Took(p, t, es, i, Synced)
              || (Took(p, t, es, i, NearRobot) && !t[i].0.shouldReinit && !t[i].0.syncRequested)
    ensures Took(p, t, es, i, NearRobot) ==> !t[i].0.shouldReinit && !t[i].0.syncRequested
    ensures t[i].0.syncRequested && !t[i + 1].0.syncRequested ==> Took(p, t, es, i, Synced)
    ensures t[i + 1].0.shouldReinit <==>
              || (t[i].0.shouldReinit && !Reinitialised(p, t, es, i)) || es[i].WorkLoopReinit? || Mismatched(p, t, es, i)
  {
    hide Perform, PerformMismatch, CheckReinit;
    assert Good(t[i].0.holder);
    assert t[i + 1] == Next(p, t[i].1, t[i].0, es[i]);
    if es[i].Performs? {
      PerformEffect(p, t[i].1, t[i].0, es[i].inputs);
    }
  }

  lemma ReadyOneMore(p: Script, t: Trace, es: seq<Event>, h: nat, n: nat)
    requires IsRun(p, t, es) && n < |es| && ReadySince(p, t, es, h, n) && !t[n + 1].0.shouldReinit
    ensures ReadySince(p, t, es, h, n + 1)
  {
    hide Next, Perform, CheckReinit, PerformMismatch;
    forall k: nat | h < k <= n + 1
      ensures !t[k].0.shouldReinit
    {
    }
  }

  lemma {:induction false} ReadyHasReinit(p: Script, t: Trace, es: seq<Event>, n: nat)
    requires IsRun(p, t, es) && n <= |es| && !t[n].0.shouldReinit
    ensures exists h: nat :: ReadySince(p, t, es, h, n)
  {
    hide Next, Perform, CheckReinit, PerformMismatch;
    if 0 < n {
      RunStep(p, t, es, n - 1);
      if Reinitialised(p, t, es, n - 1) {
        assert ReadySince(p, t, es, n - 1, n);
      } else {
        ReadyHasReinit(p, t, es, n - 1);
        var h: nat :| ReadySince(p, t, es, h, n - 1);
        ReadyOneMore(p, t, es, h, n - 1);
      }
    }
  }

  lemma SyncedOneMore(p: Script, t: Trace, es: seq<Event>, j: nat, n: nat)
    requires IsRun(p, t, es) && n < |es| && SyncedSince(p, t, es, j, n) && Took(p, t, es, n, NearRobot)
    ensures SyncedSince(p, t, es, j, n + 1)
  {
    hide Next, Perform, CheckReinit, PerformMismatch;
    forall k: nat | j < k < n + 1
      ensures Took(p, t, es, k, NearRobot)
    {
      assert k < n ==> Took(p, t, es, k, NearRobot);
    }
  }

  lemma {:induction false} QuietHasSync(p: Script, t: Trace, es: seq<Event>, n: nat)
    requires IsRun(p, t, es) && n <= |es| && !t[n].0.shouldReinit && !t[n].0.syncRequested
    ensures exists j: nat :: SyncedSince(p, t, es, j, n)
  {
    hide Next, Perform, CheckReinit, PerformMismatch;
    if 0 < n {
      RunStep(p, t, es, n - 1);
      if Took(p, t, es, n - 1, Synced) {
        assert SyncedSince(p, t, es, n - 1, n);
      } else {
        QuietHasSync(p, t, es, n - 1);
        var j: nat :| SyncedSince(p, t, es, j, n - 1);
        SyncedOneMore(p, t, es, j, n - 1);
      }
    }
  }

  /**
    Over every run: an update near the robot is preceded by a whole sync with only such updates in between,
    and the sync by, or in the same perform as, a re-initialisation, with none pending ever since.
   */
  lemma NearUpdateFollowsSync(p: Script, t: Trace, es: seq<Event>, i: nat)
    requires IsRun(p, t, es) && i < |es| && Took(p, t, es, i, NearRobot)
    ensures exists h: nat, j: nat :: h <= j && ReadySince(p, t, es, h, i) && SyncedSince(p, t, es, j, i)
  {
    hide Next, Perform, CheckReinit, PerformMismatch;
    RunStep(p, t, es, i);
    ReadyHasReinit(p, t, es, i);
    QuietHasSync(p, t, es, i);
    var h: nat :| ReadySince(p, t, es, h, i);
    var j: nat :| SyncedSince(p, t, es, j, i);
    RunStep(p, t, es, h);
    assert h <= j;
  }

  /** While none is pending, nothing asks for a re-initialisation: no work loop begins, and no map has another resolution. */
  lemma ReadyIsUninterrupted(p: Script, t: Trace, es: seq<Event>, h: nat, n: nat, k: nat)
    requires IsRun(p, t, es) && n <= |es| && ReadySince(p, t, es, h, n) && h <= k < n
    ensures !es[k].WorkLoopReinit? && !Mismatched(p, t, es, k)
  {
    hide Next, Perform, CheckReinit, PerformMismatch;
    RunStep(p, t, es, k);
    assert !t[k + 1].0.shouldReinit;
  }

  /** Over every run: the sync request is lowered only by a whole sync that succeeded. */
  lemma RequestEndsOnlyBySync(p: Script, t: Trace, es: seq<Event>, i: nat)
    requires IsRun(p, t, es) && i < |es| && t[i].0.syncRequested && !t[i + 1].0.syncRequested
    ensures es[i].Performs?
    ensures var ready := CheckReinit(p, t[i].1, t[i].0);
            && ready.result == Ok(true)
            && SyncWhole(p, ready.calls, ready.state, es[i].inputs.onceMaxWH).result == Ok(true)
  {
    RunStep(p, t, es, i);
  }

  lemma RequestRaises(p: Script, t: Trace, es: seq<Event>, i: nat)
    requires IsRun(p, t, es) && i < |es| && es[i].SyncRequest?
    ensures t[i + 1].0.syncRequested
  {
    hide Perform;
    assert t[i + 1] == Next(p, t[i].1, t[i].0, es[i]);
  }

  /** Over every run: a request for a sync stands until a whole sync succeeds, and keeps updates near the robot away. */
  lemma {:induction false} RequestStands(p: Script, t: Trace, es: seq<Event>, i: nat, n: nat)
    requires IsRun(p, t, es) && i < n <= |es| && es[i].SyncRequest?
    requires forall k: nat :: i < k < n ==> !Took(p, t, es, k, Synced)
    ensures t[n].0.syncRequested && (n < |es| ==> !Took(p, t, es, n, NearRobot))
  {
    hide Next, Perform, CheckReinit, PerformMismatch;
    RequestRaises(p, t, es, i);
    if i + 1 < n {
      RequestStands(p, t, es, i, n - 1);
      RunStep(p, t, es, n - 1);
    }
    if n < |es| {
      RunStep(p, t, es, n);
    }
  }
}
