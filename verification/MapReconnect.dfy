/** The map worker inside the work thread: what a connection fault means for the updates near the robot. */
module MapReconnect {
  import opened CellAreas
  import opened HolderSpec
  import opened Platform
  import opened MapSync
  import opened MapEpochs
  import opened MapPerform
  import L = LoopLog

  /** The thread's log shows how a perform of the map worker ended. */
  predicate Reports(e: L.Event, worker: nat, result: Result) {
    && L.IsPerform(e, worker)
    && (e.outcome == L.PerformRaised(L.ConnectionFault) <==> result.Failed? && IsConnection(result.ex))
    && (e.outcome.Performed? <==> result.Ok?)
  }

  /** The thread's event e is the map worker's event m; the map worker's re-initialisation never fails. */
  ghost predicate Matches(p: Script, calls: nat, s: MapState, m: Event, e: L.Event, worker: nat)
    requires Good(s.holder)
  {
    match m
    case WorkLoopReinit => e == L.Reinit(worker, L.ReinitReturned(true))
    case Performs(inputs) => Reports(e, worker, Perform(p, calls, s, inputs).step.result)
    case SyncRequest => false
  }

  predicate Concerns(e: L.Event, worker: nat) {
    (e.Reinit? && e.worker == worker) || L.IsPerform(e, worker)
  }

  /** Which event of the map worker, if any, happens at position q of the log. */
  ghost predicate HappensAt(es: seq<Event>, at: seq<nat>, i: nat, q: nat) {
    i < |es| == |at| && at[i] == q && !es[i].SyncRequest?
  }

  /**
    The log contains the run: event i of the run happens at position at[i], requests for a sync between two events of
    the thread, and every re-initialisation and perform of the worker in the log is one of the run.
   */
  ghost predicate Contains(log: seq<L.Event>, worker: nat, p: Script, t: Trace, es: seq<Event>, at: seq<nat>)
    requires IsRun(p, t, es)
  {
    && |at| == |es|
    && (forall i, j :: 0 <= i < j < |at| ==> if es[i].SyncRequest? then at[i] <= at[j] else at[i] < at[j])
    && (forall i :: 0 <= i < |at| ==> at[i] <= |log|)
    && (forall i :: 0 <= i < |at| && !es[i].SyncRequest? ==>
          at[i] < |log| && Matches(p, t[i].1, t[i].0, es[i], log[at[i]], worker))
    && (forall q: nat :: q < |log| && Concerns(log[q], worker) ==> exists i: nat :: HappensAt(es, at, i, q))
  }

  lemma EmptyLogContainsRun(worker: nat, p: Script, t: Trace)
    requires IsRun(p, t, [])
    ensures Contains([], worker, p, t, [], [])
  {
  }

  /** An event of the thread that does not concern the worker changes nothing. */
  lemma ContainsOther(log: seq<L.Event>, e: L.Event, worker: nat, p: Script, t: Trace, es: seq<Event>, at: seq<nat>)
    requires IsRun(p, t, es) && Contains(log, worker, p, t, es, at) && !Concerns(e, worker)
    ensures Contains(log + [e], worker, p, t, es, at)
  {
    hide IsRun, Matches;
  }

  /** The worker's next event extends both, the log and the run, as long as the log reports it truthfully. */
  lemma ContainsNext(log: seq<L.Event>, e: L.Event, worker: nat, p: Script, t: Trace, es: seq<Event>, at: seq<nat>, m: Event)
    requires IsRun(p, t, es) && Contains(log, worker, p, t, es, at)
    requires if m.SyncRequest? then true else Matches(p, t[|es|].1, t[|es|].0, m, e, worker)
    ensures var longer := t + [Next(p, t[|es|].1, t[|es|].0, m)];
            && IsRun(p, longer, es + [m])
            && Contains(if m.SyncRequest? then log else log + [e], worker, p, longer, es + [m], at + [|log|])
  {
    hide Next, Perform, CheckReinit, Matches;
    RunExtends(p, t, es, m);
    var log', es', at' := if m.SyncRequest? then log else log + [e], es + [m], at + [|log|];
    forall q: nat | q < |log'| && Concerns(log'[q], worker)
      ensures exists i: nat :: HappensAt(es', at', i, q)
    {
      if q < |log| {
        var i: nat :| HappensAt(es, at, i, q);
        assert HappensAt(es', at', i, q);
      } else {
        assert HappensAt(es', at', |es|, q);
      }
    }
  }

  /** A re-initialisation of the worker in the log is the beginning of a work loop in the run. */
  lemma ReinitIsBeginning(log: seq<L.Event>, worker: nat, p: Script, t: Trace, es: seq<Event>, at: seq<nat>, q: nat)
    returns (g: nat)
    requires IsRun(p, t, es) && Contains(log, worker, p, t, es, at)
    requires q < |log| && log[q].Reinit? && log[q].worker == worker
    ensures g < |es| && at[g] == q && es[g].WorkLoopReinit?
  {
    assert Concerns(log[q], worker);
    g :| HappensAt(es, at, g, q);
    assert Matches(p, t[g].1, t[g].0, es[g], log[q], worker);
  }

  lemma PerformIsCheck(log: seq<L.Event>, worker: nat, p: Script, t: Trace, es: seq<Event>, at: seq<nat>, i: nat)
    requires IsRun(p, t, es) && Contains(log, worker, p, t, es, at) && i < |es| && es[i].Performs?
    ensures at[i] < |log| && log[at[i]].Check?
  {
    hide Perform;
    assert Matches(p, t[i].1, t[i].0, es[i], log[at[i]], worker);
  }

  /** The sync at j and, at or before it, the re-initialisation at h are later than the beginning g of a work loop. */
  lemma SyncFollowsBeginning(p: Script, t: Trace, es: seq<Event>, g: nat, i: nat) returns (h: nat, j: nat)
    requires IsRun(p, t, es) && g < i < |es| && es[g].WorkLoopReinit? && Took(p, t, es, i, NearRobot)
    ensures g < h <= j < i && ReadySince(p, t, es, h, i) && SyncedSince(p, t, es, j, i)
  {
    NearUpdateFollowsSync(p, t, es, i);
    hide IsRun, Took, Reinitialised;
    h, j :| h <= j && ReadySince(p, t, es, h, i) && SyncedSince(p, t, es, j, i);
    if h <= g {
      ReadyIsUninterrupted(p, t, es, h, i, g);
      assert false;
    }
  }

  /** Before event i, and since position c of the log, the map was re-initialised and then synced as a whole. */
  ghost predicate Resynced(p: Script, t: Trace, es: seq<Event>, at: seq<nat>, c: int, i: nat)
    requires IsRun(p, t, es) && i < |es| == |at|
  {
    exists h: nat, j: nat :: h <= j < i && c < at[h] && ReadySince(p, t, es, h, i) && SyncedSince(p, t, es, j, i)
  }

  lemma ResyncAfterRestart(log: seq<L.Event>, worker: nat, p: Script, t: Trace, es: seq<Event>, at: seq<nat>, c: int, k: int, i: nat)
    requires IsRun(p, t, es) && Contains(log, worker, p, t, es, at)
    requires i < |es| && Took(p, t, es, i, NearRobot)
    requires L.RestartedBetween(log, c, k, worker) && k < at[i]
    ensures Resynced(p, t, es, at, c, i)
  {
    hide Perform, Reinitialised;
    var e, q :| c < e < q < k && log[e] == L.Reset(worker) && L.RaisesFlag(log[q], worker);
    var g := ReinitIsBeginning(log, worker, p, t, es, at, q);
    var h, j := SyncFollowsBeginning(p, t, es, g, i);
    assert at[g] < at[h];
  }

  /**
    After a connection fault of any worker, an update near the robot waits for a release, a connect, a reset and a
    re-initialisation of every worker and a round counting all, and then, on that connection, for a re-initialisation
    of the map and a whole sync that succeeded, with only updates near the robot after it.
   */
  lemma NearUpdateAfterFault(log: seq<L.Event>, intervals: seq<nat>, worker: nat, p: Script, t: Trace, es: seq<Event>,
                             at: seq<nat>, a: nat, i: nat)
    requires L.Protocol(log, intervals) && worker < |intervals|
    requires IsRun(p, t, es) && Contains(log, worker, p, t, es, at)
    requires i < |es| && Took(p, t, es, i, NearRobot) && a < at[i] && L.IsConnectionFault(log[a])
    ensures exists r, c, k :: a < r && L.Restart(log, r, c, k, at[i], |intervals|) && Resynced(p, t, es, at, c, i)
  {
    hide Perform, Reinitialised, Resynced, L.Protocol, L.FlagUp;
    PerformIsCheck(log, worker, p, t, es, at, i);
    L.ReconnectBeforeNextCheck(log, intervals, a, at[i]);
    var r, c, k :| a < r && L.Restart(log, r, c, k, at[i], |intervals|);
    assert L.RestartedBetween(log, c, k, worker);
    ResyncAfterRestart(log, worker, p, t, es, at, c, k, i);
  }

  /** One of the three exceptions of a lost connection. */
  predicate LosesConnection(fate: Fate) {
    fate == Raises(ConnectionLost) || fate == Raises(ConnectionTimeOut) || fate == Raises(ConnectionFail)
  }

  /** A platform call of the map worker that loses the connection is a connection fault in the log of the thread. */
  lemma LostCallIsFault(log: seq<L.Event>, worker: nat, p: Script, t: Trace, es: seq<Event>, at: seq<nat>, i: nat, k: nat)
    requires IsRun(p, t, es) && Contains(log, worker, p, t, es, at) && i < |es| && es[i].Performs?
    requires var asks := PerformAsks(p, t[i].1, t[i].0, es[i].inputs);
             k < |asks| && LosesConnection(FateOf(p, t[i].1 + k, asks[k]))
    ensures at[i] < |log| && L.IsConnectionFault(log[at[i]])
  {
    hide Next, Perform, PerformAsks, CheckReinit, Good;
    PerformIsCheck(log, worker, p, t, es, at, i);
    assert Matches(p, t[i].1, t[i].0, es[i], log[at[i]], worker);
    RaiseEndsPerform(p, t[i].1, t[i].0, es[i].inputs, k, FateOf(p, t[i].1 + k, PerformAsks(p, t[i].1, t[i].0, es[i].inputs)[k]).ex);
  }

  /**
    After a platform call of the map worker that loses the connection, the next update near the robot waits for the
    whole reconnect, and for a re-initialisation of the map and a whole sync on the new connection.
   */
  lemma NearUpdateAfterLostCall(log: seq<L.Event>, intervals: seq<nat>, worker: nat, p: Script, t: Trace, es: seq<Event>,
                                at: seq<nat>, i: nat, k: nat, j: nat)
    requires L.Protocol(log, intervals) && worker < |intervals|
    requires IsRun(p, t, es) && Contains(log, worker, p, t, es, at) && i < j < |es|
    requires es[i].Performs? && Took(p, t, es, j, NearRobot)
    requires var asks := PerformAsks(p, t[i].1, t[i].0, es[i].inputs);
             k < |asks| && LosesConnection(FateOf(p, t[i].1 + k, asks[k]))
    ensures exists r, c, m :: at[i] < r && L.Restart(log, r, c, m, at[j], |intervals|) && Resynced(p, t, es, at, c, j)
  {
    hide Perform, PerformAsks, Reinitialised, Resynced, L.Protocol, L.FlagUp, L.Restart;
    LostCallIsFault(log, worker, p, t, es, at, i, k);
    assert at[i] < at[j];
    NearUpdateAfterFault(log, intervals, worker, p, t, es, at, at[i], j);
  }
}
