/** The server's work thread: connect, re-initialise all workers, and run the scheduling loop. */
module WorkLoop {
  import opened LoopLog

  /** The outcome of a step that an exception may cut short. */
  datatype Progress = Succeeded | GaveUp | Escaped

  /**
    The world outside the thread. Each script is indexed by the number of earlier interactions. A stop request
    arrives after an arbitrary number of polls, so the runs up to then are the prefixes of all runs.
   */
  class World {
    const clockSteps: nat -> nat
    const connects: nat -> bool
    const resets: nat -> Option<Fault>
    const reinits: nat -> ReinitReply
    const performs: nat -> Option<Fault>
    var used: nat
    var time: int
    var pollsLeft: nat

    constructor (clockSteps: nat -> nat, connects: nat -> bool, resets: nat -> Option<Fault>,
                 reinits: nat -> ReinitReply, performs: nat -> Option<Fault>, polls: nat)
    {
      this.clockSteps, this.connects, this.resets := clockSteps, connects, resets;
      this.reinits, this.performs, this.pollsLeft := reinits, performs, polls;
      used, time := 0, 0;
    }

    /** The steady clock. */
    method Now() returns (tpNow: int)
      modifies this`used, this`time
      ensures tpNow == time == old(time) + clockSteps(old(used)) && used == old(used) + 1
    {
      time := time + clockSteps(used);
      used := used + 1;
      tpNow := time;
    }

    method ShouldContinueRunning() returns (yes: bool)
      modifies this`pollsLeft
      ensures yes == (0 < old(pollsLeft))
      ensures pollsLeft == if yes then old(pollsLeft) - 1 else 0
    {
      yes := 0 < pollsLeft;
      if yes {
        pollsLeft := pollsLeft - 1;
      }
    }

    method Connect() returns (ok: bool)
      modifies this`used
      ensures ok == connects(old(used)) && used == old(used) + 1
    {
      ok := connects(used);
      used := used + 1;
    }

    method Reset() returns (fault: Option<Fault>)
      modifies this`used
      ensures fault == resets(old(used)) && used == old(used) + 1
    {
      fault := resets(used);
      used := used + 1;
    }

    method Reinit() returns (reply: ReinitReply)
      modifies this`used
      ensures reply == reinits(old(used)) && used == old(used) + 1
    {
      reply := reinits(used);
      used := used + 1;
    }

    method Perform() returns (fault: Option<Fault>)
      modifies this`used
      ensures fault == performs(old(used)) && used == old(used) + 1
    {
      fault := performs(used);
      used := used + 1;
    }
  }

  class ServerWorker {
    var isWorkLoopInitOk: bool
    var nextTimepointToTrigger: int
    const triggerInterval: nat

    constructor (interval: nat)
      ensures !isWorkLoopInitOk && nextTimepointToTrigger == 0 && triggerInterval == interval
    {
      isWorkLoopInitOk := false;
      nextTimepointToTrigger := 0;
      triggerInterval := interval;
    }

    method ResetOnWorkLoopBegin(world: World) returns (fault: Option<Fault>)
      modifies this`isWorkLoopInitOk, world`used
      ensures fault == world.resets(old(world.used))
      ensures isWorkLoopInitOk == if fault == None then false else old(isWorkLoopInitOk)
    {
      fault := world.Reset();
      if fault == None {
        isWorkLoopInitOk := false;
      }
    }

    method ReinitWorkLoop(world: World) returns (reply: ReinitReply)
      modifies this, world`used
      ensures reply == world.reinits(old(world.used))
      ensures nextTimepointToTrigger == 0 && isWorkLoopInitOk == FlagAfter(reply)
    {
      nextTimepointToTrigger := 0;
      reply := world.Reinit();
      isWorkLoopInitOk := FlagAfter(reply);
    }

    /** Performs if the worker is due; the next trigger time is set before, whatever the perform raises. */
    method CheckToPerform(world: World) returns (at: int, outcome: CheckOutcome)
      modifies this`nextTimepointToTrigger, world`used, world`time
      ensures at == world.time && old(world.time) <= at
      ensures outcome == if at < old(nextTimepointToTrigger) then NotDue
                         else if world.performs(old(world.used) + 1) == None then Performed
                         else PerformRaised(world.performs(old(world.used) + 1).value)
      ensures nextTimepointToTrigger == if outcome == NotDue then old(nextTimepointToTrigger) else at + triggerInterval
    {
      at := world.Now();
      outcome := NotDue;
      if nextTimepointToTrigger <= at {
        nextTimepointToTrigger := at + triggerInterval;
        var fault := world.Perform();
        outcome := if fault.Some? then PerformRaised(fault.value) else Performed;
      }
    }
  }

  /** min is the least of the cap and the listed times. */
  ghost predicate IsLeast(min: int, cap: int, times: seq<int>) {
    && min <= cap && (forall w :: 0 <= w < |times| ==> min <= times[w])
    && (min == cap || min in times)
  }

  lemma LeastOfOneMore(min: int, cap: int, times: seq<int>, time: int)
    requires IsLeast(min, cap, times)
    ensures IsLeast(if time < min then time else min, cap, times + [time])
  {
    assert (times + [time])[|times|] == time;
  }

  lemma LinkedByConnect(log: seq<Event>)
    requires FaultsReleased(log, |log|)
    ensures Linked(log + [Connected], |log|)
  {
    var longer := log + [Connected];
    forall a | 0 <= a < |log| && IsConnectionFault(longer[a])
      ensures ReleasedBetween(longer, a, |log|)
    {
      assert log[a] == longer[a];
      assert ReleasedBetween(log, a, |log|);
      var r :| a < r < |log| && log[r] == Released;
      assert longer[r] == Released;
    }
  }

  lemma LinkedAppend(log: seq<Event>, c: int, e: Event)
    requires Linked(log, c) && e != Released && !IsConnectionFault(e)
    ensures Linked(log + [e], c)
  {
    var longer := log + [e];
    forall a | 0 <= a < c && IsConnectionFault(longer[a])
      ensures ReleasedBetween(longer, a, c)
    {
      assert log[a] == longer[a];
      assert ReleasedBetween(log, a, c);
      var r :| a < r < c && log[r] == Released;
      assert longer[r] == Released;
    }
  }

  /** The first `count` workers were reset since position c. */
  ghost predicate AllReset(log: seq<Event>, c: int, count: nat) {
    forall w: nat :: w < count ==> ResetBetween(log, c, |log|, w)
  }

  lemma ResetsStay(log: seq<Event>, longer: seq<Event>, c: int, count: nat)
    requires log <= longer && AllReset(log, c, count)
    ensures AllReset(longer, c, count)
  {
    forall w: nat | w < count
      ensures ResetBetween(longer, c, |longer|, w)
    {
      assert ResetBetween(log, c, |log|, w);
      var r :| c < r < |log| && log[r] == Reset(w);
      assert longer[r] == Reset(w);
    }
  }

  lemma ResetsKept(log: seq<Event>, e: Event, c: int, count: nat)
    requires Linked(log, c) && AllReset(log, c, count)
    ensures AllReset(log + [e], c, if e == Reset(count) then count + 1 else count)
  {
    var longer := log + [e];
    ResetsStay(log, longer, c, count);
    assert longer[|log|] == e;
  }

  lemma StartedByRound(log: seq<Event>, c: int, e: Event, workers: nat)
    requires Linked(log, c) && e.RoundEnded? && AllReset(log, c, workers)
    ensures Linked(log + [e], c)
    ensures e.countOk == workers && (forall w: nat :: w < workers ==> FlagUp(log, w)) ==> Started(log + [e], c, |log|, workers)
  {
    LinkedAppend(log, c, e);
    var longer := log + [e];
    assert longer[..|log|] == log;
    forall w: nat | w < workers
      ensures ResetBetween(longer, c, |log|, w)
    {
      assert ResetBetween(log, c, |log|, w);
      var r :| c < r < |log| && log[r] == Reset(w);
      assert longer[r] == Reset(w);
    }
  }

  lemma RunningAppend(log: seq<Event>, c: int, workers: nat, e: Event)
    requires Running(log, c, workers) && (e.Check? || e.Slept? || e.Polled?) && !IsConnectionFault(e)
    ensures Running(log + [e], c, workers)
  {
    var k :| Started(log, c, k, workers);
    LinkedAppend(log, c, e);
    var longer := log + [e];
    assert longer[..|log|] == log;
    forall w: nat | w < workers
      ensures ResetBetween(longer, c, k, w)
    {
      assert ResetBetween(log, c, k, w);
      var r :| c < r < k && log[r] == Reset(w);
      assert longer[r] == Reset(w);
    }
    assert Started(longer, c, k, workers);
  }

  lemma ReleasedAppend(log: seq<Event>, e: Event)
    requires FaultsReleased(log, |log|) && !IsConnectionFault(e)
    ensures FaultsReleased(log + [e], |log| + 1)
  {
    var longer := log + [e];
    forall a | 0 <= a < |longer| && IsConnectionFault(longer[a])
      ensures ReleasedBetween(longer, a, |longer|)
    {
      assert log[a] == longer[a];
      assert ReleasedBetween(log, a, |log|);
      var r :| a < r < |log| && log[r] == Released;
      assert longer[r] == Released;
    }
  }

  /** What is known of the connection made at position c survives. */
  ghost predicate Kept(log: seq<Event>, longer: seq<Event>, c: int, workers: nat) {
    && (FaultsReleased(log, |log|) ==> FaultsReleased(longer, |longer|))
    && (Linked(log, c) ==> Linked(longer, c))
    && (Linked(log, c) && AllReset(log, c, workers) ==> AllReset(longer, c, workers))
  }

  /** A poll, a wait or a failed connect tells nothing about the connection. */
  lemma QuietAppend(log: seq<Event>, e: Event, c: int, workers: nat)
    requires e.Polled? || e.Waited? || e.ConnectFailed?
    ensures Kept(log, log + [e], c, workers)
    ensures e.Polled? && Running(log, c, workers) ==> Running(log + [e], c, workers)
  {
    if FaultsReleased(log, |log|) {
      ReleasedAppend(log, e);
    }
    if Linked(log, c) {
      LinkedAppend(log, c, e);
      if AllReset(log, c, workers) {
        ResetsKept(log, e, c, workers);
      }
    }
    if e.Polled? && Running(log, c, workers) {
      RunningAppend(log, c, workers, e);
    }
  }

  lemma RoundStarts(log: seq<Event>, workers: nat, number: nat)
    requires PhaseOf(log, workers) == InRound(number, 0, 0)
    ensures RoundAt(log, workers, number, 0, 0)
  {
    hide PhaseOf;
  }

  /** One more worker of a round: its flag was up, or it was re-initialised. */
  lemma RoundAtNext(log: seq<Event>, workers: nat, number: nat, i: nat, countOk: nat, reply: ReinitReply)
    requires RoundAt(log, workers, number, i, countOk) && i < workers
    ensures FlagUp(log, i) ==> RoundAt(log, workers, number, i + 1, countOk + 1)
    ensures var e := Reinit(i, reply);
            if reply.ReinitRaised? && reply.fault != StandardFault then PhaseOf(log + [e], workers).Ending?
            else RoundAt(log + [e], workers, number, i + 1, countOk + if reply == ReinitReturned(true) then 1 else 0)
  {
    var e := Reinit(i, reply);
    assert (log + [e])[..|log|] == log;
  }

  class Server {
    const workers: seq<ServerWorker>
    var connected: bool
    var stopped: bool
    ghost var log: seq<Event>
    ghost var linkAt: int
    ghost const polls: nat

    ghost function Intervals(): (d: seq<nat>)
      reads this
      ensures |d| == |workers|
    {
      seq(|workers|, i requires 0 <= i < |workers| => workers[i].triggerInterval)
    }

    /** The log obeys the protocol, and the workers' fields are what the log says. */
    ghost predicate Valid()
      reads this, workers
    {
      && (forall i, j :: 0 <= i < j < |workers| ==> workers[i] != workers[j])
      && Protocol(log, Intervals())
      && forall i :: 0 <= i < |workers| ==>
           && workers[i].isWorkLoopInitOk == FlagUp(log, i)
           && workers[i].nextTimepointToTrigger == NextDue(log, i, workers[i].triggerInterval)
    }

    /** Every poll is in the log, and a poll that said no is the last word. */
    ghost predicate Tally(world: World)
      reads this, world`pollsLeft
    {
      CountYes(log) + world.pollsLeft == polls && (SaysStop(log) ==> world.pollsLeft == 0)
    }

    ghost function Now(): Phase
      reads this
    {
      PhaseOf(log, |workers|)
    }

    constructor (workers: seq<ServerWorker>, world: World)
      requires forall i, j :: 0 <= i < j < |workers| ==> workers[i] != workers[j]
      requires forall w :: w in workers ==> !w.isWorkLoopInitOk && w.nextTimepointToTrigger == 0
      ensures this.workers == workers && Valid() && !connected && log == []
      ensures Tally(world) && polls == world.pollsLeft
    {
      this.workers := workers;
      connected := false;
      stopped := false;
      log := [];
      linkAt := 0;
      polls := world.pollsLeft;
    }

    /** Asks whether to go on. */
    method Poll(world: World) returns (yes: bool)
      requires Valid() && Tally(world) && MayPoll(Now())
      modifies this`log, world`pollsLeft
      ensures Valid() && Tally(world) && log == old(log) + [Polled(yes)]
      ensures yes == (0 < old(world.pollsLeft)) && world.pollsLeft == if yes then old(world.pollsLeft) - 1 else 0
      ensures Now() == AfterPoll(old(Now()), yes, |workers|)
      ensures Kept(old(log), log, linkAt, |workers|)
      ensures Running(old(log), linkAt, |workers|) ==> Running(log, linkAt, |workers|)
      ensures CountRounds(log) == CountRounds(old(log))
    {
      hide Protocol, Kept, Running, PhaseOf;
      yes := world.ShouldContinueRunning();
      ghost var e := Polled(yes);
      ProtocolAppend(log, e, Intervals());
      QuietAppend(log, e, linkAt, |workers|);
      log := log + [e];
    }

    /** Waits roughly the given time, unless it is asked to stop. */
    method RoughSleepWait(world: World, maxSleepMs: nat)
      requires Valid() && Tally(world) && MayWait(Now(), maxSleepMs)
      modifies this`log, world
      ensures Valid() && Tally(world) && |log| == |old(log)| + 1 && old(log) <= log
      ensures log[|old(log)|].Waited? && log[|old(log)|].ms == maxSleepMs
      ensures Now() == AfterWait(old(Now())) && Kept(old(log), log, linkAt, |workers|)
      ensures CountRounds(log) == CountRounds(old(log))
      ensures world.pollsLeft == 0 || old(world.time) + maxSleepMs * TICKS_PER_MS <= world.time
      ensures world.pollsLeft <= old(world.pollsLeft) && old(world.time) <= world.time
    {
      hide Protocol, Kept, PhaseOf;
      var tpNow := world.Now();
      var maxSleepTimepoint := tpNow + maxSleepMs * TICKS_PER_MS;
      ghost var yesses := 0;
      var go := world.ShouldContinueRunning();
      if go {
        yesses := 1;
      }
      while go && tpNow < maxSleepTimepoint
        invariant Valid() && log == old(log)
        invariant yesses + world.pollsLeft == old(world.pollsLeft) && (!go ==> world.pollsLeft == 0)
        invariant old(world.time) <= tpNow == world.time
        decreases world.pollsLeft, go
      {
        tpNow := world.Now();
        go := world.ShouldContinueRunning();
        if go {
          yesses := yesses + 1;
        }
      }
      ghost var e := Waited(maxSleepMs, yesses);
      ProtocolAppend(log, e, Intervals());
      QuietAppend(log, e, linkAt, |workers|);
      log := log + [e];
    }

    /** Lowers one flag, unless the reset raises. */
    method ResetWorker(world: World, i: nat) returns (fault: Option<Fault>)
      requires Valid() && Tally(world) && Linked(log, linkAt) && i < |workers| && Now() == Resetting(i)
      modifies this`log, workers[i], world
      ensures Valid() && Tally(world)
      ensures fault == world.resets(old(world.used))
      ensures log == old(log) + [if fault.Some? then ResetFailed(i, fault.value) else Reset(i)]
      ensures Now() == if fault == None then ResettingFrom(i + 1, |workers|) else Ending
      ensures fault == None ==> Linked(log, linkAt)
      ensures CountRounds(log) == CountRounds(old(log)) && world.pollsLeft == old(world.pollsLeft)
    {
      hide Protocol, Linked, PhaseOf;
      fault := workers[i].ResetOnWorkLoopBegin(world);
      ghost var e := if fault.Some? then ResetFailed(i, fault.value) else Reset(i);
      assert OnLink(log);
      ProtocolAppend(log, e, Intervals());
      if fault == None {
        LinkedAppend(log, linkAt, e);
      }
      log := log + [e];
    }

    /** Lowers all flags; any exception ends the work loop before it began. */
    method ResetWorkers(world: World) returns (progress: Progress)
      requires Valid() && Tally(world) && Linked(log, linkAt) && Now() == ResettingFrom(0, |workers|)
      modifies this`log, workers, world
      ensures Valid() && Tally(world) && old(log) <= log
      ensures progress == Succeeded ==> Linked(log, linkAt) && AllReset(log, linkAt, |workers|) && Now() == RoundDue(1)
      ensures progress != Succeeded ==> StartFailed(log, |workers|) && Now() == Ending
      ensures CountRounds(log) == CountRounds(old(log)) && world.pollsLeft == old(world.pollsLeft)
    {
      assert AllReset(log, linkAt, 0);
      hide Valid, Tally, Now, Protocol, Linked, AllReset, CountRounds;
      var i := 0;
      while i < |workers|
        invariant 0 <= i <= |workers| && Now() == ResettingFrom(i, |workers|)
        invariant Valid() && Tally(world) && Linked(log, linkAt) && old(log) <= log
        invariant AllReset(log, linkAt, i)
        invariant CountRounds(log) == CountRounds(old(log)) && world.pollsLeft == old(world.pollsLeft)
      {
        ghost var before := log;
        var fault := ResetWorker(world, i);
        if fault.Some? {
          return if fault.value == UnknownFault then Escaped else GaveUp;
        }
        ResetsKept(before, Reset(i), linkAt, i);
        i := i + 1;
      }
      return Succeeded;
    }

    /** One worker in a round: counted if its flag is up already or its re-initialisation returned true. */
    method ReinitIfDown(world: World, i: nat, ghost number: nat, ghost countOk: nat) returns (progress: Progress, well: bool)
      requires Valid() && Tally(world) && Linked(log, linkAt) && i < |workers|
      requires RoundAt(log, |workers|, number, i, countOk)
      modifies this`log, workers, world
      ensures Valid() && Tally(world) && old(log) <= log && progress != GaveUp
      ensures progress == Succeeded ==> Linked(log, linkAt)
      ensures progress == Succeeded ==> RoundAt(log, |workers|, number, i + 1, countOk + if well then 1 else 0)
      ensures progress == Escaped ==> StartFailed(log, |workers|) && Now() == Ending
      ensures FlagUp(old(log), i) ==> progress == Succeeded && well && log == old(log)
      ensures !FlagUp(old(log), i) ==>
                var reply := world.reinits(old(world.used));
                && log == old(log) + [Reinit(i, reply)]
                && (well <==> reply == ReinitReturned(true))
                && (progress == Escaped <==> reply.ReinitRaised? && reply.fault != StandardFault)
      ensures well ==> FlagUp(log, i)
      ensures forall w: nat :: w != i ==> FlagUp(log, w) == FlagUp(old(log), w)
      ensures CountReturnedTrue(log) == CountReturnedTrue(old(log)) + if well && !FlagUp(old(log), i) then 1 else 0
      ensures CountRounds(log) == CountRounds(old(log)) && world.pollsLeft == old(world.pollsLeft)
    {
      hide Protocol, Linked, RoundAt, PhaseOf;
      if workers[i].isWorkLoopInitOk {
        RoundAtNext(log, |workers|, number, i, countOk, ReinitReturned(true));
        return Succeeded, true;
      }
      var reply := workers[i].ReinitWorkLoop(world);
      ghost var e := Reinit(i, reply);
      RoundAtNext(log, |workers|, number, i, countOk, reply);
      assert OnLink(log);
      ProtocolAppend(log, e, Intervals());
      if !IsConnectionFault(e) {
        LinkedAppend(log, linkAt, e);
      }
      log := log + [e];
      match reply {
        case ReinitReturned(flagUp) =>
          return Succeeded, flagUp;
        case ReinitRaised(fault, _) =>
          return if fault == StandardFault then Succeeded else Escaped, false;
      }
    }

    /** The workers of a round in order, with the count so far. */
    method ReinitEach(world: World, ghost number: nat) returns (progress: Progress, cntOk: nat)
      requires Valid() && Tally(world) && Linked(log, linkAt) && RoundAt(log, |workers|, number, 0, 0)
      modifies this`log, workers, world
      ensures Valid() && Tally(world) && old(log) <= log && progress != GaveUp
      ensures progress == Succeeded ==> Linked(log, linkAt) && RoundAt(log, |workers|, number, |workers|, cntOk)
      ensures progress == Succeeded ==>
                cntOk == CountUp(old(log), |workers|) + CountReturnedTrue(log) - CountReturnedTrue(old(log))
      ensures progress == Succeeded && cntOk == |workers| ==> forall w: nat :: w < |workers| ==> FlagUp(log, w)
      ensures progress == Escaped ==> StartFailed(log, |workers|) && Now() == Ending
      ensures CountRounds(log) == CountRounds(old(log)) && world.pollsLeft == old(world.pollsLeft)
    {
      hide Valid, Tally, Now, Protocol, Linked, RoundAt, FlagUp, CountReturnedTrue, CountRounds, StartFailed;
      cntOk := 0;
      var i := 0;
      while i < |workers|
        invariant 0 <= i <= |workers| && cntOk <= i
        invariant Valid() && Tally(world) && Linked(log, linkAt) && old(log) <= log
        invariant RoundAt(log, |workers|, number, i, cntOk)
        invariant cntOk == i ==> forall w: nat :: w < i ==> FlagUp(log, w)
        invariant cntOk == CountUp(old(log), i) + CountReturnedTrue(log) - CountReturnedTrue(old(log))
        invariant forall w: nat :: i <= w ==> FlagUp(log, w) == FlagUp(old(log), w)
        invariant CountRounds(log) == CountRounds(old(log)) && world.pollsLeft == old(world.pollsLeft)
      {
        var well;
        progress, well := ReinitIfDown(world, i, number, cntOk);
        if progress == Escaped {
          return;
        }
        if well {
          cntOk := cntOk + 1;
        }
        i := i + 1;
      }
      return Succeeded, cntOk;
    }

    /** One retry round: re-initialises the workers whose flag is down, and counts the ones that are well. */
    method ReinitRound(world: World, number: nat) returns (progress: Progress, cntOk: nat)
      requires Valid() && Tally(world) && Linked(log, linkAt) && 1 <= number <= MAX_ROUNDS && AllReset(log, linkAt, |workers|)
      requires Now() == InRound(number, 0, 0)
      modifies this`log, workers, world
      ensures Valid() && Tally(world) && old(log) <= log && progress != GaveUp
      ensures progress == Succeeded ==> Linked(log, linkAt) && AllReset(log, linkAt, |workers|)
      ensures progress == Succeeded ==> log != [] && log[|log| - 1] == RoundEnded(number, cntOk)
      ensures progress == Succeeded ==> Now() == After(InRound(number, 0, 0), RoundEnded(number, cntOk), |workers|)
      ensures progress == Succeeded ==>
                cntOk == CountUp(old(log), |workers|) + CountReturnedTrue(log) - CountReturnedTrue(old(log))
      ensures progress == Succeeded && cntOk == |workers| ==> Started(log, linkAt, |log| - 1, |workers|)
      ensures progress == Escaped ==> StartFailed(log, |workers|) && Now() == Ending
      ensures progress == Succeeded && number == MAX_ROUNDS && cntOk != |workers| ==> StartFailed(log, |workers|)
      ensures CountRounds(log) == CountRounds(old(log)) + if progress == Succeeded then 1 else 0
      ensures world.pollsLeft == old(world.pollsLeft)
    {
      hide Protocol, Linked, Started, AllReset, RoundAt, PhaseOf, FlagUp, CountUp, CountReturnedTrue, CountRounds, NextDue,
           CountYes, SaysStop;
      RoundStarts(log, |workers|, number);
      progress, cntOk := ReinitEach(world, number);
      if progress == Succeeded {
        ResetsStay(old(log), log, linkAt, |workers|);
        ghost var e := RoundEnded(number, cntOk);
        ProtocolAppend(log, e, Intervals());
        StartedByRound(log, linkAt, e, |workers|);
        ResetsKept(log, e, linkAt, |workers|);
        log := log + [e];
      }
    }

    /** At most three rounds, until one counts every worker. */
    method RunRounds(world: World) returns (progress: Progress)
      requires Valid() && Tally(world) && Linked(log, linkAt) && AllReset(log, linkAt, |workers|) && Now() == RoundDue(1)
      modifies this`log, workers, world
      ensures Valid() && Tally(world) && old(log) <= log
      ensures progress == Succeeded ==> Started(log, linkAt, |log| - 1, |workers|) && Now() == Looping
      ensures progress != Succeeded ==> (StartFailed(log, |workers|) || world.pollsLeft == 0) && Now() == Ending
      ensures CountRounds(log) <= CountRounds(old(log)) + MAX_ROUNDS
      ensures world.pollsLeft <= old(world.pollsLeft)
    {
      hide Running, FaultsReleased, RoundAt, StartFailed, CountRounds, Valid, Tally, Now, Protocol, Linked, Started, AllReset;
      var t := 1;
      while t <= MAX_ROUNDS
        invariant 1 <= t <= MAX_ROUNDS + 1
        invariant Valid() && Tally(world) && old(log) <= log
        invariant t <= MAX_ROUNDS ==> Linked(log, linkAt) && AllReset(log, linkAt, |workers|) && Now() == RoundDue(t)
        invariant t == MAX_ROUNDS + 1 ==> StartFailed(log, |workers|) && Now() == Ending
        invariant CountRounds(log) <= CountRounds(old(log)) + t - 1
        invariant world.pollsLeft <= old(world.pollsLeft)
      {
        var go := Poll(world);
        if !go {
          return GaveUp;
        }
        var cntOk;
        progress, cntOk := ReinitRound(world, t);
        if progress == Escaped {
          return;
        }
        if cntOk == |workers| {
          return Succeeded;
        }
        if t < MAX_ROUNDS {
          RoughSleepWait(world, ROUND_WAIT_MS);
        }
        t := t + 1;
      }
      return GaveUp;
    }

    /** All workers reset, and then up to three rounds. */
    method ReinitWorkLoop(world: World) returns (progress: Progress)
      requires Valid() && Tally(world) && Linked(log, linkAt) && Now() == ResettingFrom(0, |workers|)
      modifies this`log, workers, world
      ensures Valid() && Tally(world) && old(log) <= log
      ensures progress == Succeeded ==> Started(log, linkAt, |log| - 1, |workers|) && Now() == Looping
      ensures progress != Succeeded ==> (StartFailed(log, |workers|) || world.pollsLeft == 0) && Now() == Ending
      ensures CountRounds(log) <= CountRounds(old(log)) + MAX_ROUNDS
      ensures world.pollsLeft <= old(world.pollsLeft)
    {
      hide Valid, Tally, Now, Protocol, Linked, Started, AllReset, StartFailed;
      progress := ResetWorkers(world);
      if progress == Succeeded {
        progress := RunRounds(world);
      }
    }

    /** One worker of a pass; true if it raised a connection fault. */
    method CheckWorker(world: World, i: nat) returns (shouldReconnect: bool)
      requires Valid() && Tally(world) && Running(log, linkAt, |workers|) && i < |workers| && Now() == Checking(i)
      modifies this`log, workers[i], world
      ensures Valid() && Tally(world)
      ensures log == old(log) + [Check(i, world.time,
                                       if world.time < old(workers[i].nextTimepointToTrigger) then NotDue
                                       else if world.performs(old(world.used) + 1) == None then Performed
                                       else PerformRaised(world.performs(old(world.used) + 1).value))]
      ensures shouldReconnect == IsConnectionFault(log[|old(log)|])
      ensures Now() == if shouldReconnect then Ending else CheckingFrom(i + 1, |workers|)
      ensures !shouldReconnect ==> Running(log, linkAt, |workers|)
      ensures forall w :: 0 <= w < |workers| && w != i ==>
                workers[w].nextTimepointToTrigger == old(workers[w].nextTimepointToTrigger)
      ensures world.pollsLeft == old(world.pollsLeft) && old(world.time) <= world.time
    {
      hide Protocol, Running, PhaseOf;
      var at, outcome := workers[i].CheckToPerform(world);
      ghost var e := Check(i, at, outcome);
      assert MayCheck(log, |workers|);
      ProtocolAppend(log, e, Intervals());
      shouldReconnect := outcome == PerformRaised(ConnectionFault);
      if !shouldReconnect {
        RunningAppend(log, linkAt, |workers|, e);
      }
      log := log + [e];
    }

    /** The checks of a pass, with the earliest trigger time, at most 100 ms after the start of the pass. */
    method CheckAll(world: World, passStart: int)
      returns (shouldReconnect: bool, minNextTriggerTimepoint: int, ghost nexts: seq<int>)
      requires Valid() && Tally(world) && Running(log, linkAt, |workers|) && passStart <= world.time
      requires Now() == CheckingFrom(0, |workers|)
      modifies this`log, workers, world
      ensures Valid() && Tally(world) && old(log) <= log && passStart <= world.time
      ensures Now() == if shouldReconnect then Ending else PassDone
      ensures !shouldReconnect ==> Running(log, linkAt, |workers|)
      ensures !shouldReconnect ==> CheckedInOrder(log, |old(log)|, |workers|) && |log| == |old(log)| + |workers|
      ensures shouldReconnect ==> CheckedUntilFault(log, |old(log)|, |workers|)
      ensures !shouldReconnect ==>
                && |nexts| == |workers| && (forall w :: 0 <= w < |workers| ==> nexts[w] == workers[w].nextTimepointToTrigger)
                && IsLeast(minNextTriggerTimepoint, passStart + MAX_SLEEP_MS * TICKS_PER_MS, nexts)
      ensures world.pollsLeft == old(world.pollsLeft)
    {
      hide Valid, Tally, Now, Protocol, Running;
      minNextTriggerTimepoint := passStart + MAX_SLEEP_MS * TICKS_PER_MS;
      nexts := [];
      var i := 0;
      while i < |workers|
        invariant 0 <= i <= |workers| && Now() == CheckingFrom(i, |workers|)
        invariant Valid() && Tally(world) && Running(log, linkAt, |workers|)
        invariant |log| == |old(log)| + i && old(log) <= log && CheckedInOrder(log, |old(log)|, i)
        invariant |nexts| == i && forall w :: 0 <= w < i ==> nexts[w] == workers[w].nextTimepointToTrigger
        invariant IsLeast(minNextTriggerTimepoint, passStart + MAX_SLEEP_MS * TICKS_PER_MS, nexts) && passStart <= world.time
        invariant world.pollsLeft == old(world.pollsLeft)
      {
        shouldReconnect := CheckWorker(world, i);
        if shouldReconnect {
          return;
        }
        LeastOfOneMore(minNextTriggerTimepoint, passStart + MAX_SLEEP_MS * TICKS_PER_MS, nexts, workers[i].nextTimepointToTrigger);
        if workers[i].nextTimepointToTrigger < minNextTriggerTimepoint {
          minNextTriggerTimepoint := workers[i].nextTimepointToTrigger;
        }
        nexts := nexts + [workers[i].nextTimepointToTrigger];
        i := i + 1;
      }
      return false, minNextTriggerTimepoint, nexts;
    }

    /** Sleeps for the whole milliseconds left until the given time, if any. */
    method SleepUntil(world: World, minNextTriggerTimepoint: int, ghost passStart: int)
      requires Valid() && Tally(world) && Running(log, linkAt, |workers|) && Now() == PassDone
      requires minNextTriggerTimepoint <= passStart + MAX_SLEEP_MS * TICKS_PER_MS && passStart <= world.time
      requires forall w: nat :: w < |workers| ==> minNextTriggerTimepoint <= workers[w].nextTimepointToTrigger
      modifies this`log, world
      ensures Valid() && Tally(world) && Running(log, linkAt, |workers|) && (Now() == PassDone || Now() == Looping)
      ensures log == if minNextTriggerTimepoint < world.time then old(log)
                     else old(log) + [Slept(world.time, (minNextTriggerTimepoint - world.time) / TICKS_PER_MS)]
      ensures world.pollsLeft == old(world.pollsLeft) && old(world.time) <= world.time
    {
      hide Protocol, Running, PhaseOf;
      var tpNow := world.Now();
      if tpNow <= minNextTriggerTimepoint {
        var durSleep := (minNextTriggerTimepoint - tpNow) / TICKS_PER_MS;
        ghost var e := Slept(tpNow, durSleep);
        assert EventOk(log, e, Intervals());
        ProtocolAppend(log, e, Intervals());
        RunningAppend(log, linkAt, |workers|, e);
        log := log + [e];
      }
    }

    /** The least of the trigger times of all workers and the cap. */
    ghost predicate IsNextTime(min: int, cap: int)
      reads this, workers
    {
      && min <= cap && (forall w :: 0 <= w < |workers| ==> min <= workers[w].nextTimepointToTrigger)
      && (min == cap || exists w :: 0 <= w < |workers| && min == workers[w].nextTimepointToTrigger)
    }

    /**
      One pass of the scheduling loop. It checks the workers in order, each once, up to the first connection
      fault; after a full pass it sleeps for the whole milliseconds left until the earliest trigger time, or until
      100 ms after the start of the pass.
     */
    method Pass(world: World) returns (shouldReconnect: bool, ghost next: int)
      requires Valid() && Tally(world) && Running(log, linkAt, |workers|) && Now() == CheckingFrom(0, |workers|)
      modifies this`log, workers, world
      ensures Valid() && Tally(world) && old(log) <= log
      ensures if shouldReconnect then Now() == Ending else Now() == PassDone || Now() == Looping
      ensures !shouldReconnect ==> Running(log, linkAt, |workers|)
      ensures !shouldReconnect ==> ChecksEachOnce(log, |old(log)|, |workers|)
      ensures !shouldReconnect ==>
                && IsNextTime(next, old(world.time) + world.clockSteps(old(world.used)) + MAX_SLEEP_MS * TICKS_PER_MS)
                && if next < world.time then |log| == |old(log)| + |workers|
                   else log[|log| - 1] == Slept(world.time, (next - world.time) / TICKS_PER_MS)
      ensures shouldReconnect ==> CheckedUntilFault(log, |old(log)|, |workers|)
      ensures world.pollsLeft == old(world.pollsLeft)
    {
      hide Valid, Tally, Now, Protocol, Started;
      var passStart := world.Now();
      var minNextTriggerTimepoint;
      ghost var nexts;
      shouldReconnect, minNextTriggerTimepoint, nexts := CheckAll(world, passStart);
      if !shouldReconnect {
        SleepUntil(world, minNextTriggerTimepoint, passStart);
      }
      next := minNextTriggerTimepoint;
    }

    /** The work loop on one connection; it ends on a stop request, a failed start or a connection fault. */
    method LoopWork(world: World)
      requires Valid() && Tally(world) && Linked(log, linkAt) && Now() == ResettingFrom(0, |workers|)
      modifies this`log, workers, world
      ensures Valid() && Tally(world) && old(log) <= log && Now() == Ending
      ensures world.pollsLeft == 0 || StartFailed(log, |workers|) || (log != [] && IsConnectionFault(log[|log| - 1]))
      ensures world.pollsLeft <= old(world.pollsLeft)
    {
      hide StartFailed, IsConnectionFault, Valid, Tally, Now, Protocol, Linked, Started, Kept, IsNextTime, ChecksEachOnce, CountRounds;
      var progress := ReinitWorkLoop(world);
      if progress != Succeeded {
        return;
      }
      assert Running(log, linkAt, |workers|);
      var go := Poll(world);
      while go
        invariant Valid() && Tally(world) && old(log) <= log && Running(log, linkAt, |workers|)
        invariant Now() == if go then CheckingFrom(0, |workers|) else Ending
        invariant !go ==> world.pollsLeft == 0
        invariant world.pollsLeft <= old(world.pollsLeft)
        decreases world.pollsLeft, go
      {
        var shouldReconnect, _ := Pass(world);
        if shouldReconnect {
          return;
        }
        go := Poll(world);
      }
    }

    /** One try to connect. */
    method Dial(world: World) returns (ok: bool)
      requires Valid() && Tally(world) && !connected && FaultsReleased(log, |log|) && Now() == Dialling
      modifies this`log, this`connected, this`linkAt, world`used
      ensures Valid() && Tally(world) && ok == connected == world.connects(old(world.used))
      ensures log == old(log) + [if ok then Connected else ConnectFailed]
      ensures if ok then Linked(log, linkAt) && Now() == ResettingFrom(0, |workers|)
              else FaultsReleased(log, |log|) && Now() == DialFailed
      ensures world.pollsLeft == old(world.pollsLeft)
    {
      hide Protocol, Linked, FaultsReleased, PhaseOf;
      ok := world.Connect();
      ghost var e := if ok then Connected else ConnectFailed;
      ProtocolAppend(log, e, Intervals());
      if ok {
        LinkedByConnect(log);
        connected := true;
        linkAt := |log|;
      } else {
        ReleasedAppend(log, e);
      }
      log := log + [e];
    }

    /** Tries to connect, with a wait after each failure, until it succeeds or is asked to stop. */
    method LoopTryConnect(world: World, reconnWaitMs: nat)
      requires Valid() && Tally(world) && !connected && FaultsReleased(log, |log|) && Now() == Trying
      modifies this`log, this`connected, this`linkAt, world
      ensures Valid() && Tally(world) && old(log) <= log
      ensures if connected then Linked(log, linkAt) && Now() == ResettingFrom(0, |workers|)
              else FaultsReleased(log, |log|) && world.pollsLeft == 0 && Now() == Top
      ensures connected ==> log[|log| - 1] == Connected
      ensures forall a :: |old(log)| <= a < |log| && log[a].Waited? ==> log[a].ms == reconnWaitMs
      ensures world.pollsLeft <= old(world.pollsLeft)
    {
      hide Valid, Tally, Now, Protocol, Linked, FaultsReleased, AllReset, Running;
      var go := Poll(world);
      while go
        invariant Valid() && Tally(world) && old(log) <= log && !connected && FaultsReleased(log, |log|)
        invariant Now() == if go then Dialling else Top
        invariant forall a :: |old(log)| <= a < |log| && log[a].Waited? ==> log[a].ms == reconnWaitMs
        invariant !go ==> world.pollsLeft == 0
        invariant world.pollsLeft <= old(world.pollsLeft)
        decreases world.pollsLeft, go
      {
        var ok := Dial(world);
        if ok {
          return;
        }
        RoughSleepWait(world, reconnWaitMs);
        go := Poll(world);
      }
    }

    method ReleasePlatform(ghost world: World)
      requires Valid() && Tally(world) && Now() == Ending
      modifies this`log, this`connected
      ensures Valid() && Tally(world) && !connected && FaultsReleased(log, |log|) && log == old(log) + [Released] && Now() == Left
    {
      hide Protocol, PhaseOf;
      connected := false;
      ProtocolAppend(log, Released, Intervals());
      assert (log + [Released])[|log|] == Released;
      log := log + [Released];
    }

    /** Work on one connection, the release, and the wait before the next try. */
    method WorkAndRelease(world: World)
      requires Valid() && Tally(world) && Linked(log, linkAt) && Now() == ResettingFrom(0, |workers|)
      modifies this`log, this`connected, workers, world
      ensures Valid() && Tally(world) && old(log) <= log && !connected && FaultsReleased(log, |log|) && Now() == Top
      ensures world.pollsLeft <= old(world.pollsLeft)
    {
      hide Valid, Tally, Now, Protocol, Linked, FaultsReleased, StartFailed, IsConnectionFault, Running, AllReset;
      LoopWork(world);
      ReleasePlatform(world);
      var again := Poll(world);
      if again {
        RoughSleepWait(world, REST_MS);
      }
    }

    /**
      The whole thread, until it is asked to stop. Its log obeys the protocol to the end, and has every poll that
      said yes.
     */
    method WorkThread(world: World, reconnWaitMs: nat)
      requires Valid() && Tally(world) && !connected && FaultsReleased(log, |log|) && Now() == Top
      modifies this`log, this`connected, this`linkAt, this`stopped, workers, world
      ensures Valid() && Protocol(log, Intervals()) && old(log) <= log
      ensures stopped && world.pollsLeft == 0
      ensures CountYes(log) == polls && Now() == Stopped && log != [] && log[|log| - 1] == Polled(false)
    {
      hide Protocol, Linked, FaultsReleased, PhaseOf, CountYes;
      var go := Poll(world);
      while go
        invariant Valid() && Tally(world) && old(log) <= log && !connected && FaultsReleased(log, |log|)
        invariant Now() == (if go then Trying else Stopped) && log != [] && log[|log| - 1] == Polled(go)
        invariant !go ==> world.pollsLeft == 0
        invariant world.pollsLeft <= old(world.pollsLeft)
        decreases world.pollsLeft, go
      {
        LoopTryConnect(world, reconnWaitMs);
        if connected {
          WorkAndRelease(world);
        }
        go := Poll(world);
      }
      stopped := true;
    }
  }
}
