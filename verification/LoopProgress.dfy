/** What the work thread gets done: which event follows which in its log, stated on the events alone. */
module LoopProgress {
  import opened LoopLog

  predicate IsResetOf(e: Event, worker: nat) {
    e == Reset(worker) || (e.ResetFailed? && e.worker == worker)
  }

  predicate IsCheckOf(e: Event, worker: nat) {
    e.Check? && e.worker == worker
  }

  /** An exception that ends the attempt to start. */
  predicate EndsStart(e: Event) {
    e.ResetFailed? || (e.Reinit? && e.reply.ReinitRaised? && e.reply.fault != StandardFault)
  }

  /** Every event except a poll, a wait and a re-initialisation that does not end the start: what comes next. */
  predicate Follows(e: Event, next: Event, workers: nat) {
    match e
    case ConnectFailed => next.Waited?
    case Connected => if 0 < workers then IsResetOf(next, 0) else next.Polled?
    case Reset(w) => if w + 1 < workers then IsResetOf(next, w + 1) else next.Polled?
    case RoundEnded(number, countOk) =>
      if countOk == workers then next.Polled?
      else if number < 3 then next.Waited? && next.ms == 2000
      else next == Released
    case Check(w, _, outcome) =>
      if outcome == PerformRaised(ConnectionFault) then next == Released
      else if w + 1 < workers then IsCheckOf(next, w + 1)
      else next.Polled? || next.Slept?
    case Slept(_, _) => next.Polled?
    case Released => next.Polled?
    case _ => EndsStart(e) ==> next == Released
  }

  lemma PhaseAfter(log: seq<Event>, i: nat, workers: nat)
    requires i < |log|
    ensures PhaseOf(log[..i + 1], workers) == After(PhaseOf(log[..i], workers), log[i], workers)
    ensures i == 0 ==> PhaseOf(log[..i], workers) == Top
  {
    assert log[..i + 1][..i] == log[..i];
  }

  predicate IsDial(e: Event) {
    e == Connected || e == ConnectFailed
  }

  /** A step of round `number`: a re-initialisation, or its end. */
  predicate IsOfRound(e: Event, number: nat) {
    e.Reinit? || (e.RoundEnded? && e.number == number)
  }

  /** The last event of a start that succeeded, or of a full pass. */
  predicate EndsPass(e: Event, workers: nat) {
    match e
    case RoundEnded(_, countOk) => countOk == workers
    case Check(w, _, outcome) => w + 1 == workers && outcome != PerformRaised(ConnectionFault)
    case Slept(_, _) => true
    case _ => false
  }

  /** With a worker at least: what a poll that says yes is followed by, from the one or two events before it. */
  predicate YesLeads(log: seq<Event>, i: nat, workers: nat)
    requires 0 < i && i + 1 < |log|
  {
    var next := log[i + 1];
    match log[i - 1]
    case Polled(_) => IsDial(next)
    case Reset(_) => IsOfRound(next, 1)
    case Released => next.Waited? && next.ms == 3000
    case Waited(_, _) =>
      if i == 1 then false
      else
        (match log[i - 2]
         case ConnectFailed => IsDial(next)
         case RoundEnded(number, _) => IsOfRound(next, number + 1)
         case _ => next.Polled?)
    case e => EndsPass(e, workers) && IsCheckOf(next, 0)
  }

  /** A poll that said no is the last word. */
  lemma NoYesAfterNo(log: seq<Event>, intervals: seq<nat>, a: nat, b: nat)
    requires Protocol(log, intervals) && a < b < |log| && log[a] == Polled(false)
    ensures log[b] != Polled(true) && (log[b].Waited? ==> log[b].polls == 0)
  {
    ProtocolAt(log, intervals, b);
    assert log[..b][a] == Polled(false);
  }

  /** One step of a log: the phase before the event allows it, and the phase after it. */
  ghost predicate IsStep(log: seq<Event>, i: nat, workers: nat)
    requires i < |log|
  {
    && (log[i].Check? || log[i].Reset? || log[i].ResetFailed? || log[i].Reinit? ==> log[i].worker < workers)
    && PhaseOf(log[..i + 1], workers) == After(PhaseOf(log[..i], workers), log[i], workers)
    && (i == 0 ==> PhaseOf(log[..i], workers) == Top)
    && match PhaseOf(log[..i], workers)
       case Dialling => IsDial(log[i])
       case DialFailed => log[i].Waited?
       case Resetting(w) => IsResetOf(log[i], w)
       case InRound(number, _, _) => IsOfRound(log[i], number)
       case RoundFailed(_) => log[i].Waited? && log[i].ms == 2000
       case Checking(w) => IsCheckOf(log[i], w)
       case PassDone => log[i].Polled? || log[i].Slept?
       case Ending => log[i] == Released
       case Resting => log[i].Waited? && log[i].ms == 3000
       case Stopped => false
       case _ => log[i].Polled?
  }

  lemma PhaseStep(log: seq<Event>, intervals: seq<nat>, i: nat)
    requires Protocol(log, intervals) && i < |log|
    ensures IsStep(log, i, |intervals|)
  {
    hide Protocol, PhaseOf, FlagUp, MayCheck, OnLink, NextDue, SaysStop;
    ProtocolAt(log, intervals, i);
    PhaseAfter(log, i, |intervals|);
  }

  /** What comes after each event of a log that obeys the protocol. */
  lemma {:induction false} NextEvent(log: seq<Event>, intervals: seq<nat>, i: nat)
    requires Protocol(log, intervals) && i + 1 < |log|
    ensures Follows(log[i], log[i + 1], |intervals|)
  {
    hide Protocol, PhaseOf;
    PhaseStep(log, intervals, i);
    PhaseStep(log, intervals, i + 1);
  }

  lemma YesAfterWait(log: seq<Event>, intervals: seq<nat>, i: nat)
    requires Protocol(log, intervals) && 0 < |intervals| && 0 < i && i + 1 < |log| && log[i] == Polled(true)
    requires log[i - 1].Waited?
    ensures YesLeads(log, i, |intervals|)
  {
    hide Protocol, PhaseOf, Allowed;
    PhaseStep(log, intervals, i - 1);
    if 2 <= i {
      PhaseStep(log, intervals, i - 2);
    }
    PhaseStep(log, intervals, i);
    PhaseStep(log, intervals, i + 1);
  }

  /** What each poll that says yes is followed by. */
  lemma YesIsFollowed(log: seq<Event>, intervals: seq<nat>, i: nat)
    requires Protocol(log, intervals) && 0 < |intervals| && 0 < i && i + 1 < |log| && log[i] == Polled(true)
    ensures YesLeads(log, i, |intervals|)
  {
    hide Protocol, PhaseOf, Allowed;
    if log[i - 1].Waited? {
      YesAfterWait(log, intervals, i);
    } else {
      PhaseStep(log, intervals, i - 1);
      PhaseStep(log, intervals, i);
      PhaseStep(log, intervals, i + 1);
      if log[i - 1] == Polled(false) {
        NoYesAfterNo(log, intervals, i - 1, i);
      }
    }
  }

  /** The log of a thread that was stopped: its last event is a poll that said no. */
  predicate IsFinished(log: seq<Event>) {
    log != [] && log[|log| - 1] == Polled(false)
  }

  /** A pass from position `from` to `end`: full, and then a poll, or cut by a connection fault, and then the release. */
  ghost predicate IsPass(log: seq<Event>, from: nat, end: nat, workers: nat) {
    && from < end < |log|
    && ((ChecksEachOnce(log[..end], from, workers) && log[end].Polled?)
        || (CheckedUntilFault(log[..end], from, workers) && log[end] == Released))
  }

  /** Once the first checks of a pass are made, the pass is completed. */
  lemma ChecksGoOn(log: seq<Event>, intervals: seq<nat>, from: nat, w: nat) returns (end: nat)
    requires Protocol(log, intervals) && IsFinished(log) && w < |intervals| && CheckedInOrder(log, from, w + 1)
    ensures IsPass(log, from, end, |intervals|)
    decreases |intervals| - w
  {
    hide Protocol;
    var last := from + w;
    assert IsCheckOf(log[last], w) && last + 1 < |log|;
    NextEvent(log, intervals, last);
    end := last + 1;
    if !IsConnectionFault(log[last]) {
      if w + 1 < |intervals| {
        end := ChecksGoOn(log, intervals, from, w + 1);
      } else if log[end].Slept? {
        NextEvent(log, intervals, end);
        end := end + 1;
      }
    }
  }

  /** Every poll of the scheduling loop that says yes is followed by one pass. */
  lemma YesIsAPass(log: seq<Event>, intervals: seq<nat>, i: nat) returns (end: nat)
    requires Protocol(log, intervals) && IsFinished(log) && 0 < |intervals|
    requires 0 < i < |log| && log[i] == Polled(true) && EndsPass(log[i - 1], |intervals|)
    ensures IsPass(log, i + 1, end, |intervals|)
  {
    YesIsFollowed(log, intervals, i);
    hide Protocol;
    assert IsCheckOf(log[i + 1], 0);
    end := ChecksGoOn(log, intervals, i + 1, 0);
  }

  lemma {:induction false} NoMoreYes(log: seq<Event>, intervals: seq<nat>, a: nat)
    requires Protocol(log, intervals) && a < |log| && log[a] == Polled(false)
    ensures CountYes(log) == CountYes(log[..a + 1])
  {
    if a + 1 == |log| {
      assert log[..a + 1] == log;
    } else {
      var init := log[..|log| - 1];
      NoYesAfterNo(log, intervals, a, |log| - 1);
      NoMoreYes(init, intervals, a);
      assert init[..a + 1] == log[..a + 1];
    }
  }

  lemma {:induction false} YesNeverLost(log: seq<Event>, j: nat)
    requires j <= |log|
    ensures CountYes(log[..j]) <= CountYes(log)
  {
    if j == |log| {
      assert log[..j] == log;
    } else {
      YesNeverLost(log[..|log| - 1], j);
      assert log[..|log| - 1][..j] == log[..j];
    }
  }

  /**
    After a start that succeeded with polls left that say yes, the next pass begins at once. In a finished log, `polls`
    counts all polls that said yes.
   */
  lemma StartLeadsToPass(log: seq<Event>, intervals: seq<nat>, k: nat) returns (end: nat)
    requires Protocol(log, intervals) && IsFinished(log) && 0 < |intervals|
    requires k < |log| && log[k].RoundEnded? && log[k].countOk == |intervals|
    ensures k + 1 < |log| && log[k + 1] == Polled(CountYes(log[..k + 1]) < CountYes(log))
    ensures log[k + 1] == Polled(true) ==> IsPass(log, k + 2, end, |intervals|)
  {
    NextEvent(log, intervals, k);
    assert log[..k + 2][..k + 1] == log[..k + 1];
    if log[k + 1] == Polled(false) {
      NoMoreYes(log, intervals, k + 1);
      end := 0;
    } else {
      YesNeverLost(log, k + 2);
      end := YesIsAPass(log, intervals, k + 1);
    }
  }

  /** No sleep is longer than 100 ms, nor reaches past the next trigger time of any worker. */
  lemma SleepIsShort(log: seq<Event>, intervals: seq<nat>, i: nat)
    requires Protocol(log, intervals) && i < |log| && log[i].Slept?
    ensures log[i].ms <= 100
    ensures forall w: nat :: w < |intervals| ==> log[i].from + log[i].ms * 1_000_000 <= NextDue(log[..i], w, intervals[w])
  {
    hide Protocol, PhaseOf, NextDue;
    ProtocolAt(log, intervals, i);
  }

  // ----- Rounds -----

  ghost predicate ReinitedBetween(log: seq<Event>, from: int, to: int, worker: nat) {
    exists q :: 0 <= from < q < to <= |log| && log[q].Reinit? && log[q].worker == worker
  }

  /** The poll that began the round in which the thread is at position k. */
  lemma {:induction false} RoundHasPoll(log: seq<Event>, intervals: seq<nat>, k: nat) returns (i: nat)
    requires Protocol(log, intervals) && 0 < k <= |log| && PhaseOf(log[..k], |intervals|).InRound?
    ensures i < k && log[i] == Polled(true) && forall q :: i < q < k ==> log[q].Reinit?
  {
    hide Protocol, PhaseOf;
    PhaseStep(log, intervals, k - 1);
    if log[k - 1].Polled? {
      i := k - 1;
    } else {
      i := RoundHasPoll(log, intervals, k - 1);
    }
  }

  /** What the round that began at poll i has done before position k, if it is at worker v with c of them well. */
  ghost predicate RoundSoFar(before: seq<Event>, log: seq<Event>, i: nat, k: nat, v: nat, c: nat)
    requires i < k <= |log|
  {
    && (forall w: nat :: w < v ==> FlagUp(before, w) || ReinitedBetween(log, i, k, w))
    && (forall w: nat :: v <= w ==> FlagUp(log[..k], w) == FlagUp(before, w) && !ReinitedBetween(log, i, k, w))
    && (forall w: nat :: w < v && FlagUp(before, w) ==> !ReinitedBetween(log, i, k, w))
    && c + CountReturnedTrue(before) == CountUp(before, v) + CountReturnedTrue(log[..k])
  }

  lemma {:induction false} CountUpTo(log: seq<Event>, v: nat, w: nat)
    requires v <= w && forall u: nat :: v <= u < w ==> FlagUp(log, u)
    ensures CountUp(log, w) == CountUp(log, v) + (w - v)
  {
    if v < w {
      CountUpTo(log, v, w - 1);
    }
  }

  lemma RoundBegins(log: seq<Event>, i: nat)
    requires i < |log|
    ensures RoundSoFar(log[..i + 1], log, i, i + 1, 0, 0)
  {
  }

  lemma ReinitedMore(log: seq<Event>, i: nat, k: nat, worker: nat)
    requires i < k < |log| && log[k].Reinit?
    ensures ReinitedBetween(log, i, k + 1, worker) <==> ReinitedBetween(log, i, k, worker) || log[k].worker == worker
  {
  }

  lemma ReinitShows(log: seq<Event>, k: nat, worker: nat)
    requires k < |log| && log[k].Reinit?
    ensures FlagUp(log[..k + 1], worker) == if log[k].worker == worker then FlagAfter(log[k].reply) else FlagUp(log[..k], worker)
    ensures CountReturnedTrue(log[..k + 1]) == CountReturnedTrue(log[..k]) + if log[k].reply == ReinitReturned(true) then 1 else 0
  {
    assert log[..k + 1][..k] == log[..k];
  }

  /** One re-initialisation takes the round over the workers whose flag is up to the next worker. */
  lemma RoundStep(log: seq<Event>, workers: nat, i: nat, k: nat, number: nat, countOk: nat)
    requires i < k < |log| && log[k].Reinit? && !FlagUp(log[..k], log[k].worker)
    requires RoundAt(log[..k], workers, number, log[k].worker, countOk)
    requires var ph := PhaseOf(log[..k], workers); RoundSoFar(log[..i + 1], log, i, k, ph.worker, ph.countOk)
    ensures RoundSoFar(log[..i + 1], log, i, k + 1, log[k].worker + 1, countOk + if log[k].reply == ReinitReturned(true) then 1 else 0)
  {
    var ph, w, before := PhaseOf(log[..k], workers), log[k].worker, log[..i + 1];
    hide PhaseOf, FlagUp, CountReturnedTrue;
    CountUpTo(before, ph.worker, w);
    forall u: nat
      ensures ReinitedBetween(log, i, k + 1, u) <==> ReinitedBetween(log, i, k, u) || w == u
      ensures u != w ==> FlagUp(log[..k + 1], u) == FlagUp(log[..k], u)
    {
      ReinitedMore(log, i, k, u);
      ReinitShows(log, k, u);
    }
    ReinitShows(log, k, w);
    assert FlagUp(log[..k], w) == FlagUp(before, w);
    assert CountUp(before, w + 1) == CountUp(before, w);
  }

  lemma RoundMoves(log: seq<Event>, workers: nat, number: nat, worker: nat, countOk: nat, reply: ReinitReply)
    requires RoundAt(log, workers, number, worker, countOk)
    ensures var ph := AfterReinit(PhaseOf(log, workers), worker, reply);
            ph.InRound? ==> ph.worker == worker + 1 && ph.countOk == countOk + if reply == ReinitReturned(true) then 1 else 0
  {
  }

  /** Since the poll that began it, a round has re-initialised just the workers whose flag was down, and counted all. */
  lemma {:induction false} RoundProgress(log: seq<Event>, intervals: seq<nat>, i: nat, k: nat)
    requires Protocol(log, intervals) && i < k <= |log| && log[i] == Polled(true)
    requires (forall q :: i < q < k ==> log[q].Reinit?) && PhaseOf(log[..k], |intervals|).InRound?
    ensures var ph := PhaseOf(log[..k], |intervals|); RoundSoFar(log[..i + 1], log, i, k, ph.worker, ph.countOk)
  {
    hide Protocol, PhaseOf, FlagUp, RoundSoFar, RoundAt;
    PhaseStep(log, intervals, k - 1);
    if k == i + 1 {
      RoundBegins(log, i);
    } else {
      RoundProgress(log, intervals, i, k - 1);
      ProtocolAt(log, intervals, k - 1);
      var number, countOk :| RoundAt(log[..k - 1], |intervals|, number, log[k - 1].worker, countOk);
      RoundStep(log, |intervals|, i, k - 1, number, countOk);
      RoundMoves(log[..k - 1], |intervals|, number, log[k - 1].worker, countOk, log[k - 1].reply);
    }
  }

  /**
    A round that ended at k began with a poll, and since then re-initialised, once and in order, just the workers whose
    flag was down; it counted the flags that were up and the re-initialisations that returned true.
   */
  lemma RoundIsComplete(log: seq<Event>, intervals: seq<nat>, k: nat) returns (i: nat)
    requires Protocol(log, intervals) && k < |log| && log[k].RoundEnded?
    ensures i < k && log[i] == Polled(true) && forall q :: i < q < k ==> log[q].Reinit?
    ensures forall w: nat :: w < |intervals| ==> (ReinitedBetween(log, i, k, w) <==> !FlagUp(log[..i + 1], w))
    ensures log[k].countOk + CountReturnedTrue(log[..i + 1])
            == CountUp(log[..i + 1], |intervals|) + CountReturnedTrue(log[..k])
  {
    hide Protocol, PhaseOf, FlagUp, CountReturnedTrue;
    ProtocolAt(log, intervals, k);
    PhaseStep(log, intervals, k);
    i := RoundHasPoll(log, intervals, k);
    RoundProgress(log, intervals, i, k);
    var ph, before := PhaseOf(log[..k], |intervals|), log[..i + 1];
    CountUpTo(before, ph.worker, |intervals|);
  }
}
