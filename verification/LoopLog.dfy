/** What the work thread does, as a log of events, and the rules every log obeys. */
module LoopLog {
  import opened Arithmetic

  datatype Option<T> = None | Some(value: T)

  /** How an exception is treated: connection faults and other standard ones are told apart, the rest is unknown. */
  datatype Fault = ConnectionFault | StandardFault | UnknownFault

  /** What re-initialising a worker yields: the value of its flag, or an exception that leaves the flag either way. */
  datatype ReinitReply = ReinitReturned(flagUp: bool) | ReinitRaised(fault: Fault, flagLeftUp: bool)

  function FlagAfter(reply: ReinitReply): bool {
    if reply.ReinitReturned? then reply.flagUp else reply.flagLeftUp
  }

  datatype CheckOutcome = NotDue | Performed | PerformRaised(fault: Fault)

  /** A poll asks whether to go on; a wait is a rough sleep, with the polls during it that said yes. */
  datatype Event =
    | Polled(goOn: bool)
    | Waited(ms: nat, polls: nat)
    | ConnectFailed
    | Connected
    | Released
    | Reset(worker: nat)
    | ResetFailed(worker: nat, fault: Fault)
    | Reinit(worker: nat, reply: ReinitReply)
    | RoundEnded(number: nat, countOk: nat)
    | Check(worker: nat, at: int, outcome: CheckOutcome)
    | Slept(from: int, ms: nat)

  /** Clock ticks in a millisecond, and the longest sleep. */
  const TICKS_PER_MS := 1_000_000
  const MAX_SLEEP_MS := 100
  const MAX_ROUNDS := 3
  const ROUND_WAIT_MS := 2000
  const REST_MS := 3000

  predicate IsPerform(e: Event, worker: nat) {
    e.Check? && e.worker == worker && e.outcome != NotDue
  }

  /** A worker raised a connection fault, in a perform, a re-initialisation or a reset. */
  predicate IsConnectionFault(e: Event) {
    match e
    case Check(_, _, outcome) => outcome == PerformRaised(ConnectionFault)
    case Reinit(_, reply) => reply.ReinitRaised? && reply.fault == ConnectionFault
    case ResetFailed(_, fault) => fault == ConnectionFault
    case _ => false
  }

  // ----- What the log says about a worker -----

  /** Whether the worker's init flag is up. */
  function FlagUp(log: seq<Event>, worker: nat): bool {
    if log == [] then
      false
    else
      match log[|log| - 1]
      case Reset(w) => if w == worker then false else FlagUp(log[..|log| - 1], worker)
      case Reinit(w, reply) => if w == worker then FlagAfter(reply) else FlagUp(log[..|log| - 1], worker)
      case _ => FlagUp(log[..|log| - 1], worker)
  }

  /** When the worker is due next: immediately after a reinit, and one interval after each perform. */
  function NextDue(log: seq<Event>, worker: nat, interval: nat): int {
    if log == [] then
      0
    else
      match log[|log| - 1]
      case Reinit(w, _) => if w == worker then 0 else NextDue(log[..|log| - 1], worker, interval)
      case Check(w, at, outcome) =>
        if w == worker && outcome != NotDue then at + interval else NextDue(log[..|log| - 1], worker, interval)
      case _ => NextDue(log[..|log| - 1], worker, interval)
  }

  function CountRounds(log: seq<Event>): nat {
    if log == [] then 0 else CountRounds(log[..|log| - 1]) + if log[|log| - 1].RoundEnded? then 1 else 0
  }

  /** How many polls said yes. */
  function CountYes(log: seq<Event>): nat {
    if log == [] then
      0
    else
      var e := log[|log| - 1];
      CountYes(log[..|log| - 1]) + if e == Polled(true) then 1 else if e.Waited? then e.polls else 0
  }

  predicate SaysStop(log: seq<Event>) {
    Polled(false) in log
  }

  /** How many of the first n workers have their flag up. */
  function CountUp(log: seq<Event>, n: nat): nat {
    if n == 0 then 0 else CountUp(log, n - 1) + if FlagUp(log, n - 1) then 1 else 0
  }

  /** How many re-initialisations returned true. */
  function CountReturnedTrue(log: seq<Event>): nat {
    if log == [] then
      0
    else
      var e := log[|log| - 1];
      CountReturnedTrue(log[..|log| - 1]) + if e.Reinit? && e.reply == ReinitReturned(true) then 1 else 0
  }

  /** The last event is one that keeps a work loop from starting with the given number of workers. */
  predicate StartFailed(log: seq<Event>, workers: nat) {
    log != []
    && match log[|log| - 1]
       case ResetFailed(_, _) => true
       case Reinit(_, ReinitRaised(fault, _)) => fault != StandardFault
       case RoundEnded(number, countOk) => number == MAX_ROUNDS && countOk != workers
       case _ => false
  }

  /** The events from position `from` on begin with a check of the workers 0, 1, .. count - 1. */
  predicate CheckedInOrder(log: seq<Event>, from: nat, count: nat) {
    from + count <= |log| && forall a :: from <= a < from + count ==> log[a].Check? && log[a].worker == a - from
  }

  /** A pass cut short: checks in order up to one that raised a connection fault. */
  predicate CheckedUntilFault(log: seq<Event>, from: nat, workers: nat) {
    && from < |log| <= from + workers
    && CheckedInOrder(log, from, |log| - from)
    && IsConnectionFault(log[|log| - 1])
  }

  /** A full pass since position `from`: one check of every worker in order, and then at most a sleep. */
  predicate ChecksEachOnce(log: seq<Event>, from: nat, workers: nat) {
    && CheckedInOrder(log, from, workers)
    && (|log| == from + workers || (|log| == from + workers + 1 && log[from + workers].Slept?))
  }

  // ----- Where the thread is -----

  /** What the thread is about to do. */
  datatype Phase =
    | Top
    | Trying
    | Dialling
    | DialFailed
    | Resetting(worker: nat)
    | RoundDue(number: nat)
    | InRound(number: nat, worker: nat, countOk: nat)
    | RoundFailed(number: nat)
    | Looping
    | Checking(worker: nat)
    | PassDone
    | Ending
    | Left
    | Resting
    | Stopped

  function ResettingFrom(worker: nat, workers: nat): Phase {
    if worker < workers then Resetting(worker) else RoundDue(1)
  }

  function CheckingFrom(worker: nat, workers: nat): Phase {
    if worker < workers then Checking(worker) else PassDone
  }

  /** The next phase after a poll. */
  function AfterPoll(ph: Phase, goOn: bool, workers: nat): Phase {
    match ph
    case Top => if goOn then Trying else Stopped
    case Trying => if goOn then Dialling else Top
    case RoundDue(number) => if goOn then InRound(number, 0, 0) else Ending
    case Looping => if goOn then CheckingFrom(0, workers) else Ending
    case PassDone => if goOn then CheckingFrom(0, workers) else Ending
    case Left => if goOn then Resting else Top
    case _ => ph
  }

  function AfterWait(ph: Phase): Phase {
    match ph
    case DialFailed => Trying
    case RoundFailed(number) => RoundDue(number + 1)
    case Resting => Top
    case _ => ph
  }

  function AfterReinit(ph: Phase, worker: nat, reply: ReinitReply): Phase {
    if reply.ReinitRaised? && reply.fault != StandardFault then
      Ending
    else if ph.InRound? && ph.worker <= worker then
      InRound(ph.number, worker + 1, ph.countOk + (worker - ph.worker) + if reply == ReinitReturned(true) then 1 else 0)
    else
      ph
  }

  function After(ph: Phase, e: Event, workers: nat): Phase {
    match e
    case Polled(goOn) => AfterPoll(ph, goOn, workers)
    case Waited(_, _) => AfterWait(ph)
    case ConnectFailed => DialFailed
    case Connected => ResettingFrom(0, workers)
    case Released => Left
    case Reset(worker) => ResettingFrom(worker + 1, workers)
    case ResetFailed(_, _) => Ending
    case Reinit(worker, reply) => AfterReinit(ph, worker, reply)
    case RoundEnded(number, countOk) =>
      if countOk == workers then Looping else if number < MAX_ROUNDS then RoundFailed(number) else Ending
    case Check(worker, _, outcome) =>
      if outcome == PerformRaised(ConnectionFault) then Ending else CheckingFrom(worker + 1, workers)
    case Slept(_, _) => Looping
  }

  function PhaseOf(log: seq<Event>, workers: nat): Phase {
    if log == [] then Top else After(PhaseOf(log[..|log| - 1], workers), log[|log| - 1], workers)
  }

  predicate MayPoll(ph: Phase) {
    ph.Top? || ph.Trying? || ph.RoundDue? || ph.Looping? || ph.PassDone? || ph.Left?
  }

  predicate MayWait(ph: Phase, ms: nat) {
    ph.DialFailed? || (ph.RoundFailed? && ms == ROUND_WAIT_MS) || (ph.Resting? && ms == REST_MS)
  }

  /** In round `number` the workers before `worker` are dealt with, and `countOk` of them are well. */
  ghost predicate RoundAt(log: seq<Event>, workers: nat, number: nat, worker: nat, countOk: nat) {
    var ph := PhaseOf(log, workers);
    && ph.InRound? && ph.number == number && ph.worker <= worker <= workers
    && (forall w: nat :: ph.worker <= w < worker ==> FlagUp(log, w))
    && countOk == ph.countOk + (worker - ph.worker)
  }

  /** The events that the phase allows next. */
  ghost predicate Allowed(log: seq<Event>, e: Event, workers: nat) {
    var ph := PhaseOf(log, workers);
    match e
    case Polled(_) => MayPoll(ph)
    case Waited(ms, _) => MayWait(ph, ms)
    case ConnectFailed => ph.Dialling?
    case Connected => ph.Dialling?
    case Released => ph.Ending?
    case Reset(worker) => worker < workers && ph == Resetting(worker)
    case ResetFailed(worker, _) => worker < workers && ph == Resetting(worker)
    case Reinit(worker, _) => exists number, countOk :: RoundAt(log, workers, number, worker, countOk)
    case RoundEnded(number, countOk) => RoundAt(log, workers, number, workers, countOk)
    case Check(worker, _, _) => ph == Checking(worker)
    case Slept(_, _) => ph.PassDone?
  }

  // ----- The protocol -----

  ghost predicate ReleasedBetween(log: seq<Event>, from: int, to: int) {
    exists r :: 0 <= from < r < to <= |log| && log[r] == Released
  }

  ghost predicate ResetBetween(log: seq<Event>, from: int, to: int, worker: nat) {
    exists r :: 0 <= from < r < to <= |log| && log[r] == Reset(worker)
  }

  /** Every connection fault so far has been followed by a release before position `to`. */
  ghost predicate FaultsReleased(log: seq<Event>, to: int) {
    forall a :: 0 <= a < to <= |log| && IsConnectionFault(log[a]) ==> ReleasedBetween(log, a, to)
  }

  /** The connection made at position c is still in use, and all earlier faults were released before it. */
  ghost predicate Linked(log: seq<Event>, c: int) {
    && 0 <= c < |log| && log[c] == Connected
    && FaultsReleased(log, c)
    && forall a :: c <= a < |log| ==> log[a] != Released && !IsConnectionFault(log[a])
  }

  /** On that connection all workers were reset and then one round, ending at k, counted them all. */
  ghost predicate Started(log: seq<Event>, c: int, k: int, workers: nat) {
    && Linked(log, c)
    && c < k < |log| && log[k].RoundEnded? && log[k].countOk == workers
    && (forall w: nat :: w < workers ==> ResetBetween(log, c, k, w))
    && (forall w: nat :: w < workers ==> FlagUp(log, w))
  }

  predicate RaisesFlag(e: Event, worker: nat) {
    e.Reinit? && e.worker == worker && FlagAfter(e.reply)
  }

  /** The worker was reset and then re-initialised, which left its flag up. */
  ghost predicate RestartedBetween(log: seq<Event>, from: int, to: int, worker: nat) {
    exists r, q :: 0 <= from < r < q < to <= |log| && log[r] == Reset(worker) && RaisesFlag(log[q], worker)
  }

  /**
    A release at r, a connect at c in use up to position b, and on it a reset and a re-initialisation of every
    worker, and then, at k, a round that counted them all.
   */
  ghost predicate Restart(log: seq<Event>, r: int, c: int, k: int, b: int, workers: nat) {
    && 0 <= r < c < k < b <= |log|
    && log[r] == Released && log[c] == Connected && log[k].RoundEnded? && log[k].countOk == workers
    && (forall w: nat :: w < workers ==> RestartedBetween(log, c, k, w))
    && forall x :: c <= x < b ==> log[x] != Released && !IsConnectionFault(log[x])
  }

  /** The connection made at position c is started. */
  ghost predicate Running(log: seq<Event>, c: int, workers: nat) {
    exists k :: Started(log, c, k, workers)
  }

  ghost predicate MayCheck(log: seq<Event>, workers: nat) {
    exists c :: Running(log, c, workers)
  }

  /** Some connection is in use. */
  ghost predicate OnLink(log: seq<Event>) {
    exists c :: Linked(log, c)
  }

  /** What must hold of the log so far for the next event to happen. */
  ghost predicate EventOk(log: seq<Event>, e: Event, intervals: seq<nat>) {
    Allowed(log, e, |intervals|)
    && match e
       case Polled(goOn) => goOn ==> !SaysStop(log)
       case Waited(_, polls) => 0 < polls ==> !SaysStop(log)
       case Reset(_) => OnLink(log)
       case ResetFailed(_, _) => OnLink(log)
       case Reinit(w, _) => w < |intervals| && !FlagUp(log, w) && OnLink(log)
       case RoundEnded(number, countOk) =>
         1 <= number <= MAX_ROUNDS && (countOk == |intervals| ==> forall w: nat :: w < |intervals| ==> FlagUp(log, w))
       case Check(w, at, outcome) =>
         && w < |intervals|
         && MayCheck(log, |intervals|)
         && (outcome == NotDue <==> at < NextDue(log, w, intervals[w]))
       case Slept(from, ms) =>
         ms <= MAX_SLEEP_MS && forall w: nat :: w < |intervals| ==> from + ms * TICKS_PER_MS <= NextDue(log, w, intervals[w])
       case _ => true
  }

  ghost predicate Protocol(log: seq<Event>, intervals: seq<nat>) {
    log == [] || (Protocol(log[..|log| - 1], intervals) && EventOk(log[..|log| - 1], log[|log| - 1], intervals))
  }

  lemma ProtocolAppend(log: seq<Event>, e: Event, intervals: seq<nat>)
    requires Protocol(log, intervals) && EventOk(log, e, intervals)
    ensures Protocol(log + [e], intervals)
    ensures forall w: nat :: FlagUp(log + [e], w) == if e == Reset(w) then false else if e.Reinit? && e.worker == w then FlagAfter(e.reply) else FlagUp(log, w)
    ensures forall w: nat, d: nat :: NextDue(log + [e], w, d)
              == if e.Reinit? && e.worker == w then 0 else if IsPerform(e, w) then e.at + d else NextDue(log, w, d)
    ensures PhaseOf(log + [e], |intervals|) == After(PhaseOf(log, |intervals|), e, |intervals|)
    ensures CountYes(log + [e]) == CountYes(log) + if e == Polled(true) then 1 else if e.Waited? then e.polls else 0
    ensures SaysStop(log + [e]) <==> SaysStop(log) || e == Polled(false)
    ensures CountRounds(log + [e]) == CountRounds(log) + if e.RoundEnded? then 1 else 0
    ensures CountReturnedTrue(log + [e]) == CountReturnedTrue(log) + if e.Reinit? && e.reply == ReinitReturned(true) then 1 else 0
  {
    assert (log + [e])[..|log|] == log;
  }

  lemma {:induction false} ProtocolAt(log: seq<Event>, intervals: seq<nat>, j: nat)
    requires Protocol(log, intervals) && j < |log|
    ensures EventOk(log[..j], log[j], intervals)
  {
    if j < |log| - 1 {
      ProtocolAt(log[..|log| - 1], intervals, j);
      assert log[..|log| - 1][..j] == log[..j];
    }
  }

  lemma {:induction false} ProtocolPrefix(log: seq<Event>, intervals: seq<nat>, j: nat)
    requires Protocol(log, intervals) && j <= |log|
    ensures Protocol(log[..j], intervals)
  {
    if j < |log| {
      ProtocolPrefix(log[..|log| - 1], intervals, j);
      assert log[..|log| - 1][..j] == log[..j];
    } else {
      assert log[..j] == log;
    }
  }

  /** A worker whose flag is up was re-initialised after its reset at position r, and that left the flag up. */
  lemma {:induction false} FlagWasRaised(log: seq<Event>, worker: nat, r: nat) returns (q: nat)
    requires r < |log| && log[r] == Reset(worker) && FlagUp(log, worker)
    ensures r < q < |log| && RaisesFlag(log[q], worker)
  {
    if RaisesFlag(log[|log| - 1], worker) {
      q := |log| - 1;
    } else {
      q := FlagWasRaised(log[..|log| - 1], worker, r);
    }
  }

  /** Started also means that each worker was re-initialised in between. */
  lemma StartedRestarts(log: seq<Event>, intervals: seq<nat>, c: int, k: int, worker: nat)
    requires Protocol(log, intervals) && Started(log, c, k, |intervals|) && worker < |intervals|
    ensures RestartedBetween(log, c, k, worker)
  {
    ProtocolAt(log, intervals, k);
    assert ResetBetween(log, c, k, worker);
    var r :| c < r < k && log[r] == Reset(worker);
    var q := FlagWasRaised(log[..k], worker, r);
    assert log[q] == log[..k][q];
  }

  lemma RestartedIn(log: seq<Event>, b: nat, c: int, k: int, worker: nat)
    requires b <= |log| && k <= b && RestartedBetween(log[..b], c, k, worker)
    ensures RestartedBetween(log, c, k, worker)
  {
    var r, q :| 0 <= c < r < q < k && log[..b][r] == Reset(worker) && RaisesFlag(log[..b][q], worker);
    assert log[r] == Reset(worker) && RaisesFlag(log[q], worker);
  }

  /**
    Between a connection fault of any worker and any later check of a worker, the platform was released, then a
    connect succeeded, then every worker was reset and re-initialised, and then one round counted all of them;
    the flags are up, and the connection is in use without a fault.
   */
  lemma ReconnectBeforeNextCheck(log: seq<Event>, intervals: seq<nat>, a: nat, b: nat)
    requires Protocol(log, intervals) && a < b < |log| && IsConnectionFault(log[a]) && log[b].Check?
    ensures exists r, c, k :: a < r && Restart(log, r, c, k, b, |intervals|)
    ensures forall w: nat :: w < |intervals| ==> FlagUp(log[..b], w)
  {
    ProtocolAt(log, intervals, b);
    var before := log[..b];
    var c :| Running(before, c, |intervals|);
    var k :| Started(before, c, k, |intervals|);
    assert before[a] == log[a];
    assert ReleasedBetween(before, a, c);
    var r :| a < r < c && before[r] == Released;
    ProtocolPrefix(log, intervals, b);
    forall w: nat | w < |intervals|
      ensures RestartedBetween(log, c, k, w)
    {
      StartedRestarts(before, intervals, c, k, w);
      RestartedIn(log, b, c, k, w);
    }
    forall x | c <= x < b
      ensures log[x] != Released && !IsConnectionFault(log[x])
    {
      assert before[x] == log[x];
    }
    assert log[r] == Released && log[c] == Connected && log[k].RoundEnded?;
    assert Restart(log, r, c, k, b, |intervals|);
  }

  /** Already a reset or a re-initialisation of any worker waits for the release and the new connect. */
  lemma {:induction false} ReconnectBeforeNextUse(log: seq<Event>, intervals: seq<nat>, a: nat, b: nat)
    requires Protocol(log, intervals) && a < b < |log| && IsConnectionFault(log[a])
    requires log[b].Reset? || log[b].ResetFailed? || log[b].Reinit?
    ensures exists r, c :: a < r < c < b && log[r] == Released && log[c] == Connected
              && forall x :: c <= x < b ==> log[x] != Released && !IsConnectionFault(log[x])
  {
    ProtocolAt(log, intervals, b);
    var before := log[..b];
    var c :| Linked(before, c);
    assert before[a] == log[a];
    assert ReleasedBetween(before, a, c);
    var r :| a < r < c && before[r] == Released;
    forall x | c <= x < b
      ensures log[x] != Released && !IsConnectionFault(log[x])
    {
      assert before[x] == log[x];
    }
    assert log[r] == Released && log[c] == Connected;
  }

  // ----- Spacing of performs -----

  ghost predicate NoReinit(log: seq<Event>, worker: nat) {
    forall a :: 0 <= a < |log| && log[a].Reinit? ==> log[a].worker != worker
  }

  function CountPerforms(log: seq<Event>, worker: nat): nat {
    if log == [] then 0
    else CountPerforms(log[..|log| - 1], worker) + if IsPerform(log[|log| - 1], worker) then 1 else 0
  }

  /** Every perform of the worker happens at or after `start`. */
  ghost predicate PerformsFrom(log: seq<Event>, worker: nat, start: int) {
    forall a :: 0 <= a < |log| && IsPerform(log[a], worker) ==> start <= log[a].at
  }

  ghost predicate PerformsUntil(log: seq<Event>, worker: nat, end: int) {
    forall a :: 0 <= a < |log| && IsPerform(log[a], worker) ==> log[a].at <= end
  }

  /** After n performs without a reinit the worker is not due before n intervals past the first. */
  lemma {:induction false} DueAfterPerforms(log: seq<Event>, part: seq<Event>, intervals: seq<nat>, worker: nat, start: int)
    requires Protocol(log + part, intervals) && worker < |intervals|
    requires NoReinit(part, worker) && PerformsFrom(part, worker, start) && 1 <= CountPerforms(part, worker)
    ensures start + CountPerforms(part, worker) * intervals[worker] <= NextDue(log + part, worker, intervals[worker])
  {
    hide Allowed, PhaseOf, MayCheck, OnLink, FlagUp, SaysStop;
    var init, last, d := part[..|part| - 1], part[|part| - 1], intervals[worker];
    var n := CountPerforms(init, worker);
    assert (log + part)[..|log + part| - 1] == log + init;
    assert (log + part)[|log + part| - 1] == last;
    if 1 <= n {
      DueAfterPerforms(log, init, intervals, worker, start);
    }
    if IsPerform(last, worker) {
      assert (n + 1) * d == n * d + d;
    }
  }

  lemma {:induction false} LastPerformBounds(log: seq<Event>, part: seq<Event>, intervals: seq<nat>, worker: nat, start: int, end: int)
    requires Protocol(log + part, intervals) && worker < |intervals|
    requires NoReinit(part, worker) && PerformsFrom(part, worker, start) && PerformsUntil(part, worker, end)
    requires 0 < CountPerforms(part, worker)
    ensures start + (CountPerforms(part, worker) - 1) * intervals[worker] <= end
  {
    hide Allowed, PhaseOf, MayCheck, OnLink, FlagUp, SaysStop;
    var init, last, d := part[..|part| - 1], part[|part| - 1], intervals[worker];
    var n := CountPerforms(init, worker);
    assert (log + part)[..|log + part| - 1] == log + init;
    assert (log + part)[|log + part| - 1] == last;
    if IsPerform(last, worker) {
      if 1 <= n {
        DueAfterPerforms(log, init, intervals, worker, start);
      }
    } else {
      LastPerformBounds(log, init, intervals, worker, start, end);
    }
  }

  /** In a span of `span` ticks without a reinit a worker with interval d > 0 performs at most span / d + 1 times. */
  lemma PerformsAreBounded(log: seq<Event>, part: seq<Event>, intervals: seq<nat>, worker: nat, start: int, span: nat)
    requires Protocol(log + part, intervals) && worker < |intervals| && 0 < intervals[worker]
    requires NoReinit(part, worker) && PerformsFrom(part, worker, start) && PerformsUntil(part, worker, start + span)
    ensures CountPerforms(part, worker) <= span / intervals[worker] + 1
  {
    if 0 < CountPerforms(part, worker) {
      LastPerformBounds(log, part, intervals, worker, start, start + span);
      var n, d := CountPerforms(part, worker) - 1, intervals[worker];
      assert n * d <= span;
      QuotientAtLeast(n, d, span);
    }
  }
}
