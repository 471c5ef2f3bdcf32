/** The plan subscriber: it skips a command that is among the last hundred executed ones. */
module CommandDedupe {
  const WINDOW := 100

  /** The last 100 entries, or all if there are fewer: what a queue of that bounded length keeps. */
  function LastWindow(s: seq<string>): seq<string> {
    if |s| <= WINDOW then s else s[|s| - WINDOW..]
  }

  /** The commands executed for a stream, in order. */
  function Executed(stream: seq<string>): seq<string> {
    if stream == [] then
      []
    else
      var before, c := Executed(stream[..|stream| - 1]), stream[|stream| - 1];
      if c in LastWindow(before) then before else before + [c]
  }

  ghost predicate Distinct(s: seq<string>) {
    forall i, j :: 0 <= i < j < |s| ==> s[i] != s[j]
  }

  /** Dropping from the front as commands arrive keeps the last hundred of all of them. */
  lemma WindowSlides(executed: seq<string>, c: string)
    ensures LastWindow(LastWindow(executed) + [c]) == LastWindow(executed + [c])
  {
  }

  lemma WindowHasTail(executed: seq<string>, i: nat)
    requires i < |executed|
    ensures |executed| - WINDOW <= i ==> executed[i] in LastWindow(executed)
  {
    var drop := if |executed| <= WINDOW then 0 else |executed| - WINDOW;
    if drop <= i {
      assert executed[i] == LastWindow(executed)[i - drop];
    }
  }

  /** A new command that is not in the window keeps it free of repetitions. */
  lemma FreshCommandKeepsDistinct(executed: seq<string>, c: string)
    requires Distinct(LastWindow(executed)) && c !in LastWindow(executed)
    ensures Distinct(LastWindow(executed + [c]))
  {
    WindowSlides(executed, c);
    assert Distinct(LastWindow(executed) + [c]);
  }

  /** Every stretch of at most 100 executed commands has no repetition. */
  lemma {:induction false} WindowIsDistinct(stream: seq<string>, end: nat)
    requires end <= |Executed(stream)|
    ensures Distinct(LastWindow(Executed(stream)[..end]))
  {
    if stream != [] {
      var init, c, e := stream[..|stream| - 1], stream[|stream| - 1], Executed(stream);
      var before := Executed(init);
      if end <= |before| {
        WindowIsDistinct(init, end);
        assert e[..end] == before[..end];
      } else {
        WindowIsDistinct(init, |before|);
        assert before[..|before|] == before;
        FreshCommandKeepsDistinct(before, c);
        assert e[..end] == before + [c];
      }
    }
  }

  /** The command is one of the last hundred. */
  ghost predicate IsRecent(executed: seq<string>, c: string) {
    exists k :: 0 <= k < |executed| && |executed| - 100 <= k && executed[k] == c
  }

  /** The window holds a command exactly if it is among the last hundred. */
  lemma {:induction false} WindowIsTail(executed: seq<string>, c: string)
    ensures c in LastWindow(executed) <==> IsRecent(executed, c)
  {
    var drop := if |executed| <= WINDOW then 0 else |executed| - WINDOW;
    if c in LastWindow(executed) {
      var n :| 0 <= n < |LastWindow(executed)| && LastWindow(executed)[n] == c;
      assert executed[drop + n] == c;
    }
    if k :| 0 <= k < |executed| && |executed| - 100 <= k && executed[k] == c {
      WindowHasTail(executed, k);
    }
  }

  /** Between two executions of one command lie at least 100 others, pairwise distinct. */
  lemma {:induction false} RepeatsAreFarApart(stream: seq<string>, i: nat, j: nat)
    requires var e := Executed(stream); i < j < |e| && e[i] == e[j]
    ensures 100 < j - i
    ensures var e := Executed(stream);
            Distinct(e[j - 100..j]) && e[j] !in e[j - 100..j]
  {
    var init, c, e := stream[..|stream| - 1], stream[|stream| - 1], Executed(stream);
    var before := Executed(init);
    WindowIsDistinct(stream, j);
    if j < |before| {
      RepeatsAreFarApart(init, i, j);
      assert e[j - WINDOW..j] == before[j - WINDOW..j];
    } else {
      assert e == before + [c] && c !in LastWindow(before);
      WindowHasTail(before, i);
      assert e[j - WINDOW..j] == LastWindow(before);
    }
  }

  class PlanSubscriber {
    var processedCommands: seq<string>
    ghost var received: seq<string>

    ghost predicate Valid()
      reads this
    {
      processedCommands == LastWindow(Executed(received))
    }

    constructor ()
      ensures Valid() && received == []
    {
      processedCommands := [];
      received := [];
    }

    /** Handles one command; `succeeds` is what executing it would report. The window grows either way. */
    method PlanCallback(command: string, succeeds: bool) returns (executed: bool, ack: bool)
      requires Valid()
      modifies this
      ensures Valid() && received == old(received) + [command]
      ensures executed <==> command !in old(processedCommands)
      ensures executed <==> !IsRecent(Executed(old(received)), command)
      ensures executed ==> ack == succeeds && Executed(received) == Executed(old(received)) + [command]
      ensures !executed ==> Executed(received) == Executed(old(received))
    {
      ghost var stream := received + [command];
      assert stream[..|stream| - 1] == received;
      received := stream;
      ack := false;
      executed := command !in processedCommands;
      WindowIsTail(Executed(old(received)), command);
      if executed {
        WindowSlides(Executed(old(received)), command);
        processedCommands := LastWindow(processedCommands + [command]);
        ack := succeeds;
      }
    }
  }
}
