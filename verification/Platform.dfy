/** The robot platform as the workers see it: remote calls that return something or raise an exception. */
module Platform {
  import opened CellAreas
  import opened MapHolder

  datatype Exception =
    | ConnectionLost
    | ConnectionTimeOut
    | ConnectionFail
    | OperationFail
    | OtherError
    | MapFault(error: MapError)
    | AssertionFailed

  datatype Reply<T> = Returned(value: T) | Raised(ex: Exception)

  /** Everything the platform will ever answer: one function of the number of earlier calls per remote call. */
  datatype Script = Script(getMap: (nat, Area) -> Reply<MapMsg>, getKnownArea: nat -> Reply<Area>)

  /** A remote call, as it is made. */
  datatype Ask = AskMap(area: Area) | AskKnownArea

  datatype Fate = Answers | Raises(ex: Exception)

  /** What becomes of call number k, if it is this one. */
  function FateOf(p: Script, k: nat, ask: Ask): Fate {
    match ask
    case AskMap(area) => (match p.getMap(k, area) case Raised(ex) => Raises(ex) case Returned(_) => Answers)
    case AskKnownArea => (match p.getKnownArea(k) case Raised(ex) => Raises(ex) case Returned(_) => Answers)
  }

  /** The exceptions that make the work thread reconnect. */
  predicate IsConnection(ex: Exception) {
    ex.ConnectionLost? || ex.ConnectionTimeOut? || ex.ConnectionFail?
  }

  class Link {
    const script: Script
    var calls: nat
    ghost var asked: seq<Ask>

    constructor (script: Script)
      ensures this.script == script && calls == 0 && asked == []
    {
      this.script := script;
      calls := 0;
      asked := [];
    }

    method GetMap(area: Area) returns (reply: Reply<MapMsg>)
      modifies this
      ensures reply == script.getMap(old(calls), area) && calls == old(calls) + 1
      ensures asked == old(asked) + [AskMap(area)]
    {
      reply := script.getMap(calls, area);
      calls := calls + 1;
      asked := asked + [AskMap(area)];
    }

    method GetKnownArea() returns (reply: Reply<Area>)
      modifies this
      ensures reply == script.getKnownArea(old(calls)) && calls == old(calls) + 1
      ensures asked == old(asked) + [AskKnownArea]
    {
      reply := script.getKnownArea(calls);
      calls := calls + 1;
      asked := asked + [AskKnownArea];
    }
  }
}
