/** The link state over a whole run of the server, one handler call at a
    time: the startup connect, then any sequence of timer ticks,
    `requestData` events and `/read-data` requests. The `/read-data`
    endpoint is the only caller of `readRobotData` without a connected
    guard, hence the only one that can reconnect after startup. */
module Reachability {
  import Results
  import opened Link
  import Streaming

  datatype Event =
    | Tick(connectOk: bool, reply: ReadReply, now: string)
    | Request(connectOk: bool, reply: ReadReply, now: string)
    | ReadEndpoint(connectOk: bool, reply: ReadReply, now: string)

  /** The effect of one event on the link. */
  function StepOf(s: Link, e: Event): Step
  {
    match e
    case Tick(ok, reply, now) => Streaming.StreamTick(s, ok, reply, now)
    case Request(ok, reply, now) => Streaming.RequestData(s, ok, reply, now)
    case ReadEndpoint(ok, reply, now) => ReadRobotData(s, ok, reply, now)
  }

  /** The link after the events, in order. */
  function Run(s: Link, events: seq<Event>): Link
    decreases |events|
  {
    if |events| == 0 then s else Run(StepOf(s, events[0]).link, events[1..])
  }

  /** Connect requests sent to the transport during the events. */
  function ConnectsDuring(s: Link, events: seq<Event>): nat
    decreases |events|
  {
    if |events| == 0 then 0
    else StepOf(s, events[0]).connectCalls + ConnectsDuring(StepOf(s, events[0]).link, events[1..])
  }

  /** The state after the connect the server makes when it starts: up with
      no failures, or down with exactly one. */
  function Startup(connectOk: bool): (s: Link)
    ensures s == (if connectOk then Link(true, 0) else Link(false, 1))
  {
    ConnectToPlc(Initial, connectOk)
  }

  /** What holds of every state the server can reach: at most five failed
      connects are counted, and a connected link has none pending. */
  predicate Invariant(s: Link)
  {
    s.attempts <= MaxConnectionAttempts && (s.connected ==> s.attempts == 0)
  }

  lemma StepPreservesInvariant(s: Link, e: Event)
    requires Invariant(s)
    ensures Invariant(StepOf(s, e).link)
  {
  }

  lemma {:induction false} RunPreservesInvariant(s: Link, events: seq<Event>)
    requires Invariant(s)
    ensures Invariant(Run(s, events))
    decreases |events|
  {
    if |events| > 0 {
      StepPreservesInvariant(s, events[0]);
      RunPreservesInvariant(StepOf(s, events[0]).link, events[1..]);
    }
  }

  /** Every reachable state keeps the counter at most 5, and is connected
      only with the counter at 0. */
  lemma ReachableStatesKeepInvariant(connectOk: bool, events: seq<Event>)
    ensures Run(Startup(connectOk), events).attempts <= MaxConnectionAttempts
    ensures Run(Startup(connectOk), events).connected ==> Run(Startup(connectOk), events).attempts == 0
  {
    RunPreservesInvariant(Startup(connectOk), events);
  }

  /** The link once five connects in a row have failed. */
  const Tripped: Link := Link(false, MaxConnectionAttempts)

  /** Once tripped, the breaker stays tripped for the rest of the run: no
      event changes the state or sends a connect request. */
  lemma {:induction false} BreakerIsPermanent(events: seq<Event>)
    ensures Run(Tripped, events) == Tripped
    ensures ConnectsDuring(Tripped, events) == 0
    decreases |events|
  {
    if |events| > 0 {
      assert StepOf(Tripped, events[0]) == Step(Tripped, Results.None, 0, 0);
      BreakerIsPermanent(events[1..]);
    }
  }

  /** `/read-data` requests whose connects all fail add one to the counter
      each, up to the limit. */
  lemma {:induction false} FailedConnectsCount(n: nat, events: seq<Event>)
    requires n + |events| <= MaxConnectionAttempts
    requires forall i :: 0 <= i < |events| ==> events[i].ReadEndpoint? && !events[i].connectOk
    ensures Run(Link(false, n), events) == Link(false, n + |events|)
    ensures ConnectsDuring(Link(false, n), events) == |events|
    decreases |events|
  {
    if |events| > 0 {
      assert StepOf(Link(false, n), events[0]).link == Link(false, n + 1);
      FailedConnectsCount(n + 1, events[1..]);
    }
  }

  /** A failed startup connect followed by four `/read-data` requests whose
      connects fail trips the breaker; from then on nothing connects. */
  lemma FiveFailuresTripBreaker(events: seq<Event>, later: seq<Event>)
    requires |events| == MaxConnectionAttempts - 1
    requires forall i :: 0 <= i < |events| ==> events[i].ReadEndpoint? && !events[i].connectOk
    ensures Run(Startup(false), events) == Tripped
    ensures Run(Tripped, later) == Tripped && ConnectsDuring(Tripped, later) == 0
  {
    FailedConnectsCount(1, events);
    BreakerIsPermanent(later);
  }

  /** Timer ticks and `requestData` events never connect, so a link that is
      down stays down, with its counter, until a `/read-data` request. */
  lemma {:induction false} ViewersNeverReconnect(s: Link, events: seq<Event>)
    requires forall i :: 0 <= i < |events| ==> !events[i].ReadEndpoint?
    ensures ConnectsDuring(s, events) == 0
    ensures !s.connected ==> Run(s, events) == s
    ensures Run(s, events).attempts == s.attempts
    decreases |events|
  {
    if |events| > 0 {
      ViewersNeverReconnect(StepOf(s, events[0]).link, events[1..]);
    }
  }
}
