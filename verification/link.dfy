/** The PLC link of the server: the pair (connected flag, failed-attempt
    counter), the connect operation, and the guarded read that reconnects
    at most once per call and gives up once five connects in a row have
    failed.

    The Modbus TCP transport is an oracle: each call receives whether the
    TCP connect succeeds and what the holding-register read returns. */
module Link {
  import opened Results
  import opened Bytes
  import RegisterBlock

  /** The device the server talks to: Modbus TCP at 192.168.0.2:502, unit 1,
      with a 2000 ms timeout per request. */
  datatype Endpoint = Endpoint(host: string, port: nat, unitId: nat, timeoutMs: nat)

  const PlcConfig: Endpoint := Endpoint("192.168.0.2", 502, 1, 2000)

  /** Connects that may fail in a row before reads stop reconnecting. */
  const MaxConnectionAttempts: nat := 5

  /** The link state shared by every handler of the server. */
  datatype Link = Link(connected: bool, attempts: nat)

  /** The state before the startup connect. */
  const Initial: Link := Link(false, 0)

  /** What the transport returns for one holding-register read. */
  datatype ReadReply = Registers(words: seq<Word>) | ReadFailed

  /** A decoded reading as the server emits it. The timestamp comes from the
      clock and is a parameter of the model. */
  datatype Measurement = Measurement(joints: RegisterBlock.JointBits, timestamp: string, isMockData: bool)

  /** One call of a link operation: the state after it, the reading it
      returns (`None` for the server's `null`), and how many connect and
      read requests it sent to the transport. */
  datatype Step = Step(link: Link, data: Option<Measurement>, connectCalls: nat, readCalls: nat)

  /** `connectToPLC`: the returned boolean is the new `connected` flag. */
  function ConnectToPlc(s: Link, transportOk: bool): (r: Link)
    ensures r.connected <==> transportOk
    ensures r.connected ==> r.attempts == 0
    ensures !r.connected ==> r.attempts == s.attempts + 1
  {
    if transportOk then Link(true, 0)
    else Link(false, s.attempts + 1)
  }

  /** A reply the decoder accepts. */
  predicate Decodable(reply: ReadReply)
  {
    reply.Registers? && |reply.words| <= RegisterBlock.RegisterCount
  }

  /** The read part of `readRobotData`, run on a connected link: one register
      read; a failed read or a block that overflows the buffer disconnects
      the link and leaves the counter alone. */
  function ReadAndDecode(s: Link, reply: ReadReply, now: string): (r: Step)
    requires s.connected
    ensures r.connectCalls == 0 && r.readCalls == 1
    ensures r.link.attempts == s.attempts
    ensures r.data.Some? <==> Decodable(reply)
    ensures r.link.connected <==> Decodable(reply)
    ensures r.data.Some? ==>
              && !r.data.value.isMockData
              && r.data.value.timestamp == now
              && forall k :: 0 <= k < RegisterBlock.JointCount ==>
                   r.data.value.joints[k] == RegisterBlock.JointSpec(reply.words, k)
  {
    match reply
    case ReadFailed => Step(s.(connected := false), None, 0, 1)
    case Registers(words) =>
      match RegisterBlock.Decode(words)
      case Failure(_) => Step(s.(connected := false), None, 0, 1)
      case Success(joints) => Step(s, Some(Measurement(joints, now, false)), 0, 1)
  }

  /** `readRobotData`: reconnects once when the link is down and fewer than
      five connects have failed, gives up without connecting once five have,
      and otherwise reads and decodes the register block. */
  function ReadRobotData(s: Link, connectOk: bool, reply: ReadReply, now: string): (r: Step)
    // the circuit breaker: no connect, no read, no change
    ensures !s.connected && s.attempts >= MaxConnectionAttempts ==>
              r.connectCalls == 0 && r.readCalls == 0 && r.data.None? && r.link == s
    // exactly one reconnect below the limit; a failed one ends the call
    ensures !s.connected && s.attempts < MaxConnectionAttempts ==> r.connectCalls == 1
    ensures !s.connected && s.attempts < MaxConnectionAttempts && !connectOk ==>
              r.readCalls == 0 && r.data.None? && r.link == Link(false, s.attempts + 1)
    // a successful reconnect is followed by one read with the counter reset
    ensures !s.connected && s.attempts < MaxConnectionAttempts && connectOk ==>
              r.readCalls == 1 && r.link == Link(Decodable(reply), 0)
    // a connected link is never reconnected
    ensures s.connected ==> r.connectCalls == 0 && r.readCalls == 1
    // a read leaves the counter as the connect (if any) left it
    ensures r.readCalls == 1 ==> r.link.attempts == (if s.connected then s.attempts else 0)
    // data comes back exactly when a read happened and its reply decodes,
    // and then the link is up; without data the link is down
    ensures r.data.Some? <==> r.readCalls == 1 && Decodable(reply)
    ensures r.link.connected <==> r.data.Some?
    ensures r.data.Some? ==>
              && !r.data.value.isMockData
              && r.data.value.timestamp == now
              && forall k :: 0 <= k < RegisterBlock.JointCount ==>
                   r.data.value.joints[k] == RegisterBlock.JointSpec(reply.words, k)
  {
    if !s.connected then
      if s.attempts < MaxConnectionAttempts then
        var s' := ConnectToPlc(s, connectOk);
        if !s'.connected then Step(s', None, 1, 0)
        else
          var r := ReadAndDecode(s', reply, now);
          r.(connectCalls := 1)
      else
        Step(s, None, 0, 0)
    else
      ReadAndDecode(s, reply, now)
  }
}
