/** The two socket handlers that read on behalf of a viewer: the 100 ms
    interval timer and the `requestData` event. Both read only when the
    link is already up, so neither ever reconnects, and both emit exactly
    the non-null readings. */
module Streaming {
  import opened Results
  import opened Link
  import RegisterBlock

  /** One firing of a viewer's interval timer; `data` is what is emitted
      to the viewer, nothing when `None`. The handler reads only on a
      connected link, so `connectOk` is never consulted; it is a parameter
      so that every event carries the same transport outcomes. */
  function StreamTick(s: Link, connectOk: bool, reply: ReadReply, now: string): (r: Step)
    ensures r.connectCalls == 0
    ensures r.link.attempts == s.attempts
    ensures !s.connected ==> r == Step(s, None, 0, 0)
    ensures s.connected ==> r.readCalls == 1
    ensures r.data.Some? <==> s.connected && Decodable(reply)
    ensures s.connected ==> (r.link.connected <==> Decodable(reply))
    ensures r.data.Some? ==>
              && r.link.connected
              && !r.data.value.isMockData
              && r.data.value.timestamp == now
              && forall k :: 0 <= k < RegisterBlock.JointCount ==>
                   r.data.value.joints[k] == RegisterBlock.JointSpec(reply.words, k)
  {
    if s.connected then ReadRobotData(s, connectOk, reply, now)
    else Step(s, None, 0, 0)
  }

  /** The `requestData` handler: read when connected, emit when the read
      returned a reading. Like a tick, it never consults `connectOk`. */
  function RequestData(s: Link, connectOk: bool, reply: ReadReply, now: string): (r: Step)
    ensures r.connectCalls == 0
    ensures !s.connected ==> r.readCalls == 0 && r.data.None? && r.link == s
  {
    if !s.connected then Step(s, None, 0, 0)
    else
      var read := ReadRobotData(s, connectOk, reply, now);
      if read.data.Some? then read else Step(read.link, None, read.connectCalls, read.readCalls)
  }

  /** The on-demand request behaves exactly like a timer tick. */
  lemma RequestDataMatchesTick(s: Link, connectOk: bool, reply: ReadReply, now: string)
    ensures RequestData(s, connectOk, reply, now) == StreamTick(s, connectOk, reply, now)
  {
  }
}
