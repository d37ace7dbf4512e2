/** psock_send as seen from one application callback to the next. */
module Sender {
  import opened Bytes
  import opened Tcp

  /** The thread is outside psock_send, or waits in it with `rest` from sendptr on not yet acknowledged. */
  datatype Thread = Idle | Sending(rest: seq<byte>)

  /** What the application does once psock_send has returned, or if it was not sending. */
  datatype Op = Wait | Send(buf: seq<byte>) | Finish | Break

  function Rest(p: Thread): seq<byte> { if p.Sending? then p.rest else [] }

  function ChunkLen(rest: seq<byte>, mss: u16): nat { Min(|rest|, mss) }

  /** psock_send called on a new buffer: nothing to do, or the first segment goes out at once. */
  function Begin(buf: seq<byte>, mss: u16): (Thread, seq<byte>) {
    if buf == [] then (Idle, []) else (Sending(buf), buf[..ChunkLen(buf, mss)])
  }

  /** psock_send resumed at its wait: the new state and the bytes given to uip_send. */
  function Resume(p: Thread, cb: Callback): (Thread, seq<byte>) {
    match p
    case Idle => (Idle, [])
    case Sending(rest) =>
      if cb.rexmit then (p, rest[..ChunkLen(rest, cb.mss)])
      else if cb.ackdata then Begin(rest[ChunkLen(rest, cb.mss)..], cb.mss)
      else (p, [])
  }

  /** One callback of the whole application: the thread, the bytes given to uip_send, the buffer taken up. */
  function Run(p: Thread, cb: Callback, op: Op): (Thread, seq<byte>, seq<byte>) {
    var (p', out) := Resume(p, cb);
    if p'.Idle? && op.Send? then
      var (q, first) := Begin(op.buf, cb.mss);
      (q, first, op.buf)
    else (p', out, [])
  }

  /** The reply that callback leaves to uip_process. */
  ghost predicate Answers(p: Thread, cb: Callback, op: Op, r: Reply) {
    var (p', out, _) := Run(p, cb, op);
    && r.slen == |out|
    && r.slen <= |r.area| && r.area[..r.slen] == out
    && (r.ctl == Close <==> p'.Idle? && op.Finish?)
    && (r.ctl == Abort <==> op.Break?)
    && (cb.close || cb.abort || cb.timedout ==> r.flow != Stop)
  }

  /**
    The segment acknowledged was cut at mss0. psock_send resumes behind it exactly if the cut is the same
    under the mss of the callback; otherwise it repeats or skips bytes.
   */
  lemma ResumesBehindAcked(rest: seq<byte>, mss0: u16, cb: Callback)
    requires rest != [] && cb.ackdata && !cb.rexmit
    ensures Rest(Resume(Sending(rest), cb).0) == rest[ChunkLen(rest, mss0)..]
            <==> ChunkLen(rest, cb.mss) == ChunkLen(rest, mss0)
  {
  }
}
