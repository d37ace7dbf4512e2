/**
  One TCP connection of uip_process, as functions from a connection, an event and the application's
  answer to the new connection, the segment handed to the network and the callback that was made.
 */
module Tcp {
  import opened Bytes

  const UIP_RTO: byte := 3
  const UIP_MAXRTX: byte := 8
  const UIP_MAXSYNRTX: byte := 5
  const UIP_TIME_WAIT_TIMEOUT: byte := 120

  datatype State =
    CLOSED | SYN_RCVD | SYN_SENT | ESTABLISHED | FIN_WAIT_1 | FIN_WAIT_2 | CLOSING | TIME_WAIT | LAST_ACK

  /**
    struct uip_conn. The byte tcpstateflags is the pair of `state` (the bits under UIP_TS_MASK) and
    `stopped` (UIP_STOPPED). Sequence numbers are the numbers their four bytes denote.
   */
  datatype Conn = Conn(
    ripaddr: u32, lport: u16, rport: u16,
    rcvNxt: u32, sndNxt: u32,
    len: u16, mss: u16, initialmss: u16,
    sa: byte, sv: byte, rto: byte,
    state: State, stopped: bool,
    timer: byte, nrtx: byte)
  {
    /** Comparison of the whole byte tcpstateflags with a state. */
    predicate Is(s: State) { state == s && !stopped }
  }

  datatype Flags = Flags(nameonly syn: bool := false, nameonly ack: bool := false,
                         nameonly fin: bool := false, nameonly rst: bool := false, nameonly psh: bool := false)

  /** What fits into one IP packet. */
  type Payload = d: seq<byte> | |d| <= 0xffff witness []

  /** A TCP segment: `mss` is the maximum segment size option, `data` what follows the header. */
  datatype Segment = Segment(seqno: u32, ackno: u32, flags: Flags, wnd: u16, mss: Option<u16>, data: Payload)

  /** The uip_flags, data and uip_mss() an application callback sees. */
  datatype Callback = Callback(
    nameonly ackdata: bool := false, nameonly newdata: bool := false, nameonly rexmit: bool := false,
    nameonly poll: bool := false, nameonly close: bool := false, nameonly abort: bool := false,
    nameonly connected: bool := false, nameonly timedout: bool := false,
    nameonly data: Payload := [], nameonly mss: u16)

  /**
    What the callback leaves behind: the send buffer, uip_slen, which of uip_close() and uip_abort()
    replaced uip_flags last, which of uip_stop() and uip_restart() touched UIP_STOPPED last, and
    whether a uip_restart() after the last replacement set UIP_NEWDATA.
   */
  datatype Control = Continue | Close | Abort
  datatype Flow = Keep | Stop | Restart
  datatype Reply = Reply(area: seq<byte>, slen: u16, ctl: Control, flow: Flow, restarted: bool)

  datatype Out = Out(conn: Conn, sent: Option<Segment>, call: Option<Callback>)

  /** uip_add32 on numbers: addition modulo 2^32. */
  function Add32(x: u32, n: nat): u32
    requires n <= 0x1_0000
  {
    if x + n < 0x1_0000_0000 then x + n else x + n - 0x1_0000_0000
  }

  /** uip_stop() and uip_restart() on the connection of the callback. */
  function Apply(c: Conn, f: Flow): Conn {
    match f
    case Keep => c
    case Stop => c.(stopped := true)
    case Restart => c.(stopped := false)
  }

  // ---- Segments ----

  /** The header that label tcp_send fills in; m is UIP_TCP_MSS, which is also the receive window. */
  function Header(m: u16, c: Conn, flags: Flags, data: Payload): Segment {
    Segment(c.sndNxt, c.rcvNxt, flags, if c.stopped then 0 else m, None, data)
  }

  function SynSegment(m: u16, c: Conn, flags: Flags): Segment {
    Header(m, c, flags, []).(mss := Some(m))
  }

  const ACK := Flags(ack := true)
  const FINACK := Flags(ack := true, fin := true)
  const RSTACK := Flags(ack := true, rst := true)
  const PSHACK := Flags(ack := true, psh := true)
  const SYN := Flags(syn := true)
  const SYNACK := Flags(syn := true, ack := true)

  /** Label reset: the answer to a segment without a connection, none to a reset. */
  function ResetFor(s: Segment): Option<Segment> {
    if s.flags.rst then None
    else Some(Segment(s.ackno, Add32(s.seqno, 1), RSTACK, s.wnd, None, []))
  }

  // ---- Application send ----

  /** Label apprexmit. */
  function AppRexmit(m: u16, c: Conn, newdata: bool, slen: u16, area: seq<byte>): Option<Segment> {
    if slen > 0 && c.len > 0 then Some(Header(m, c, PSHACK, Take(area, c.len)))
    else if newdata then Some(Header(m, c, ACK, []))
    else None
  }

  /** Label appsend, on the connection as the callback left it. */
  function AppSend(m: u16, c: Conn, cb: Callback, r: Reply): Out {
    if r.ctl == Abort then
      var c' := c.(state := CLOSED, stopped := false);
      Out(c', Some(Header(m, c', RSTACK, [])), Some(cb))
    else if r.ctl == Close then
      var c' := c.(len := 1, state := FIN_WAIT_1, stopped := false, nrtx := 0);
      Out(c', Some(Header(m, c', FINACK, [])), Some(cb))
    else
      var pending := if r.slen > 0 && cb.ackdata then 0 else c.len;
      var len := if r.slen > 0 && pending == 0 then Min(r.slen, c.mss) else pending;
      var slen := if r.slen > 0 then len else 0;
      var c' := c.(len := len, nrtx := 0);
      Out(c', AppRexmit(m, c', cb.newdata || r.restarted, slen, r.area), Some(cb))
  }

  // ---- Periodic timer ----

  function Backoff(nrtx: byte): byte {
    match nrtx
    case 0 => 3
    case 1 => 6
    case 2 => 12
    case 3 => 24
    case _ => 48
  }

  predicate GivesUp(c: Conn) {
    c.nrtx == UIP_MAXRTX || ((c.Is(SYN_SENT) || c.Is(SYN_RCVD)) && c.nrtx == UIP_MAXSYNRTX)
  }

  /** uip_process(UIP_TIMER) on one connection. */
  function Timer(m: u16, c: Conn, r: Reply): Out {
    if c.Is(TIME_WAIT) || c.Is(FIN_WAIT_2) then
      var t := Wrap8(c.timer + 1);
      Out(c.(timer := t, state := if t == UIP_TIME_WAIT_TIMEOUT then CLOSED else c.state), None, None)
    else if c.Is(CLOSED) then Out(c, None, None)
    else if c.len > 0 then
      if c.timer > 0 then Out(c.(timer := c.timer - 1), None, None)
      else if GivesUp(c) then
        var c' := Apply(c.(timer := 255, state := CLOSED, stopped := false), r.flow);
        Out(c', Some(Header(m, c', RSTACK, [])), Some(Callback(timedout := true, mss := c.mss)))
      else
        Retransmit(m, c.(timer := Backoff(c.nrtx), nrtx := Wrap8(c.nrtx + 1)), r)
    else if c.state == ESTABLISHED then
      AppSend(m, Apply(c, r.flow), Callback(poll := true, mss := c.mss), r)
    else Out(c, None, None)
  }

  function Retransmit(m: u16, c: Conn, r: Reply): Out {
    match c.state
    case SYN_RCVD => Out(c, Some(SynSegment(m, c, SYNACK)), None)
    case SYN_SENT => Out(c, Some(SynSegment(m, c, SYN)), None)
    case ESTABLISHED =>
      var c' := Apply(c, r.flow);
      Out(c', AppRexmit(m, c', r.restarted, r.slen, r.area), Some(Callback(rexmit := true, mss := c.mss)))
    case FIN_WAIT_1 | CLOSING | LAST_ACK => Out(c, Some(Header(m, c, FINACK, [])), None)
    case CLOSED | FIN_WAIT_2 | TIME_WAIT => Out(c, None, None)
  }

  // ---- Opening ----

  /** uip_connect on a chosen slot; the receive state of the slot is left as it was. */
  function ActiveOpen(m: u16, c: Conn, iss: u32, ripaddr: u32, lport: u16, rport: u16): Conn {
    c.(state := SYN_SENT, stopped := false, sndNxt := iss, initialmss := m, mss := m, len := 1, nrtx := 0,
       timer := 1, rto := UIP_RTO, sa := 0, sv := 16, lport := lport, rport := rport, ripaddr := ripaddr)
  }

  function ClampMss(m: u16, offered: u16): u16 { if offered > m then m else offered }

  function ReadMss(m: u16, c: Conn, s: Segment): Conn {
    match s.mss
    case None => c
    case Some(v) => c.(initialmss := ClampMss(m, v), mss := ClampMss(m, v))
  }

  /** Label found_listen on a chosen slot: the fields that do not depend on the options. */
  function Fill(c: Conn, iss: u32, ripaddr: u32, lport: u16, rport: u16, seqno: u32): Conn {
    c.(rto := UIP_RTO, timer := UIP_RTO, sa := 0, sv := 4, nrtx := 0,
       lport := lport, rport := rport, ripaddr := ripaddr,
       state := SYN_RCVD, stopped := false, sndNxt := iss, len := 1, rcvNxt := Add32(seqno, 1))
  }

  function PassiveOpen(m: u16, c: Conn, iss: u32, ripaddr: u32, lport: u16, rport: u16, s: Segment): Out {
    var c' := ReadMss(m, Fill(c, iss, ripaddr, lport, rport, s.seqno), s);
    Out(c', Some(SynSegment(m, c', SYNACK)), None)
  }

  // ---- Input for a matched connection ----

  /** The check before any state is touched: data, SYN and FIN must arrive in sequence. */
  predicate InSequence(c: Conn, s: Segment) {
    || (c.state == SYN_SENT && s.flags == SYNACK)
    || (c.state == SYN_RCVD && s.flags == SYN)
    || !(s.data != [] || s.flags.syn || s.flags.fin)
    || s.seqno == c.rcvNxt
  }

  predicate Acks(c: Conn, s: Segment) {
    s.flags.ack && c.len > 0 && s.ackno == Add32(c.sndNxt, c.len)
  }

  /** The signed error of a round-trip sample against the smoothed estimate. */
  function SampleError(c: Conn): int {
    Signed8(Signed8(c.rto - c.timer) - c.sa / 8)
  }

  /** The correction of the deviation for an error m. */
  function DeviationStep(m: int, sv: byte): int
    requires -0x80 <= m < 0x80
  {
    Signed8((if m < 0 then Signed8(-m) else m) - sv / 4)
  }

  /** The round-trip estimator in 8-bit arithmetic. */
  function Estimate(c: Conn): Conn {
    var m := SampleError(c);
    var sa := Wrap8(c.sa + m);
    var sv := Wrap8(c.sv + DeviationStep(m, c.sv));
    c.(sa := sa, sv := sv, rto := Wrap8(sa / 8 + sv))
  }

  function AckStage(c: Conn, s: Segment): Conn {
    if Acks(c, s) then
      var c' := c.(sndNxt := s.ackno);
      var e := if c.nrtx == 0 then Estimate(c') else c';
      e.(timer := e.rto, len := 0)
    else c
  }

  function Receive(c: Conn, n: nat): Conn
    requires n <= 0x1_0000
  {
    c.(rcvNxt := Add32(c.rcvNxt, n))
  }

  /** The window rule of the ESTABLISHED state: zero counts as the initial segment size. */
  function WindowMss(c: Conn, wnd: u16): u16 {
    if wnd > c.initialmss || wnd == 0 then c.initialmss else wnd
  }

  /** Everything uip_process does from label found on. */
  function Input(m: u16, c: Conn, s: Segment, r: Reply): Out {
    if s.flags.rst then
      Out(Apply(c.(state := CLOSED, stopped := false), r.flow), None, Some(Callback(abort := true, mss := c.mss)))
    else if !InSequence(c, s) then
      Out(c, Some(Header(m, c, ACK, [])), None)
    else
      Dispatch(m, AckStage(c, s), s, Acks(c, s), r)
  }

  /** The switch on the state; `acked` is UIP_ACKDATA. */
  function Dispatch(m: u16, c: Conn, s: Segment, acked: bool, r: Reply): Out {
    match c.state
    case CLOSED => Out(c, None, None)
    case SYN_RCVD => InSynRcvd(m, c, s, acked, r)
    case SYN_SENT => InSynSent(m, c, s, acked, r)
    case ESTABLISHED => InEstablished(m, c, s, acked, r)
    case LAST_ACK =>
      if acked then Out(Apply(c.(state := CLOSED, stopped := false), r.flow), None, Some(Callback(close := true, mss := c.mss)))
      else Out(c, None, None)
    case FIN_WAIT_1 => InFinWait1(m, Receive(c, |s.data|), s, acked, r)
    case FIN_WAIT_2 => InFinWait2(m, Receive(c, |s.data|), s, r)
    case TIME_WAIT => Out(c, Some(Header(m, c, ACK, [])), None)
    case CLOSING =>
      Out(if acked then c.(state := TIME_WAIT, stopped := false, timer := 0) else c, None, None)
  }

  function InSynRcvd(m: u16, c: Conn, s: Segment, acked: bool, r: Reply): Out {
    if acked then
      var c' := Receive(c.(state := ESTABLISHED, stopped := false, len := 0), |s.data|);
      AppSend(m, Apply(c', r.flow), Callback(connected := true, newdata := s.data != [], data := s.data, mss := c.mss), r)
    else if s.flags == SYN then Out(c, Some(SynSegment(m, c, SYNACK)), None)
    else Out(c, None, None)
  }

  function InSynSent(m: u16, c: Conn, s: Segment, acked: bool, r: Reply): Out {
    if acked && s.flags == SYNACK then
      var c' := ReadMss(m, c, s).(state := ESTABLISHED, stopped := false, rcvNxt := Add32(s.seqno, 1), len := 0);
      AppSend(m, Apply(c', r.flow), Callback(connected := true, newdata := true, mss := c'.mss), r)
    else
      Out(c.(state := CLOSED, stopped := false), ResetFor(s), Some(Callback(abort := true, mss := c.mss)))
  }

  function InEstablished(m: u16, c: Conn, s: Segment, acked: bool, r: Reply): Out {
    if s.flags.fin && !c.stopped then
      if c.len > 0 then Out(c, None, None)
      else
        var c' := Receive(c, 1 + |s.data|).(len := 1, state := LAST_ACK, nrtx := 0);
        Out(c', Some(Header(m, c', FINACK, [])),
            Some(Callback(ackdata := acked, close := true, newdata := s.data != [], data := s.data, mss := c.mss)))
    else
      var newdata := s.data != [] && !c.stopped;
      var c' := (if newdata then Receive(c, |s.data|) else c).(mss := WindowMss(c, s.wnd));
      if newdata || acked then
        AppSend(m, Apply(c', r.flow),
                Callback(ackdata := acked, newdata := newdata, data := if newdata then s.data else [], mss := c'.mss), r)
      else Out(c', None, None)
  }

  /** FIN_WAIT_1, after any data has been counted as received. */
  function InFinWait1(m: u16, c: Conn, s: Segment, acked: bool, r: Reply): Out {
    if s.flags.fin then
      var c0 := if acked then c.(state := TIME_WAIT, stopped := false, timer := 0, len := 0)
                else c.(state := CLOSING, stopped := false);
      var c' := Apply(Receive(c0, 1), r.flow);
      Out(c', Some(Header(m, c', ACK, [])), Some(Callback(close := true, mss := c.mss)))
    else if acked then Out(c.(state := FIN_WAIT_2, stopped := false, len := 0), None, None)
    else if s.data != [] then Out(c, Some(Header(m, c, ACK, [])), None)
    else Out(c, None, None)
  }

  function InFinWait2(m: u16, c: Conn, s: Segment, r: Reply): Out {
    if s.flags.fin then
      var c' := Apply(Receive(c.(state := TIME_WAIT, stopped := false, timer := 0), 1), r.flow);
      Out(c', Some(Header(m, c', ACK, [])), Some(Callback(close := true, mss := c.mss)))
    else if s.data != [] then Out(c, Some(Header(m, c, ACK, [])), None)
    else Out(c, None, None)
  }

  /** A segment that may only carry data and an acknowledgement. */
  predicate Plain(s: Segment) { !s.flags.syn && !s.flags.fin && !s.flags.rst }

  /** The bytes an event showed to the application as new data. */
  function Shown(o: Out): seq<byte> {
    if o.call.Some? && o.call.value.newdata then o.call.value.data else []
  }
}
