/** What every step of a connection keeps, whatever arrives and whatever the application does. */
module TcpInvariant {
  import opened Bytes
  import opened Tcp

  /** Everything that can happen to one slot of the connection table. */
  datatype SlotEvent =
    | Tick(r: Reply)
    | Arrival(s: Segment, r: Reply)
    | Connect(iss: u32, ripaddr: u32, lport: u16, rport: u16)
    | Listen(iss: u32, ripaddr: u32, lport: u16, rport: u16, syn: Segment)

  /** Slots are taken for a new connection when free, or when waiting in TIME_WAIT. */
  predicate Reusable(c: Conn) { c.Is(CLOSED) || c.Is(TIME_WAIT) }

  predicate Possible(c: Conn, e: SlotEvent) {
    (e.Connect? || e.Listen?) ==> Reusable(c)
  }

  function SlotStep(m: u16, c: Conn, e: SlotEvent): Conn {
    match e
    case Tick(r) => Timer(m, c, r).conn
    case Arrival(s, r) => Input(m, c, s, r).conn
    case Connect(iss, ip, lp, rp) => ActiveOpen(m, c, iss, ip, lp, rp)
    case Listen(iss, ip, lp, rp, syn) => PassiveOpen(m, c, iss, ip, lp, rp, syn).conn
  }

  function SlotRun(m: u16, c: Conn, es: seq<SlotEvent>): Conn
    decreases es
  {
    if es == [] then c else SlotRun(m, SlotStep(m, c, es[0]), es[1..])
  }

  predicate PossibleRun(m: u16, c: Conn, es: seq<SlotEvent>)
    decreases es
  {
    es != [] ==> Possible(c, es[0]) && PossibleRun(m, SlotStep(m, c, es[0]), es[1..])
  }

  const ZeroConn := Conn(0, 0, 0, 0, 0, 0, 0, 0, 0, 0, 0, CLOSED, false, 0, 0)

  predicate Valid(m: u16, c: Conn) {
    && c.mss <= c.initialmss <= m
    && c.nrtx <= UIP_MAXRTX
    && (c.stopped ==> c.state in {ESTABLISHED, CLOSING, TIME_WAIT, CLOSED})
    && (match c.state
        case SYN_SENT | SYN_RCVD => c.len == 1 && c.nrtx <= UIP_MAXSYNRTX
        case FIN_WAIT_1 | CLOSING | LAST_ACK => c.len == 1
        case FIN_WAIT_2 => c.len == 0
        case TIME_WAIT => c.len == 0 && c.timer < UIP_TIME_WAIT_TIMEOUT
        case ESTABLISHED => c.len <= c.initialmss
        case CLOSED => true)
  }

  /**
    The state diagram of section 3.2 of RFC 793 without LISTEN and CLOSE_WAIT, with resets, timeouts
    and the reuse of a waiting slot. A connection that the application closes from the callback that
    establishes it passes through ESTABLISHED within one step.
   */
  predicate Edge(s: State, t: State) {
    s == t || match s
    case CLOSED => t in {SYN_SENT, SYN_RCVD}
    case SYN_SENT | SYN_RCVD => t in {ESTABLISHED, FIN_WAIT_1, CLOSED}
    case ESTABLISHED => t in {FIN_WAIT_1, LAST_ACK, CLOSED}
    case FIN_WAIT_1 => t in {FIN_WAIT_2, CLOSING, TIME_WAIT, CLOSED}
    case FIN_WAIT_2 => t in {TIME_WAIT, CLOSED}
    case CLOSING => t in {TIME_WAIT, CLOSED}
    case TIME_WAIT => t in {CLOSED, SYN_SENT, SYN_RCVD}
    case LAST_ACK => t == CLOSED
  }

  lemma TimerKeepsValid(m: u16, c: Conn, r: Reply)
    requires Valid(m, c)
    ensures Valid(m, Timer(m, c, r).conn)
    ensures Edge(c.state, Timer(m, c, r).conn.state)
  {
  }

  lemma AppSendKeepsValid(m: u16, c: Conn, cb: Callback, r: Reply)
    requires c.state == ESTABLISHED && c.mss <= c.initialmss <= m && c.nrtx <= UIP_MAXRTX && c.len <= c.initialmss
    ensures Valid(m, AppSend(m, c, cb, r).conn)
    ensures AppSend(m, c, cb, r).conn.state in {ESTABLISHED, FIN_WAIT_1, CLOSED}
  {
  }

  /** The acknowledgement stage touches neither the state nor the segment sizes. */
  lemma AckStageFrame(c: Conn, s: Segment)
    ensures
      var a := AckStage(c, s);
      && a.state == c.state && a.stopped == c.stopped && a.nrtx == c.nrtx && a.rcvNxt == c.rcvNxt
      && a.mss == c.mss && a.initialmss == c.initialmss
      && a.len == (if Acks(c, s) then 0 else c.len)
      && (!Acks(c, s) ==> a == c)
  {
  }

  lemma EstablishedKeepsValid(m: u16, c: Conn, s: Segment, acked: bool, r: Reply)
    requires Valid(m, c) && c.state == ESTABLISHED
    ensures Valid(m, InEstablished(m, c, s, acked, r).conn)
    ensures Edge(ESTABLISHED, InEstablished(m, c, s, acked, r).conn.state)
  {
    if !(s.flags.fin && !c.stopped) {
      var newdata := s.data != [] && !c.stopped;
      var c' := (if newdata then Receive(c, |s.data|) else c).(mss := WindowMss(c, s.wnd));
      AppSendKeepsValid(m, Apply(c', r.flow),
        Callback(ackdata := acked, newdata := newdata, data := if newdata then s.data else [], mss := c'.mss), r);
    }
  }

  lemma DispatchKeepsValid(m: u16, c: Conn, s: Segment, acked: bool, r: Reply)
    requires if acked then Valid(m, c.(len := if c.state in {SYN_SENT, SYN_RCVD, FIN_WAIT_1, CLOSING, LAST_ACK} then 1 else c.len))
                           && c.len == 0 && c.state !in {FIN_WAIT_2, TIME_WAIT}
             else Valid(m, c)
    ensures Valid(m, Dispatch(m, c, s, acked, r).conn)
    ensures Edge(c.state, Dispatch(m, c, s, acked, r).conn.state)
  {
    match c.state
    case SYN_RCVD =>
      if acked {
        var c' := Receive(c.(state := ESTABLISHED, stopped := false, len := 0), |s.data|);
        AppSendKeepsValid(m, Apply(c', r.flow),
                          Callback(connected := true, newdata := s.data != [], data := s.data, mss := c.mss), r);
      }
    case SYN_SENT =>
      if acked && s.flags == SYNACK {
        var c' := ReadMss(m, c, s).(state := ESTABLISHED, stopped := false, rcvNxt := Add32(s.seqno, 1), len := 0);
        AppSendKeepsValid(m, Apply(c', r.flow), Callback(connected := true, newdata := true, mss := c'.mss), r);
      }
    case ESTABLISHED =>
      EstablishedKeepsValid(m, c, s, acked, r);
    case _ =>
  }

  lemma InputKeepsValid(m: u16, c: Conn, s: Segment, r: Reply)
    requires Valid(m, c)
    ensures Valid(m, Input(m, c, s, r).conn)
    ensures Edge(c.state, Input(m, c, s, r).conn.state)
  {
    AckStageFrame(c, s);
    if !s.flags.rst && InSequence(c, s) {
      DispatchKeepsValid(m, AckStage(c, s), s, Acks(c, s), r);
    }
  }

  lemma StepKeepsValid(m: u16, c: Conn, e: SlotEvent)
    requires Valid(m, c) && Possible(c, e)
    ensures Valid(m, SlotStep(m, c, e))
    ensures Edge(c.state, SlotStep(m, c, e).state)
  {
    match e
    case Tick(r) => TimerKeepsValid(m, c, r);
    case Arrival(s, r) => InputKeepsValid(m, c, s, r);
    case Connect(_, _, _, _) =>
    case Listen(_, _, _, _, _) =>
  }

  /** Every reachable state of a slot is valid. */
  lemma {:induction false} RunKeepsValid(m: u16, c: Conn, es: seq<SlotEvent>)
    requires Valid(m, c) && PossibleRun(m, c, es)
    ensures Valid(m, SlotRun(m, c, es))
    decreases es
  {
    if es == [] {
    } else {
      StepKeepsValid(m, c, es[0]);
      RunKeepsValid(m, SlotStep(m, c, es[0]), es[1..]);
    }
  }

  lemma AppSendMoves(m: u16, r: Reply)
    ensures forall c, cb ::
      var o := AppSend(m, c, cb, r);
      && o.conn.sndNxt == c.sndNxt && o.conn.rcvNxt == c.rcvNxt && o.call == Some(cb)
      && o.conn.state in {c.state, FIN_WAIT_1, CLOSED}
      && (r.ctl == Continue ==> o.conn.state == c.state && o.conn.stopped == c.stopped)
  {
  }

  lemma OthersKeepNumber(m: u16, c: Conn, s: Segment, acked: bool, r: Reply)
    ensures Dispatch(m, c, s, acked, r).conn.sndNxt == c.sndNxt
  {
    AppSendMoves(m, r);
  }

  /**
    Why the state changed: ESTABLISHED needs the acknowledgement of our SYN, LAST_ACK and CLOSING a FIN
    in sequence, and the states after our FIN the acknowledgement of that FIN.
   */
  lemma CausesOfChange(m: u16, c: Conn, s: Segment, r: Reply)
    requires Valid(m, c) && !s.flags.rst
    ensures
      var c' := Input(m, c, s, r).conn;
      var acked := InSequence(c, s) && Acks(c, s);
      var fin := s.flags.fin && s.seqno == c.rcvNxt;
      && (c.state in {SYN_SENT, SYN_RCVD} && c'.state in {ESTABLISHED, FIN_WAIT_1} ==> acked)
      && (c.state != LAST_ACK && c'.state == LAST_ACK ==> fin && (c.len == 0 || acked))
      && (c.state != CLOSING && c'.state == CLOSING ==> fin && !acked)
      && (c.state == FIN_WAIT_1 && c'.state == TIME_WAIT ==> fin && acked)
      && (c.state == FIN_WAIT_2 && c'.state == TIME_WAIT ==> fin)
      && (c.state == FIN_WAIT_1 && c'.state == FIN_WAIT_2 ==> acked && !s.flags.fin)
      && (c.state == CLOSING && c'.state == TIME_WAIT ==> acked)
      && (c.state == LAST_ACK && c'.state == CLOSED ==> acked)
      && (c.state in {FIN_WAIT_1, FIN_WAIT_2, CLOSING, TIME_WAIT} ==> c'.state != CLOSED)
      && (acked ==> c'.sndNxt == Add32(c.sndNxt, c.len))
      && (!acked ==> c'.sndNxt == c.sndNxt)
  {
    AckStageFrame(c, s);
    AppSendMoves(m, r);
    OthersKeepNumber(m, AckStage(c, s), s, Acks(c, s), r);
  }
}
