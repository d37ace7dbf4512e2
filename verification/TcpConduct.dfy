/**
  What a connection says and to whom it reports: the segment and the callback of every event, from the segment, the
  state and the application's reply.
 */
module TcpConduct {
  import opened Bytes
  import opened Tcp
  import opened TcpInvariant

  /** The application has nothing to send and did not call uip_restart. */
  predicate Silent(r: Reply) { r.slen == 0 && r.ctl == Continue && !r.restarted && r.flow == Keep }

  /** A segment without data, with exactly these flags and without options. */
  predicate Bare(g: Segment, flags: Flags) { g.flags == flags && g.data == [] && g.mss == None }

  predicate SendsBare(o: Out, flags: Flags) { o.sent.Some? && Bare(o.sent.value, flags) }

  /** Data, SYN or FIN at another place of the stream than the one expected. */
  predicate Misplaced(c: Conn, s: Segment) {
    (s.data != [] || s.flags.syn || s.flags.fin) && s.seqno != c.rcvNxt
  }

  /** The SYNACK that SYN_SENT waits for, at whatever sequence number. */
  predicate CompletesOpen(c: Conn, s: Segment) { c.state == SYN_SENT && s.flags == SYNACK && Acks(c, s) }

  /** The FIN of the peer is counted: everything outstanding before it is acknowledged. */
  predicate BringsFin(c: Conn, s: Segment) {
    s.flags.fin && s.seqno == c.rcvNxt
    && match c.state
       case ESTABLISHED => !c.stopped && (c.len == 0 || Acks(c, s))
       case FIN_WAIT_1 | FIN_WAIT_2 => true
       case _ => false
  }

  /** A segment that is looked at: no reset, and in sequence or part of the handshake. */
  predicate Accepted(c: Conn, s: Segment) {
    !s.flags.rst && (!Misplaced(c, s) || (c.state == SYN_SENT && s.flags == SYNACK) || (c.state == SYN_RCVD && s.flags == SYN))
  }

  // ---- Header fields ----

  /** The fields every segment of a connection carries: its numbers, and no window once it is stopped. */
  predicate OfConnection(m: u16, c: Conn, g: Segment) {
    g.seqno == c.sndNxt && g.ackno == c.rcvNxt && g.wnd == (if c.stopped then 0 else m)
  }

  lemma AppSendIsOfConnection(m: u16, r: Reply)
    ensures forall c: Conn, cb ::
      var o := AppSend(m, c, cb, r); o.sent.Some? ==> OfConnection(m, o.conn, o.sent.value)
  {
  }

  /**
    Every segment carries the numbers and the window of the connection as the event leaves it, except the refusal
    in SYN_SENT, whose numbers are those of the segment it answers.
   */
  lemma HeaderOfConnection(m: u16, c: Conn, s: Segment, r: Reply)
    ensures
      var o := Input(m, c, s, r);
      o.sent.Some? ==>
        if c.state == SYN_SENT && Accepted(c, s) && !CompletesOpen(c, s) then Refuses(o.sent, s) else OfConnection(m, o.conn, o.sent.value)
  {
    AppSendIsOfConnection(m, r);
    AckStageFrame(c, s);
  }

  lemma HeaderOfTick(m: u16, c: Conn, r: Reply)
    ensures var o := Timer(m, c, r); o.sent.Some? ==> OfConnection(m, o.conn, o.sent.value)
  {
    AppSendIsOfConnection(m, r);
  }

  /** The reset of section 3.4 of RFC 793 as this stack sends it; a reset is never answered by one. */
  predicate Refuses(sent: Option<Segment>, s: Segment) {
    if s.flags.rst then sent == None
    else sent.Some? && Bare(sent.value, Flags(rst := true, ack := true))
         && sent.value.seqno == s.ackno && sent.value.ackno == (if s.seqno == 0xffff_ffff then 0 else s.seqno + 1)
         && sent.value.wnd == s.wnd
  }

  lemma ResetRefuses(s: Segment)
    ensures Refuses(ResetFor(s), s)
  {
  }

  // ---- Acknowledgements ----

  /**
    Whatever a segment adds to the stream is acknowledged by the segment sent in the same step, whatever the
    application replies; only data that comes with the acknowledgement of the own FIN has to wait.
   */
  lemma ReceivedIsAcknowledged(m: u16, c: Conn, s: Segment, r: Reply)
    requires Valid(m, c)
    ensures
      var o := Input(m, c, s, r);
      o.conn.rcvNxt != c.rcvNxt ==>
        if c.state == FIN_WAIT_1 && Acks(c, s) && !s.flags.fin then o.sent == None
        else o.sent.Some? && o.sent.value.flags.ack && o.sent.value.ackno == o.conn.rcvNxt
  {
    AckStageFrame(c, s);
    AppSendAnswers(m, r);
  }

  lemma AppSendAnswers(m: u16, r: Reply)
    ensures forall c: Conn, cb ::
      var o := AppSend(m, c, cb, r);
      && o.conn.rcvNxt == c.rcvNxt && o.call == Some(cb)
      && (cb.newdata ==> o.sent.Some?)
      && (o.sent.Some? ==> o.sent.value.flags.ack && o.sent.value.ackno == c.rcvNxt)
      && (Silent(r) && !cb.newdata ==> o.sent == None)
  {
  }

  /** Data in sequence at a running connection is answered by an acknowledgement of all of it, whatever is replied. */
  lemma DataIsAcknowledged(m: u16, c: Conn, s: Segment, r: Reply)
    requires c.Is(ESTABLISHED) && Plain(s) && s.data != [] && s.seqno == c.rcvNxt
    ensures
      var o := Input(m, c, s, r);
      o.sent.Some? && o.sent.value.flags.ack && o.sent.value.ackno == Add32(s.seqno, |s.data|)
  {
    AckStageFrame(c, s);
    AppSendAnswers(m, r);
  }

  /** So are the data that complete a passive open and the SYNACK that completes an active one. */
  lemma HandshakeIsAcknowledged(m: u16, c: Conn, s: Segment, r: Reply)
    requires Acks(c, s) && !s.flags.rst
    ensures
      var o := Input(m, c, s, r);
      && (c.state == SYN_RCVD && s.data != [] && s.seqno == c.rcvNxt ==>
            o.sent.Some? && o.sent.value.flags.ack && o.sent.value.ackno == Add32(s.seqno, |s.data|))
      && (c.state == SYN_SENT && s.flags == SYNACK ==>
            o.sent.Some? && o.sent.value.flags.ack && o.sent.value.ackno == Add32(s.seqno, 1))
  {
    AckStageFrame(c, s);
    AppSendAnswers(m, r);
  }

  /**
    Two ends never answer acknowledgements with acknowledgements: a bare one draws no segment from a silent
    application, except in TIME_WAIT, and in SYN_SENT, where it is refused.
   */
  lemma BareSegmentDrawsNothing(m: u16, c: Conn, s: Segment, r: Reply)
    requires Plain(s) && s.data == [] && Silent(r)
    ensures
      var o := Input(m, c, s, r);
      if c.state == TIME_WAIT then SendsBare(o, Flags(ack := true))
      else if c.state == SYN_SENT then Refuses(o.sent, s)
      else o.sent == None
  {
    AckStageFrame(c, s);
    AppSendAnswers(m, r);
  }

  /** Neither does a stopped connection answer data; it is the window that is closed. */
  lemma StoppedIgnoresData(m: u16, c: Conn, s: Segment, r: Reply)
    requires c.state == ESTABLISHED && c.stopped && Plain(s) && s.seqno == c.rcvNxt && Silent(r)
    ensures
      var o := Input(m, c, s, r);
      o.sent == None && o.conn.rcvNxt == c.rcvNxt && Shown(o) == []
  {
    AckStageFrame(c, s);
    AppSendAnswers(m, r);
  }

  /** Misplaced segments are answered by an acknowledgement of what is expected, and nothing else happens. */
  lemma MisplacedIsAcknowledged(m: u16, c: Conn, s: Segment, r: Reply)
    requires !s.flags.rst && !Accepted(c, s)
    ensures
      var o := Input(m, c, s, r);
      o.conn == c && o.call == None && SendsBare(o, Flags(ack := true)) && o.sent.value.ackno == c.rcvNxt
  {
  }

  /** A SYN that comes again, at whatever number, is answered by the same SYNACK again. */
  lemma RepeatedSynIsAnswered(m: u16, c: Conn, s: Segment, r: Reply)
    requires c.Is(SYN_RCVD) && s.flags == Flags(syn := true)
    ensures
      var o := Input(m, c, s, r);
      && o.conn == c && o.call == None && o.sent.Some? && OfConnection(m, c, o.sent.value)
      && o.sent.value.flags == Flags(syn := true, ack := true) && o.sent.value.mss == Some(m) && o.sent.value.data == []
  {
  }

  /** In TIME_WAIT every segment but a reset is acknowledged, and the time left is not prolonged. */
  lemma TimeWaitAnswers(m: u16, c: Conn, s: Segment, r: Reply)
    requires Valid(m, c) && c.state == TIME_WAIT && !s.flags.rst
    ensures
      var o := Input(m, c, s, r);
      o.conn == c && o.call == None && SendsBare(o, Flags(ack := true)) && o.sent.value.ackno == c.rcvNxt
  {
  }

  // ---- Ends of a connection ----

  /** A reset closes every connection and is reported; nothing is sent. */
  lemma ResetIsReported(m: u16, c: Conn, s: Segment, r: Reply)
    requires s.flags.rst
    ensures
      var o := Input(m, c, s, r);
      && o.conn.state == CLOSED && o.sent == None && o.call == Some(Callback(abort := true, mss := c.mss))
      && o.conn.stopped == (r.flow == Stop)
  {
  }

  /** SYN_SENT refuses whatever it looks at that is not the SYNACK it waits for, and reports an abort. */
  lemma SynSentRefuses(m: u16, c: Conn, s: Segment, r: Reply)
    requires c.state == SYN_SENT && Accepted(c, s) && !CompletesOpen(c, s)
    ensures
      var o := Input(m, c, s, r);
      o.conn.Is(CLOSED) && Refuses(o.sent, s) && o.call == Some(Callback(abort := true, mss := c.mss))
  {
    AckStageFrame(c, s);
  }

  /**
    The FIN of the peer at a running connection is answered by an own FIN that acknowledges it and all data before
    it, and reported with these data; while something is outstanding the segment is ignored.
   */
  lemma FinIsAnswered(m: u16, c: Conn, s: Segment, r: Reply)
    requires c.Is(ESTABLISHED) && s.flags.fin && !s.flags.rst && s.seqno == c.rcvNxt
    ensures
      var o := Input(m, c, s, r);
      if c.len == 0 || Acks(c, s) then
        && o.conn.Is(LAST_ACK) && o.conn.len == 1 && o.conn.nrtx == 0
        && SendsBare(o, Flags(fin := true, ack := true)) && o.sent.value.ackno == Add32(s.seqno, 1 + |s.data|)
        && o.sent.value.seqno == (if Acks(c, s) then s.ackno else c.sndNxt)
        && o.call == Some(Callback(close := true, ackdata := Acks(c, s), newdata := s.data != [], data := s.data, mss := c.mss))
      else o.conn == c && o.sent == None && o.call == None
  {
    AckStageFrame(c, s);
  }

  /** After an own FIN that of the peer is acknowledged and reported, with everything that came before it counted. */
  lemma FinAfterOwnIsAnswered(m: u16, c: Conn, s: Segment, r: Reply)
    requires c.state in {FIN_WAIT_1, FIN_WAIT_2} && s.flags.fin && !s.flags.rst && s.seqno == c.rcvNxt && |s.data| < 0xffff
    ensures
      var o := Input(m, c, s, r);
      && SendsBare(o, Flags(ack := true)) && o.sent.value.ackno == Add32(Add32(s.seqno, |s.data|), 1)
      && o.call == Some(Callback(close := true, mss := c.mss))
      && o.conn.state == (if c.state == FIN_WAIT_1 && !Acks(c, s) then CLOSING else TIME_WAIT)
      && (o.conn.state == TIME_WAIT ==> o.conn.timer == 0)
  {
    AckStageFrame(c, s);
  }

  /** The acknowledgement of the own FIN: without a FIN of the peer nothing is sent or reported, in LAST_ACK the end is. */
  lemma OwnFinIsAcknowledged(m: u16, c: Conn, s: Segment, r: Reply)
    requires Accepted(c, s) && Acks(c, s) && !s.flags.fin
    ensures
      var o := Input(m, c, s, r);
      match c.state
      case FIN_WAIT_1 => o.conn.Is(FIN_WAIT_2) && o.conn.len == 0 && o.sent == None && o.call == None
      case CLOSING => o.conn.Is(TIME_WAIT) && o.conn.timer == 0 && o.conn.len == 0 && o.sent == None && o.call == None
      case LAST_ACK => o.conn.state == CLOSED && o.sent == None && o.call == Some(Callback(close := true, mss := c.mss))
      case _ => true
  {
    AckStageFrame(c, s);
  }

  /** A connection in CLOSED that is still matched, because it was stopped, neither speaks nor reports. */
  lemma ClosedIsMute(m: u16, c: Conn, s: Segment, r: Reply)
    requires c.state == CLOSED && Accepted(c, s)
    ensures Input(m, c, s, r).sent == None && Input(m, c, s, r).call == None
  {
    AckStageFrame(c, s);
  }

  // ---- Callbacks ----

  /** The segment makes the connection call its application under label appsend, which then may send. */
  predicate Consults(c: Conn, s: Segment) {
    Accepted(c, s) && !BringsFin(c, s)
    && match c.state
       case SYN_SENT => CompletesOpen(c, s)
       case SYN_RCVD => Acks(c, s)
       case ESTABLISHED => !(s.flags.fin && !c.stopped) && (Acks(c, s) || (s.data != [] && !c.stopped))
       case _ => false
  }

  /** An application is called exactly for these events, and only once. */
  lemma CalledExactly(m: u16, c: Conn, s: Segment, r: Reply)
    ensures
      Input(m, c, s, r).call.Some? <==>
        || s.flags.rst || Consults(c, s) || (BringsFin(c, s) && !s.flags.rst)
        || (c.state == SYN_SENT && Accepted(c, s))
        || (c.state == LAST_ACK && Accepted(c, s) && Acks(c, s))
  {
    AckStageFrame(c, s);
    AppSendAnswers(m, r);
  }

  /** What uip_connected(), uip_aborted() and uip_closed() tell the application; the other events are those of the timer. */
  lemma CallbackReason(m: u16, c: Conn, s: Segment, r: Reply)
    requires Input(m, c, s, r).call.Some?
    ensures
      var cb := Input(m, c, s, r).call.value;
      && (cb.connected <==> !s.flags.rst && c.state in {SYN_SENT, SYN_RCVD} && Consults(c, s))
      && (cb.abort <==> s.flags.rst || (c.state == SYN_SENT && !CompletesOpen(c, s)))
      && (cb.close <==> !s.flags.rst && (BringsFin(c, s) || c.state == LAST_ACK))
      && !cb.poll && !cb.timedout && !cb.rexmit
  {
    AckStageFrame(c, s);
    AppSendAnswers(m, r);
  }

  /** What uip_acked(), uip_newdata(), uip_datalen() and uip_mss() tell it. */
  lemma CallbackContents(m: u16, c: Conn, s: Segment, r: Reply)
    requires Input(m, c, s, r).call.Some?
    ensures
      var o := Input(m, c, s, r);
      var cb := o.call.value;
      && (cb.ackdata <==> !s.flags.rst && c.state == ESTABLISHED && Acks(c, s))
      && (cb.newdata <==> !s.flags.rst && (CompletesOpen(c, s) || (c.state in {SYN_RCVD, ESTABLISHED} && !StoppedNow(c) && s.data != [])))
      && cb.data == (if cb.newdata && c.state != SYN_SENT then s.data else [])
      && cb.mss == o.conn.mss
  {
    AckStageFrame(c, s);
    AppSendAnswers(m, r);
    AppSendKeepsMss(m, r);
  }

  predicate StoppedNow(c: Conn) { c.state == ESTABLISHED && c.stopped }

  lemma AppSendKeepsMss(m: u16, r: Reply)
    ensures forall c: Conn, cb :: AppSend(m, c, cb, r).conn.mss == c.mss
  {
  }

  // ---- What the application makes the connection send ----

  /** The outcome of a callback after which the application may send, ready being true if nothing is outstanding. */
  ghost predicate ObeysReply(o: Out, newdata: bool, outstanding: u16, r: Reply) {
    match r.ctl
    case Abort => o.conn.Is(CLOSED) && SendsBare(o, Flags(rst := true, ack := true))
    case Close => o.conn.Is(FIN_WAIT_1) && o.conn.len == 1 && o.conn.nrtx == 0 && SendsBare(o, Flags(fin := true, ack := true))
    case Continue =>
      && o.conn.state == ESTABLISHED && o.conn.nrtx == 0
      && (r.flow == Stop ==> o.conn.stopped) && (r.flow == Restart ==> !o.conn.stopped)
      && (outstanding > 0 ==> o.conn.len == outstanding)
      && (outstanding == 0 ==> o.conn.len == (if r.slen < o.conn.mss then r.slen else o.conn.mss))
      && if r.slen > 0 && o.conn.len > 0 then
           o.sent.Some? && o.sent.value.flags == Flags(psh := true, ack := true) && o.sent.value.mss == None
           && o.sent.value.data == Take(r.area, o.conn.len)
         else if newdata || r.restarted then SendsBare(o, Flags(ack := true))
         else o.sent == None
  }

  lemma AppSendObeys(m: u16, c: Conn, cb: Callback, r: Reply)
    requires c.state == ESTABLISHED && (cb.ackdata ==> c.len == 0)
    ensures ObeysReply(AppSend(m, Apply(c, r.flow), cb, r), cb.newdata, c.len, r)
  {
  }

  /**
    After an arrival that consults the application: uip_abort resets, uip_close sends the FIN, and otherwise new data
    go out as far as mss allows if nothing is outstanding, what is outstanding goes out again if it is handed over, and
    without data an acknowledgement goes out for new data or a restart only.
   */
  lemma ReplyIsObeyed(m: u16, c: Conn, s: Segment, r: Reply)
    requires Valid(m, c) && Consults(c, s)
    ensures
      var o := Input(m, c, s, r);
      && o.call.Some?
      && ObeysReply(o, o.call.value.newdata, if Acks(c, s) then 0 else c.len, r)
      && (c.state == ESTABLISHED && r.flow == Keep && r.ctl == Continue ==> o.conn.stopped == c.stopped)
  {
    AckStageFrame(c, s);
    var a := AckStage(c, s);
    match c.state
    case SYN_SENT =>
      var c' := ReadMss(m, a, s).(state := ESTABLISHED, stopped := false, rcvNxt := Add32(s.seqno, 1), len := 0);
      AppSendObeys(m, c', Callback(connected := true, newdata := true, mss := c'.mss), r);
    case SYN_RCVD =>
      var c' := Receive(a.(state := ESTABLISHED, stopped := false, len := 0), |s.data|);
      AppSendObeys(m, c', Callback(connected := true, newdata := s.data != [], data := s.data, mss := a.mss), r);
    case ESTABLISHED =>
      var newdata := s.data != [] && !c.stopped;
      var c' := (if newdata then Receive(a, |s.data|) else a).(mss := WindowMss(a, s.wnd));
      AppSendObeys(m, c', Callback(ackdata := Acks(c, s), newdata := newdata, data := if newdata then s.data else [], mss := c'.mss), r);
  }

  /** An idle established connection polls its application with every tick, and obeys it likewise. */
  lemma PollIsObeyed(m: u16, c: Conn, r: Reply)
    requires c.state == ESTABLISHED && c.len == 0
    ensures
      var o := Timer(m, c, r);
      && o.call == Some(Callback(poll := true, mss := c.mss))
      && ObeysReply(o, false, 0, r)
      && (r.flow == Keep && r.ctl == Continue ==> o.conn.stopped == c.stopped)
  {
    AppSendObeys(m, c, Callback(poll := true, mss := c.mss), r);
  }

  // ---- Sizes, windows and the timer ----

  /** The window of the peer bounds mss, but a window of zero counts as none at all. */
  lemma WindowBoundsMss(m: u16, c: Conn, s: Segment, r: Reply)
    requires c.state == ESTABLISHED && Accepted(c, s) && !(s.flags.fin && !c.stopped)
    ensures Input(m, c, s, r).conn.mss == if 0 < s.wnd <= c.initialmss then s.wnd else c.initialmss
  {
    AckStageFrame(c, s);
    AppSendKeepsMss(m, r);
  }

  /** The segment size option sets both sizes, clamped to UIP_TCP_MSS; without it a slot keeps those it had. */
  lemma OptionSetsSizes(m: u16, c: Conn, iss: u32, ip: u32, lp: u16, rp: u16, s: Segment, r: Reply)
    ensures
      var p := PassiveOpen(m, c, iss, ip, lp, rp, s).conn;
      if s.mss.Some? then p.mss == p.initialmss == (if s.mss.value < m then s.mss.value else m)
      else p.mss == c.mss && p.initialmss == c.initialmss
    ensures CompletesOpen(c, s) && !s.flags.rst ==>
      var o := Input(m, c, s, r).conn;
      if s.mss.Some? then o.mss == o.initialmss == (if s.mss.value < m then s.mss.value else m)
      else o.mss == c.mss && o.initialmss == c.initialmss
  {
    AppSendKeepsSizes(m, r);
    EstimateKeepsSizes(c, s);
  }

  lemma AppSendKeepsSizes(m: u16, r: Reply)
    ensures forall c: Conn, cb :: var o := AppSend(m, c, cb, r).conn; o.mss == c.mss && o.initialmss == c.initialmss
  {
  }

  lemma EstimateKeepsSizes(c: Conn, s: Segment)
    ensures AckStage(c, s).mss == c.mss && AckStage(c, s).initialmss == c.initialmss
  {
  }

  /** An acknowledgement restarts the timer with the estimate, which a retransmitted segment leaves alone (Karn). */
  lemma AckRestartsTimer(m: u16, c: Conn, s: Segment, r: Reply)
    requires c.state == ESTABLISHED && Accepted(c, s) && Acks(c, s)
    ensures
      var o := Input(m, c, s, r).conn;
      o.timer == o.rto && (c.nrtx != 0 ==> o.rto == c.rto && o.sa == c.sa && o.sv == c.sv)
  {
    AppSendKeepsTimes(m, r);
  }

  lemma AppSendKeepsTimes(m: u16, r: Reply)
    ensures forall c: Conn, cb ::
      var o := AppSend(m, c, cb, r).conn; o.timer == c.timer && o.rto == c.rto && o.sa == c.sa && o.sv == c.sv
  {
  }

  /** A passive open answers with a SYNACK that carries this host's segment size, from iss, and waits for its acknowledgement. */
  lemma PassiveOpenAnswers(m: u16, c: Conn, iss: u32, ip: u32, lp: u16, rp: u16, s: Segment)
    ensures
      var o := PassiveOpen(m, c, iss, ip, lp, rp, s);
      && o.conn.Is(SYN_RCVD) && o.conn.len == 1 && o.conn.sndNxt == iss && o.conn.rcvNxt == Add32(s.seqno, 1)
      && o.conn.ripaddr == ip && o.conn.lport == lp && o.conn.rport == rp
      && o.call == None && o.sent.Some? && OfConnection(m, o.conn, o.sent.value)
      && o.sent.value.flags == Flags(syn := true, ack := true) && o.sent.value.mss == Some(m) && o.sent.value.data == []
  {
  }
}
