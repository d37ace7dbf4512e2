/**
  Two endpoints that run this stack and psock_send over a network that loses, duplicates and reorders
  segments. Both directions carry data at the same time.
 */
module Stream {
  import opened Bytes
  import opened Tcp
  import opened Sender

  /**
    One endpoint and its history. `isn` and `pisn` are the initial sequence numbers of both ends, `m` and
    `pm` their UIP_TCP_MSS. `so` counts the sequence numbers of this end that have been acknowledged, `ro`
    those of the peer that have been received (SYN, data and FIN), `handed` is what the application gave to
    psock_send before its own FIN, `shown` what it got under UIP_NEWDATA, `acked` how many bytes UIP_ACKDATA
    reported. `fin`: the own FIN has been sent; `quit`: before the peer's; `gotFin`: after it.
   */
  datatype Side = Side(
    active: bool, begun: bool, m: u16, pm: u16, isn: u32, pisn: u32,
    conn: Conn, ps: Thread,
    so: nat, ro: nat, handed: seq<byte>, shown: seq<byte>, acked: nat,
    fin: bool, quit: bool, gotFin: bool)

  /** How far sequence number b lies after a. */
  function Dist(a: u32, b: u32): (n: nat)
    ensures n < SESSION_LIMIT
  {
    if b >= a then b - a else b - a + SESSION_LIMIT
  }

  function Units(g: Segment): nat {
    |g.data| + (if g.flags.syn then 1 else 0) + (if g.flags.fin then 1 else 0)
  }

  const SESSION_LIMIT := 0x1_0000_0000

  // ---- Steps ----

  /** The endpoint after a step of its connection, with p' and `more` what its application did. */
  function After(x: Side, o: Out, p': Thread, more: seq<byte>): Side {
    var cb := o.call;
    x.(conn := o.conn, ps := p', handed := if x.fin then x.handed else x.handed + more,
       shown := if cb.Some? && cb.value.newdata then x.shown + cb.value.data else x.shown,
       acked := if cb.Some? && cb.value.ackdata then x.acked + x.conn.len else x.acked,
       so := x.so + Dist(x.conn.sndNxt, o.conn.sndNxt),
       ro := if x.conn.state == SYN_SENT then (if cb.Some? && cb.value.connected then 1 else 0)
             else x.ro + Dist(x.conn.rcvNxt, o.conn.rcvNxt),
       fin := x.fin || o.conn.state in {FIN_WAIT_1, LAST_ACK},
       quit := x.quit || o.conn.state == FIN_WAIT_1,
       gotFin := x.gotFin || o.conn.state == LAST_ACK)
  }

  /** The application answers the callback, if one was made. */
  ghost predicate AppStep(x: Side, o: Out, op: Op, r: Reply, x': Side) {
    if o.call.Some? then
      && Answers(x.ps, o.call.value, op, r)
      && x' == After(x, o, Run(x.ps, o.call.value, op).0, Run(x.ps, o.call.value, op).2)
    else x' == After(x, o, x.ps, [])
  }

  datatype Event =
    | Tick(op: Op, r: Reply)
    | Deliver(s: Segment, op: Op, r: Reply)
    | Accept(s: Segment)

  ghost predicate SideStep(x: Side, e: Event, x': Side, sent: Option<Segment>) {
    && |x'.handed| + 3 < SESSION_LIMIT
    && match e
       case Tick(op, r) =>
         var o := Timer(x.m, x.conn, r);
         x.conn.state != CLOSED && AppStep(x, o, op, r, x') && sent == o.sent
       case Deliver(s, op, r) =>
         var o := Input(x.m, x.conn, s, r);
         x.conn.state != CLOSED && AppStep(x, o, op, r, x') && sent == o.sent
       case Accept(s) =>
         var o := PassiveOpen(x.m, x.conn, x.isn, x.conn.ripaddr, x.conn.lport, x.conn.rport, s);
         && !x.begun && s.flags == SYN && sent == o.sent
         && x' == x.(begun := true, conn := o.conn, ro := 1)
  }

  // ---- What one endpoint keeps by itself ----

  ghost predicate Local(x: Side) {
    var c := x.conn;
    && x.m >= 1 && x.pm >= 1
    && |x.handed| + 3 < SESSION_LIMIT && x.ro < SESSION_LIMIT
    && x.so + c.len <= |x.handed| + 2
    && (x.begun ==> Dist(x.isn, c.sndNxt) == x.so)
    && (x.ro >= 1 ==> Dist(x.pisn, c.rcvNxt) == x.ro)
    && (c.stopped ==> c.state == ESTABLISHED)
    && (x.quit ==> x.fin)
    && (x.fin && (x.quit || x.ps == Idle) ==> x.acked == |x.handed|)
    && x.acked <= (if x.so == 0 then 0 else x.so - 1)
    && (!x.quit ==> x.ro <= 1 + |x.shown| + (if x.gotFin then 1 else 0))
    && (x.ro == 0 ==> x.shown == [])
    && (!x.begun ==> c.state == CLOSED && !x.active && x.so == 0 && x.ro == 0 && c.len == 0 && !x.fin && !x.gotFin
                     && !x.quit && x.ps == Idle && x.handed == [])
    && (c.state in {SYN_SENT, SYN_RCVD, ESTABLISHED} ==> !x.fin && !x.quit && !x.gotFin && c.mss == c.initialmss)
    && (c.state in {FIN_WAIT_1, FIN_WAIT_2, CLOSING, TIME_WAIT, LAST_ACK} ==> x.fin && x.so >= 1 && x.ro >= 1)
    && (match c.state
        case SYN_SENT =>
          x.active && x.ro == 0 && x.so == 0 && c.len == 1 && x.ps == Idle && x.handed == [] && c.mss == x.m
        case SYN_RCVD =>
          && !x.active && x.ro == 1 && x.so == 0 && c.len == 1 && x.ps == Idle && x.handed == []
          && x.shown == [] && c.mss == Min(x.m, x.pm)
        case ESTABLISHED =>
          && x.ro == 1 + |x.shown| && c.mss == Min(x.m, x.pm)
          && 1 <= x.so <= |x.handed| + 1 && x.acked == x.so - 1
          && x.handed[x.so - 1..] == Rest(x.ps)
          && c.len == ChunkLen(Rest(x.ps), c.mss)
          && (x.ps.Sending? ==> x.ps.rest != [])
        case FIN_WAIT_1 | CLOSING => x.quit && c.len == 1
        case FIN_WAIT_2 | TIME_WAIT => x.quit && c.len == 0
        case LAST_ACK => x.gotFin && c.len == 1
        case CLOSED => true)
  }

  /** A segment that endpoint x has sent at some time, as seen from its present state. */
  ghost predicate SentBy(x: Side, g: Segment) {
    var q := Dist(x.isn, g.seqno);
    g.flags.rst ||
    (&& q <= x.so
     && (if q == x.so then Units(g) > 0 ==> Units(g) == x.conn.len else q + Units(g) <= x.so)
     && (g.flags.syn ==> q == 0 && g.data == [] && g.mss == Some(x.m) && g.flags == if x.active then SYN else SYNACK)
     && (g.data != [] ==> 1 <= q && !g.flags.fin && q - 1 + |g.data| <= |x.handed| && x.handed[q - 1..q - 1 + |g.data|] == g.data)
     && (g.flags.fin ==> 1 <= q && x.fin)
     && (g.flags.ack ==> 1 <= Dist(x.pisn, g.ackno) <= x.ro)
     && g.wnd in {0, x.m})
  }

  /** What endpoint x can rely on about a segment that arrives. */
  ghost predicate Arriving(x: Side, s: Segment) {
    var q := Dist(x.pisn, s.seqno);
    s.flags.rst ||
    (&& (s.flags.syn ==> q == 0 && s.data == [] && s.mss == Some(x.pm) && s.flags == if x.active then SYNACK else SYN)
     && (s.data != [] || s.flags.fin ==> 1 <= q && x.ro >= 1)
     && !(s.data != [] && s.flags.fin)
     && (s.flags.ack ==> 1 <= Dist(x.isn, s.ackno) <= x.so + x.conn.len)
     && s.wnd in {0, x.pm}
     && q + |s.data| + 1 < SESSION_LIMIT)
  }

  /** What a step does to the numbers: `ackd` when outstanding data was acknowledged, `took` what was received. */
  ghost predicate Moves(x: Side, x': Side, sent: Option<Segment>, ackd: bool, took: nat) {
    && x'.isn == x.isn && x'.pisn == x.pisn && x'.m == x.m && x'.pm == x.pm && x'.active == x.active
    && x.handed <= x'.handed
    && x.shown <= x'.shown
    && (x.fin ==> x'.fin) && (x.quit ==> x'.quit)
    && x'.so == x.so + (if ackd then x.conn.len else 0)
    && (ackd ==> x.conn.len > 0)
    && (!ackd && x.conn.len > 0 ==> x'.conn.len == x.conn.len)
    && x'.ro == x.ro + took
    && (x'.acked != x.acked ==> ackd && x'.acked == x'.so - 1 && !x.fin)
    && (x'.fin && !x.fin ==> (ackd || x.conn.len == 0))
    && (sent.Some? ==> SentBy(x', sent.value))
  }

  /** What the segment contributed: nothing, its next units in sequence, or the peer's SYN. */
  ghost predicate Took(x: Side, x': Side, s: Segment, took: nat) {
    && (x'.gotFin && !x.gotFin ==> s.flags.fin && took == Units(s))
    && (|| (took == 0 && x'.shown == x.shown)
        || (took == 1 && x.ro == 0 && s.flags.syn && !s.flags.rst && x'.shown == x.shown)
        || (&& took == Units(s) && x.ro >= 1 && Dist(x.pisn, s.seqno) == x.ro && !s.flags.rst && !s.flags.syn
            && (x'.shown == x.shown || (x'.shown == x.shown + s.data && x.ro == 1 + |x.shown|))))
  }

  // ---- Sequence arithmetic ----

  /** Comparing 32-bit numbers compares positions in the stream, and only the newest acknowledgement counts. */
  lemma Numbers(x: Side, s: Segment)
    requires Local(x) && Arriving(x, s) && !s.flags.rst && x.begun
    ensures x.ro >= 1 && s.seqno == x.conn.rcvNxt ==> Dist(x.pisn, s.seqno) == x.ro
    ensures x.ro >= 1 && s.seqno == x.conn.rcvNxt ==> x.ro + |s.data| + 1 < SESSION_LIMIT
    ensures Acks(x.conn, s) ==> Dist(x.isn, s.ackno) == x.so + x.conn.len && Dist(x.conn.sndNxt, s.ackno) == x.conn.len
  {
  }

  lemma Received(x: Side, n: nat)
    requires Local(x) && x.ro >= 1 && n <= 0x1_0000 && x.ro + n < SESSION_LIMIT
    ensures Dist(x.pisn, Receive(x.conn, n).rcvNxt) == x.ro + n
    ensures Dist(x.conn.rcvNxt, Receive(x.conn, n).rcvNxt) == n
  {
  }

  /** What label tcp_send builds from the present state counts as sent by the endpoint. */
  lemma HeaderSent(x: Side, flags: Flags, data: seq<byte>)
    requires Local(x) && x.begun && x.ro >= 1
    requires flags in {ACK, PSHACK, FINACK}
    requires data != [] ==> flags == PSHACK && x.so >= 1 && |data| == x.conn.len && x.so - 1 + |data| <= |x.handed|
                            && x.handed[x.so - 1..x.so - 1 + |data|] == data
    requires flags == FINACK ==> x.so >= 1 && x.fin && x.conn.len == 1
    ensures SentBy(x, Header(x.m, x.conn, flags, data))
  {
  }

  // ---- The application's turn ----

  /** An established endpoint when its callback is made; the numbers already count what the segment brought. */
  ghost predicate Ready(x: Side, cb: Callback) {
    var c := x.conn;
    && x.m >= 1 && x.pm >= 1 && x.begun
    && |x.handed| + 3 < SESSION_LIMIT && x.ro < SESSION_LIMIT
    && Dist(x.isn, c.sndNxt) == x.so && Dist(x.pisn, c.rcvNxt) == x.ro
    && c.state == ESTABLISHED && x.ro == 1 + |x.shown|
    && 1 <= x.so <= |x.handed| + 1 && x.acked == x.so - 1
    && !x.fin && !x.quit && !x.gotFin
    && c.mss == c.initialmss == Min(x.m, x.pm) && cb.mss == c.mss
    && !cb.close && !cb.abort && !cb.timedout && !cb.rexmit
    && (x.ps.Sending? ==> x.ps.rest != [])
    && if cb.ackdata then
         c.len == 0 && x.ps.Sending? &&
         var n := ChunkLen(x.ps.rest, c.mss);
         n <= x.so - 1 && x.handed[x.so - 1 - n..] == x.ps.rest
       else x.handed[x.so - 1..] == Rest(x.ps) && c.len == ChunkLen(Rest(x.ps), c.mss)
  }

  /** The thread after the callback still owes exactly the unacknowledged rest of what was handed over. */
  lemma ThreadKeepsRest(x: Side, cb: Callback, op: Op)
    requires Ready(x, cb)
    ensures
      var (p', out, more) := Run(x.ps, cb, op);
      && (x.handed + more)[x.so - 1..] == Rest(p')
      && (p'.Sending? ==> p'.rest != [])
      && (x.conn.len == 0 ==> out == Rest(p')[..ChunkLen(Rest(p'), cb.mss)])
      && (x.conn.len > 0 ==> p' == x.ps && out == [] && more == [])
  {
  }

  /** The endpoint after its callback has been answered and label appsend has run. */
  ghost predicate Answered(x: Side, cb: Callback, op: Op, r: Reply, x': Side, o: Out) {
    && Answers(x.ps, cb, op, r)
    && o == AppSend(x.m, Apply(x.conn, r.flow), cb, r)
    && x' == x.(conn := o.conn, ps := Run(x.ps, cb, op).0, handed := x.handed + Run(x.ps, cb, op).2,
                fin := o.conn.state == FIN_WAIT_1, quit := o.conn.state == FIN_WAIT_1)
    && |x'.handed| + 3 < SESSION_LIMIT
  }

  lemma AnsweredLen(x: Side, cb: Callback, op: Op, r: Reply, x': Side, o: Out)
    requires Ready(x, cb) && Answered(x, cb, op, r, x', o)
    ensures x.conn.len > 0 ==> x'.conn.len == x.conn.len
    ensures r.ctl == Continue ==> x'.conn.len == ChunkLen(Rest(x'.ps), x.conn.mss)
    ensures r.ctl == Continue && x'.conn.len > 0 && r.slen > 0 ==> Take(r.area, x'.conn.len) == Rest(x'.ps)[..x'.conn.len]
    ensures r.ctl == Close ==> x.conn.len == 0
    ensures r.ctl == Abort ==> x'.conn.len == x.conn.len
  {
    ThreadKeepsRest(x, cb, op);
  }

  lemma AnsweredLocal(x: Side, cb: Callback, op: Op, r: Reply, x': Side, o: Out)
    requires Ready(x, cb) && Answered(x, cb, op, r, x', o)
    ensures Local(x')
    ensures x'.fin ==> x.conn.len == 0
  {
    ThreadKeepsRest(x, cb, op);
    AnsweredLen(x, cb, op, r, x', o);
  }

  lemma ChunkSent(x: Side, area: seq<byte>)
    requires Local(x) && x.begun && x.conn.state == ESTABLISHED && x.conn.len > 0
    requires Take(area, x.conn.len) == Rest(x.ps)[..x.conn.len]
    ensures SentBy(x, Header(x.m, x.conn, PSHACK, Take(area, x.conn.len)))
  {
  }

  lemma AppSendSegment(m: u16, c: Conn, cb: Callback, r: Reply)
    requires c.state == ESTABLISHED
    ensures
      var o := AppSend(m, c, cb, r);
      match r.ctl
      case Abort => o.conn.state == CLOSED && o.sent == Some(Header(m, o.conn, RSTACK, []))
      case Close => o.conn.state == FIN_WAIT_1 && o.sent == Some(Header(m, o.conn, FINACK, []))
      case Continue =>
        o.conn.state == ESTABLISHED &&
        if r.slen > 0 && o.conn.len > 0 then o.sent == Some(Header(m, o.conn, PSHACK, Take(r.area, o.conn.len)))
        else o.sent in {None, Some(Header(m, o.conn, ACK, []))}
  {
  }

  lemma AnsweredSent(x: Side, cb: Callback, op: Op, r: Reply, x': Side, o: Out)
    requires Ready(x, cb) && Answered(x, cb, op, r, x', o) && o.sent.Some?
    ensures SentBy(x', o.sent.value)
  {
    AnsweredLocal(x, cb, op, r, x', o);
    AnsweredLen(x, cb, op, r, x', o);
    AppSendSegment(x.m, Apply(x.conn, r.flow), cb, r);
    match r.ctl
    case Abort =>
    case Close => HeaderSent(x', FINACK, []);
    case Continue =>
      HeaderSent(x', ACK, []);
      if r.slen > 0 && x'.conn.len > 0 { ChunkSent(x', r.area); }
  }

  lemma AppSendNumbers(m: u16, c: Conn, cb: Callback, r: Reply)
    requires c.state == ESTABLISHED
    ensures var o := AppSend(m, c, cb, r);
      && o.conn.sndNxt == c.sndNxt && o.conn.rcvNxt == c.rcvNxt && o.call == Some(cb)
      && o.conn.state in {ESTABLISHED, FIN_WAIT_1, CLOSED}
  {
  }

  /** The endpoint when the callback is made, c0 being its connection then. */
  ghost function AtCallback(x: Side, c0: Conn, cb: Callback): Side {
    After(x, Out(c0, None, Some(cb)), x.ps, [])
  }

  lemma TurnIsAnswer(x: Side, c0: Conn, cb: Callback, op: Op, r: Reply, x': Side, o: Out)
    requires c0.state == ESTABLISHED && !x.fin && !x.quit && !x.gotFin
    requires o == AppSend(x.m, Apply(c0, r.flow), cb, r)
    requires AppStep(x, o, op, r, x') && |x'.handed| + 3 < SESSION_LIMIT
    ensures Answered(AtCallback(x, c0, cb), cb, op, r, x', o)
    ensures x.handed <= x'.handed
  {
    AppSendNumbers(x.m, Apply(c0, r.flow), cb, r);
    assert AtCallback(x, c0, cb).handed == x.handed;
  }

  lemma TurnTaken(x: Side, c0: Conn, cb: Callback, op: Op, r: Reply, x': Side, o: Out)
    requires Ready(AtCallback(x, c0, cb), cb)
    requires o == AppSend(x.m, Apply(c0, r.flow), cb, r)
    requires AppStep(x, o, op, r, x') && |x'.handed| + 3 < SESSION_LIMIT
    ensures var x0 := AtCallback(x, c0, cb);
      && Local(x') && x'.begun
      && x'.so == x0.so && x'.ro == x0.ro && x'.shown == x0.shown && x'.acked == x0.acked && !x'.gotFin
      && x.handed <= x'.handed
      && (c0.len > 0 ==> x'.conn.len == c0.len)
      && (x'.fin ==> c0.len == 0)
      && (o.sent.Some? ==> SentBy(x', o.sent.value))
  {
    var x0 := AtCallback(x, c0, cb);
    TurnIsAnswer(x, c0, cb, op, r, x', o);
    AnsweredLen(x0, cb, op, r, x', o);
    AnsweredLocal(x0, cb, op, r, x', o);
    if o.sent.Some? { AnsweredSent(x0, cb, op, r, x', o); }
  }

  // ---- Deliveries ----

  ghost predicate Delivered(x: Side, s: Segment, op: Op, r: Reply, x': Side, o: Out) {
    && Local(x) && x.begun && x.conn.state != CLOSED && Arriving(x, s)
    && o == Input(x.m, x.conn, s, r)
    && AppStep(x, o, op, r, x')
    && |x'.handed| + 3 < SESSION_LIMIT
  }

  /** A segment in sequence, o being what the branch for the state of the connection makes of it. */
  ghost predicate InTurn(x: Side, s: Segment, op: Op, r: Reply, x': Side, o: Out) {
    && Local(x) && x.begun && Arriving(x, s) && !s.flags.rst && InSequence(x.conn, s)
    && AppStep(x, o, op, r, x')
    && |x'.handed| + 3 < SESSION_LIMIT
  }

  /** The conclusion of every delivery lemma below. */
  ghost predicate Good(x: Side, s: Segment, x': Side, o: Out, ackd: bool, took: nat) {
    && Local(x') && x'.begun && Moves(x, x', o.sent, ackd, took) && Took(x, x', s, took)
    && (ackd ==> Acks(x.conn, s) && !s.flags.rst)
  }

  lemma DeliverReset(x: Side, s: Segment, op: Op, r: Reply, x': Side, o: Out)
    requires Delivered(x, s, op, r, x', o) && s.flags.rst
    ensures Good(x, s, x', o, false, 0)
  {
  }

  lemma DeliverOutOfSequence(x: Side, s: Segment, op: Op, r: Reply, x': Side, o: Out)
    requires Delivered(x, s, op, r, x', o) && !s.flags.rst && !InSequence(x.conn, s)
    ensures Good(x, s, x', o, false, 0)
  {
    HeaderSent(x, ACK, []);
    Unmoved(x, s, op, r, x', o);
  }

  lemma DeliverSynSent(x: Side, s: Segment, op: Op, r: Reply, x': Side, o: Out)
    requires InTurn(x, s, op, r, x', o) && x.conn.state == SYN_SENT
    requires o == InSynSent(x.m, AckStage(x.conn, s), s, Acks(x.conn, s), r)
    ensures Good(x, s, x', o, Acks(x.conn, s), if Acks(x.conn, s) && s.flags == SYNACK then 1 else 0)
  {
    if Acks(x.conn, s) && s.flags == SYNACK {
      DeliverSynAck(x, s, op, r, x', o);
    } else {
      DeliverRefusal(x, s, op, r, x', o);
    }
  }

  lemma DeliverRefusal(x: Side, s: Segment, op: Op, r: Reply, x': Side, o: Out)
    requires InTurn(x, s, op, r, x', o) && x.conn.state == SYN_SENT
    requires o == InSynSent(x.m, AckStage(x.conn, s), s, Acks(x.conn, s), r)
    requires !(Acks(x.conn, s) && s.flags == SYNACK)
    ensures Good(x, s, x', o, Acks(x.conn, s), 0)
  {
    Numbers(x, s);
    AckStageKept(x, s);
  }

  function Connected(x: Side, s: Segment): Conn {
    ReadMss(x.m, AckStage(x.conn, s), s).(state := ESTABLISHED, stopped := false, rcvNxt := Add32(s.seqno, 1), len := 0)
  }

  function ConnectedCallback(x: Side, s: Segment): Callback {
    Callback(connected := true, newdata := true, mss := Connected(x, s).mss)
  }

  ghost predicate Connects(x: Side, s: Segment) {
    && Local(x) && x.begun && Arriving(x, s) && !s.flags.rst && x.conn.state == SYN_SENT
    && Acks(x.conn, s) && s.flags == SYNACK
  }

  lemma ConnectedReady(x: Side, s: Segment)
    requires Connects(x, s)
    ensures
      var x0 := AtCallback(x, Connected(x, s), ConnectedCallback(x, s));
      && Ready(x0, ConnectedCallback(x, s))
      && x0.so == 1 && x0.ro == 1 && x0.shown == x.shown && x0.acked == x.acked
  {
  }

  lemma DeliverSynAck(x: Side, s: Segment, op: Op, r: Reply, x': Side, o: Out)
    requires InTurn(x, s, op, r, x', o) && Connects(x, s)
    requires o == InSynSent(x.m, AckStage(x.conn, s), s, true, r)
    ensures Good(x, s, x', o, true, 1)
  {
    ConnectedReady(x, s);
    AckStageKept(x, s);
    TurnTaken(x, Connected(x, s), ConnectedCallback(x, s), op, r, x', o);
  }

  lemma AckStageKept(x: Side, s: Segment)
    ensures var a := AckStage(x.conn, s);
      && a.state == x.conn.state && a.stopped == x.conn.stopped && a.rcvNxt == x.conn.rcvNxt
      && a.mss == x.conn.mss && a.initialmss == x.conn.initialmss
      && a.len == (if Acks(x.conn, s) then 0 else x.conn.len)
      && a.sndNxt == (if Acks(x.conn, s) then s.ackno else x.conn.sndNxt)
      && (!Acks(x.conn, s) ==> a == x.conn)
  {
  }

  lemma DeliverSynRcvd(x: Side, s: Segment, op: Op, r: Reply, x': Side, o: Out)
    requires InTurn(x, s, op, r, x', o) && x.conn.state == SYN_RCVD
    requires o == InSynRcvd(x.m, AckStage(x.conn, s), s, Acks(x.conn, s), r)
    ensures Good(x, s, x', o, Acks(x.conn, s), if Acks(x.conn, s) then |s.data| else 0)
  {
    if Acks(x.conn, s) {
      DeliverSynRcvdAck(x, s, op, r, x', o);
    } else {
      AckStageKept(x, s);
      SynSent(x, SYNACK);
    }
  }

  function Promoted(x: Side, s: Segment): Conn {
    Receive(AckStage(x.conn, s).(state := ESTABLISHED, stopped := false, len := 0), |s.data|)
  }

  function PromotedCallback(x: Side, s: Segment): Callback {
    Callback(connected := true, newdata := s.data != [], data := s.data, mss := x.conn.mss)
  }

  ghost predicate Promotes(x: Side, s: Segment) {
    && Local(x) && x.begun && Arriving(x, s) && !s.flags.rst && InSequence(x.conn, s) && x.conn.state == SYN_RCVD
    && Acks(x.conn, s)
  }

  lemma PromotedReady(x: Side, s: Segment)
    requires Promotes(x, s)
    ensures
      var x0 := AtCallback(x, Promoted(x, s), PromotedCallback(x, s));
      && Ready(x0, PromotedCallback(x, s))
      && x0.so == 1 && x0.ro == x.ro + |s.data| && x0.shown == s.data && x0.acked == x.acked
      && (s.data != [] ==> Dist(x.pisn, s.seqno) == x.ro && |s.data| == Units(s) && !s.flags.syn)
  {
  }

  lemma DeliverSynRcvdAck(x: Side, s: Segment, op: Op, r: Reply, x': Side, o: Out)
    requires InTurn(x, s, op, r, x', o) && Promotes(x, s)
    requires o == InSynRcvd(x.m, AckStage(x.conn, s), s, true, r)
    ensures Good(x, s, x', o, true, |s.data|)
  {
    PromotedReady(x, s);
    AckStageKept(x, s);
    TurnTaken(x, Promoted(x, s), PromotedCallback(x, s), op, r, x', o);
  }

  lemma SynSent(x: Side, flags: Flags)
    requires Local(x) && x.begun && x.conn.state in {SYN_SENT, SYN_RCVD}
    requires flags == if x.active then SYN else SYNACK
    ensures SentBy(x, SynSegment(x.m, x.conn, flags))
  {
  }

  /** What a segment in sequence brings to an established endpoint that accepts it. */
  lemma DeliverEstablished(x: Side, s: Segment, op: Op, r: Reply, x': Side, o: Out)
    requires InTurn(x, s, op, r, x', o) && x.conn.state == ESTABLISHED
    requires o == InEstablished(x.m, AckStage(x.conn, s), s, Acks(x.conn, s), r)
    ensures exists took: nat :: Good(x, s, x', o, Acks(x.conn, s), took)
  {
    if s.flags.fin && !x.conn.stopped {
      var took := DeliverFin(x, s, op, r, x', o);
    } else {
      var took := DeliverData(x, s, op, r, x', o);
    }
  }

  lemma DeliverFin(x: Side, s: Segment, op: Op, r: Reply, x': Side, o: Out) returns (took: nat)
    requires InTurn(x, s, op, r, x', o) && x.conn.state == ESTABLISHED
    requires o == InEstablished(x.m, AckStage(x.conn, s), s, Acks(x.conn, s), r)
    requires s.flags.fin && !x.conn.stopped
    ensures Good(x, s, x', o, Acks(x.conn, s), took)
  {
    AckStageKept(x, s);
    if AckStage(x.conn, s).len > 0 {
      took := 0;
      Unmoved(x, s, op, r, x', o);
    } else {
      took := 1;
      FinTaken(x, s, op, r, x', o);
      HeaderSent(x', FINACK, []);
    }
  }

  lemma FinTaken(x: Side, s: Segment, op: Op, r: Reply, x': Side, o: Out)
    requires InTurn(x, s, op, r, x', o) && x.conn.state == ESTABLISHED
    requires o == InEstablished(x.m, AckStage(x.conn, s), s, Acks(x.conn, s), r)
    requires s.flags.fin && !x.conn.stopped && (x.conn.len == 0 || Acks(x.conn, s))
    ensures Local(x') && Took(x, x', s, 1) && x'.ro == x.ro + 1 && x'.so == x.so + x.conn.len
    ensures x'.conn.state == LAST_ACK && o.sent == Some(Header(x.m, x'.conn, FINACK, []))
    ensures x.handed <= x'.handed
    ensures x'.acked == (if Acks(x.conn, s) then x'.so - 1 else x.acked)
  {
    Numbers(x, s);
    AckStageKept(x, s);
    Received(x, 1);
    assert !s.flags.syn && s.data == [] && s.seqno == x.conn.rcvNxt;
  }

  /** The connection of an established endpoint once acknowledgement, data and window have been counted. */
  function Counted(x: Side, s: Segment): Conn {
    var a := AckStage(x.conn, s);
    (if s.data != [] && !x.conn.stopped then Receive(a, |s.data|) else a).(mss := WindowMss(a, s.wnd))
  }

  function DataCallback(x: Side, s: Segment): Callback {
    var newdata := s.data != [] && !x.conn.stopped;
    Callback(ackdata := Acks(x.conn, s), newdata := newdata, data := if newdata then s.data else [], mss := Counted(x, s).mss)
  }

  ghost predicate DataArrival(x: Side, s: Segment) {
    && Local(x) && x.begun && Arriving(x, s) && !s.flags.rst && InSequence(x.conn, s) && x.conn.state == ESTABLISHED
    && !(s.flags.fin && !x.conn.stopped)
  }

  lemma CountedNumbers(x: Side, s: Segment)
    requires DataArrival(x, s)
    ensures
      var c := Counted(x, s);
      var took := if s.data != [] && !x.conn.stopped then |s.data| else 0;
      && c.state == ESTABLISHED && c.stopped == x.conn.stopped
      && c.mss == c.initialmss == x.conn.mss
      && c.len == (if Acks(x.conn, s) then 0 else x.conn.len)
      && x.ro + took < SESSION_LIMIT
      && Dist(x.pisn, c.rcvNxt) == x.ro + took && Dist(x.conn.rcvNxt, c.rcvNxt) == took
      && Dist(x.isn, c.sndNxt) == x.so + (if Acks(x.conn, s) then x.conn.len else 0)
      && Dist(x.conn.sndNxt, c.sndNxt) == (if Acks(x.conn, s) then x.conn.len else 0)
      && (took > 0 ==> Dist(x.pisn, s.seqno) == x.ro && took == Units(s) && !s.flags.syn)
  {
    Numbers(x, s);
    AckStageKept(x, s);
    var took := if s.data != [] && !x.conn.stopped then |s.data| else 0;
    Received(x, took);
  }

  lemma DataReady(x: Side, s: Segment)
    requires DataArrival(x, s)
    ensures Ready(AtCallback(x, Counted(x, s), DataCallback(x, s)), DataCallback(x, s))
  {
    CountedNumbers(x, s);
    var x0 := AtCallback(x, Counted(x, s), DataCallback(x, s));
    assert x0.handed == x.handed;
  }

  lemma DeliverData(x: Side, s: Segment, op: Op, r: Reply, x': Side, o: Out) returns (took: nat)
    requires InTurn(x, s, op, r, x', o) && DataArrival(x, s)
    requires o == InEstablished(x.m, AckStage(x.conn, s), s, Acks(x.conn, s), r)
    ensures Good(x, s, x', o, Acks(x.conn, s), took)
  {
    CountedNumbers(x, s);
    took := if s.data != [] && !x.conn.stopped then |s.data| else 0;
    if took > 0 || Acks(x.conn, s) {
      DataAnswered(x, s, op, r, x', o);
    } else {
      AckStageKept(x, s);
      assert o == Out(x.conn, None, None);
      Unmoved(x, s, op, r, x', o);
    }
  }

  lemma DataAnswered(x: Side, s: Segment, op: Op, r: Reply, x': Side, o: Out)
    requires InTurn(x, s, op, r, x', o) && DataArrival(x, s)
    requires o == AppSend(x.m, Apply(Counted(x, s), r.flow), DataCallback(x, s), r)
    ensures Good(x, s, x', o, Acks(x.conn, s), if s.data != [] && !x.conn.stopped then |s.data| else 0)
  {
    CountedNumbers(x, s);
    DataReady(x, s);
    TurnTaken(x, Counted(x, s), DataCallback(x, s), op, r, x', o);
  }

  lemma Unmoved(x: Side, s: Segment, op: Op, r: Reply, x': Side, o: Out)
    requires Local(x) && x.begun && x.conn.state !in {SYN_SENT, CLOSED}
    requires AppStep(x, o, op, r, x') && o.conn == x.conn && o.call == None
    requires o.sent.Some? ==> SentBy(x, o.sent.value)
    ensures x' == x && Good(x, s, x', o, false, 0)
  {
  }

  /** After the endpoint's own FIN: no application data is shown any more. */
  lemma DeliverClosing(x: Side, s: Segment, op: Op, r: Reply, x': Side, o: Out) returns (took: nat)
    requires InTurn(x, s, op, r, x', o) && o == Dispatch(x.m, AckStage(x.conn, s), s, Acks(x.conn, s), r)
    requires x.conn.state in {CLOSING, TIME_WAIT, LAST_ACK}
    ensures Good(x, s, x', o, Acks(x.conn, s), took)
  {
    Numbers(x, s);
    AckStageKept(x, s);
    took := 0;
    HeaderSent(x, ACK, []);
    if o.call == None { assert x'.handed == x.handed; }
  }

  /** FIN_WAIT_1 and FIN_WAIT_2 count what arrives but hand nothing to the application. */
  ghost predicate OnlyCounts(m: u16, c: Conn, s: Segment, r: Reply, o: Out) {
    && o.conn.rcvNxt == Receive(c, |s.data| + (if s.flags.fin then 1 else 0)).rcvNxt
    && o.conn.sndNxt == c.sndNxt && o.conn.len == c.len
    && (o.conn.stopped ==> o.call.Some? && r.flow == Stop)
    && o.conn.state in (if c.len > 0 then {FIN_WAIT_1, CLOSING} else {FIN_WAIT_2, TIME_WAIT})
    && (o.conn.state == FIN_WAIT_1 ==> c.state == FIN_WAIT_1)
    && o.sent in {None, Some(Header(m, o.conn, ACK, []))}
    && o.call in {None, Some(Callback(close := true, mss := c.mss))}
  }

  lemma FinWaitOutcome(m: u16, c: Conn, s: Segment, acked: bool, r: Reply)
    requires c.state in {FIN_WAIT_1, FIN_WAIT_2} && !c.stopped && !(s.data != [] && s.flags.fin)
    requires c.state == FIN_WAIT_1 ==> (acked <==> c.len == 0)
    requires c.state == FIN_WAIT_2 ==> c.len == 0
    ensures OnlyCounts(m, c, s, r, Dispatch(m, c, s, acked, r))
  {
  }

  lemma DeliverFinWait(x: Side, s: Segment, op: Op, r: Reply, x': Side, o: Out) returns (took: nat)
    requires InTurn(x, s, op, r, x', o) && o == Dispatch(x.m, AckStage(x.conn, s), s, Acks(x.conn, s), r)
    requires x.conn.state in {FIN_WAIT_1, FIN_WAIT_2}
    ensures Good(x, s, x', o, Acks(x.conn, s), took)
  {
    AckStageKept(x, s);
    FinWaitOutcome(x.m, AckStage(x.conn, s), s, Acks(x.conn, s), r);
    took := FinWaitCounted(x, s, op, r, x', o);
  }

  lemma FinWaitCounted(x: Side, s: Segment, op: Op, r: Reply, x': Side, o: Out) returns (took: nat)
    requires InTurn(x, s, op, r, x', o) && OnlyCounts(x.m, AckStage(x.conn, s), s, r, o)
    requires x.conn.state in {FIN_WAIT_1, FIN_WAIT_2}
    ensures Good(x, s, x', o, Acks(x.conn, s), took)
  {
    took := |s.data| + (if s.flags.fin then 1 else 0);
    FinWaitLocal(x, s, op, r, x', o);
    HeaderSent(x', ACK, []);
  }

  lemma FinWaitLocal(x: Side, s: Segment, op: Op, r: Reply, x': Side, o: Out)
    requires InTurn(x, s, op, r, x', o) && OnlyCounts(x.m, AckStage(x.conn, s), s, r, o)
    requires x.conn.state in {FIN_WAIT_1, FIN_WAIT_2}
    ensures
      var took := |s.data| + (if s.flags.fin then 1 else 0);
      && Local(x') && x'.ro == x.ro + took && x'.ro >= 1 && x'.begun
      && x'.so == x.so + (if Acks(x.conn, s) then x.conn.len else 0)
      && x'.conn.len == (if Acks(x.conn, s) then 0 else x.conn.len)
      && x.handed <= x'.handed && x'.shown == x.shown && x'.acked == x.acked && x'.gotFin == x.gotFin
      && (took > 0 ==> took == Units(s) && Dist(x.pisn, s.seqno) == x.ro && !s.flags.syn)
  {
    Numbers(x, s);
    AckStageKept(x, s);
    var took := |s.data| + (if s.flags.fin then 1 else 0);
    assert took > 0 ==> s.seqno == x.conn.rcvNxt && !s.flags.syn;
    Received(x, took);
  }

  /** Every delivery keeps the endpoint consistent and moves the counters as Moves and Took say. */
  lemma DeliverStep(x: Side, s: Segment, op: Op, r: Reply, x': Side, o: Out)
    requires Delivered(x, s, op, r, x', o)
    ensures exists ackd, took: nat :: Good(x, s, x', o, ackd, took)
  {
    if s.flags.rst {
      DeliverReset(x, s, op, r, x', o);
    } else if !InSequence(x.conn, s) {
      DeliverOutOfSequence(x, s, op, r, x', o);
    } else {
      match x.conn.state
      case SYN_SENT => DeliverSynSent(x, s, op, r, x', o);
      case SYN_RCVD => DeliverSynRcvd(x, s, op, r, x', o);
      case ESTABLISHED => DeliverEstablished(x, s, op, r, x', o);
      case FIN_WAIT_1 | FIN_WAIT_2 => var took := DeliverFinWait(x, s, op, r, x', o);
      case CLOSING | TIME_WAIT | LAST_ACK => var took := DeliverClosing(x, s, op, r, x', o);
    }
  }

  // ---- Ticks ----

  ghost predicate Ticked(x: Side, op: Op, r: Reply, x': Side, o: Out) {
    && Local(x) && x.begun && x.conn.state != CLOSED
    && AppStep(x, o, op, r, x')
    && |x'.handed| + 3 < SESSION_LIMIT
  }

  ghost predicate GoodTick(x: Side, x': Side, o: Out) {
    Local(x') && x'.begun && Moves(x, x', o.sent, false, 0) && x'.shown == x.shown && x'.gotFin == x.gotFin
  }

  /** A tick that changes nothing but timer and nrtx, and closes at most. */
  ghost predicate OnlyTimes(m: u16, c: Conn, r: Reply, o: Out) {
    && o.conn == c.(timer := o.conn.timer, nrtx := o.conn.nrtx, state := o.conn.state, stopped := o.conn.stopped)
    && (if o.conn.state == c.state then o.conn.stopped == c.stopped && o.call == None
        else o.conn.state == CLOSED && (o.conn.stopped ==> o.call.Some? && r.flow == Stop))
    && o.call in {None, Some(Callback(timedout := true, mss := c.mss))}
    && (o.sent.Some? && !o.sent.value.flags.rst ==>
          o.conn.state == c.state && c.state !in {ESTABLISHED, TIME_WAIT, FIN_WAIT_2} && o.sent.value == OwnSegment(m, o.conn))
  }

  /** What a connection that is not established retransmits. */
  function OwnSegment(m: u16, c: Conn): Segment {
    match c.state
    case SYN_SENT => SynSegment(m, c, SYN)
    case SYN_RCVD => SynSegment(m, c, SYNACK)
    case _ => Header(m, c, FINACK, [])
  }

  lemma TimerShape(m: u16, c: Conn, r: Reply)
    requires c.state != CLOSED && (c.stopped ==> c.state == ESTABLISHED)
    requires c.state in {TIME_WAIT, FIN_WAIT_2} || c.len > 0
    ensures
      var o := Timer(m, c, r);
      if c.state == ESTABLISHED && c.timer == 0 && !GivesUp(c) then
        && o.conn == Apply(c.(timer := o.conn.timer, nrtx := o.conn.nrtx), r.flow)
        && o.call == Some(Callback(rexmit := true, mss := c.mss))
        && o.sent == AppRexmit(m, o.conn, r.restarted, r.slen, r.area)
      else OnlyTimes(m, c, r, o)
  {
  }

  lemma TickIdle(x: Side, op: Op, r: Reply, x': Side, o: Out)
    requires Ticked(x, op, r, x', o) && OnlyTimes(x.m, x.conn, r, o)
    ensures GoodTick(x, x', o)
  {
    if o.call == None { assert x'.handed == x.handed; }
    if o.sent.Some? && !o.sent.value.flags.rst { OwnSent(x'); }
  }

  lemma OwnSent(x: Side)
    requires Local(x) && x.begun && x.conn.state in {SYN_SENT, SYN_RCVD, FIN_WAIT_1, CLOSING, LAST_ACK}
    ensures SentBy(x, OwnSegment(x.m, x.conn))
  {
  }

  lemma TickRexmit(x: Side, op: Op, r: Reply, x': Side, o: Out)
    requires Ticked(x, op, r, x', o) && x.conn.state == ESTABLISHED && x.conn.len > 0
    requires o.conn == Apply(x.conn.(timer := o.conn.timer, nrtx := o.conn.nrtx), r.flow)
    requires o.call == Some(Callback(rexmit := true, mss := x.conn.mss))
    requires o.sent == AppRexmit(x.m, o.conn, r.restarted, r.slen, r.area)
    ensures GoodTick(x, x', o)
  {
    assert x'.handed == x.handed;
    assert Take(r.area, x.conn.len) == Rest(x.ps)[..x.conn.len];
    ChunkSent(x', r.area);
  }

  lemma TickPoll(x: Side, op: Op, r: Reply, x': Side, o: Out)
    requires Ticked(x, op, r, x', o) && x.conn.state == ESTABLISHED && x.conn.len == 0
    requires o == AppSend(x.m, Apply(x.conn, r.flow), Callback(poll := true, mss := x.conn.mss), r)
    ensures GoodTick(x, x', o)
  {
    var cb := Callback(poll := true, mss := x.conn.mss);
    var x0 := AtCallback(x, x.conn, cb);
    assert x0.handed == x.handed;
    TurnTaken(x, x.conn, cb, op, r, x', o);
  }

  lemma TickStep(x: Side, op: Op, r: Reply, x': Side, o: Out)
    requires Ticked(x, op, r, x', o) && o == Timer(x.m, x.conn, r)
    ensures GoodTick(x, x', o)
  {
    var c := x.conn;
    if c.state == ESTABLISHED && c.len == 0 {
      TickPoll(x, op, r, x', o);
    } else {
      TimerShape(x.m, c, r);
      if c.state == ESTABLISHED && c.timer == 0 && !GivesUp(c) {
        TickRexmit(x, op, r, x', o);
      } else {
        TickIdle(x, op, r, x', o);
      }
    }
  }

  // ---- Opening ----

  lemma AcceptStep(x: Side, s: Segment, x': Side, sent: Option<Segment>)
    requires Local(x) && SideStep(x, Accept(s), x', sent) && Arriving(x, s)
    ensures Local(x') && x'.begun && Moves(x, x', sent, false, 1) && Took(x, x', s, 1)
  {
  }
}
