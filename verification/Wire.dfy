/** Every segment a connection emits, as a packet: it fits into uip_buf and is accepted where it is addressed to. */
module Wire {
  import opened Bytes
  import opened Tcp
  import opened TcpInvariant
  import opened Packet
  import TcpTable

  /** UIP_TCP_MSS for a buffer size; it is also the receive window. */
  function TcpMss(bufsize: nat): u16
    requires UIP_LLH_LEN + UIP_TCPIP_HLEN + 4 <= bufsize <= MAX_PACKET
  {
    bufsize - UIP_LLH_LEN - UIP_TCPIP_HLEN
  }

  /** A segment carries at most m bytes of data, and none beside the segment size option. */
  predicate Small(m: u16, s: Option<Segment>) {
    s.Some? ==> |s.value.data| <= m && (s.value.mss.Some? ==> s.value.data == [])
  }

  lemma AppSendsAreSmall(m: u16, r: Reply)
    ensures forall c: Conn, cb :: c.len <= m && c.mss <= m ==> Small(m, AppSend(m, c, cb, r).sent)
  {
  }

  lemma TimerIsSmall(m: u16, c: Conn, r: Reply)
    requires Valid(m, c)
    ensures Small(m, Timer(m, c, r).sent)
  {
  }

  lemma DispatchIsSmall(m: u16, c: Conn, s: Segment, acked: bool, r: Reply)
    requires c.len <= m && c.mss <= c.initialmss <= m
    ensures Small(m, Dispatch(m, c, s, acked, r).sent)
  {
    AppSendsAreSmall(m, r);
  }

  lemma InputIsSmall(m: u16, c: Conn, s: Segment, r: Reply)
    requires m > 0 && Valid(m, c)
    ensures Small(m, Input(m, c, s, r).sent)
  {
    AckStageFrame(c, s);
    if c.state != CLOSED { DispatchIsSmall(m, AckStage(c, s), s, Acks(c, s), r); }
  }

  /** The event and the segment it makes a connection emit. */
  predicate Emits(m: u16, c: Conn, e: SlotEvent, s: Segment) {
    match e
    case Tick(r) => Timer(m, c, r).sent == Some(s)
    case Arrival(t, r) => Input(m, c, t, r).sent == Some(s)
    case Connect(_, _, _, _) => false
    case Listen(iss, ip, lp, rp, syn) => PassiveOpen(m, c, iss, ip, lp, rp, syn).sent == Some(s)
  }

  /** In any state the invariant allows, a closed slot that is still matched included. */
  lemma EmittedIsSmall(m: u16, c: Conn, e: SlotEvent, s: Segment)
    requires m > 0 && Valid(m, c) && Emits(m, c, e, s)
    ensures |s.data| <= m && (s.mss.Some? ==> s.data == [])
  {
    match e
    case Tick(r) => TimerIsSmall(m, c, r);
    case Arrival(t, r) => InputIsSmall(m, c, t, r);
    case Listen(iss, ip, lp, rp, syn) =>
    case Connect(_, _, _, _) =>
  }

  /** The addresses and ports label tcp_send writes for a connection of this host. */
  function EndsOf(host: u32, c: Conn): Ends { Ends(host, c.ripaddr, c.lport, c.rport) }

  /**
    Whatever a connection emits after any run of events, its packet passes the input checks of the remote host
    of the connection, is read there as the segment that was meant between the right ports, and fits into
    uip_buf with its link header.
   */
  lemma EmittedPacketIsAccepted(bufsize: nat, es: seq<SlotEvent>, c: Conn, e: SlotEvent, s: Segment, host: u32, ipid: u16)
    requires UIP_LLH_LEN + UIP_TCPIP_HLEN + 4 <= bufsize <= MAX_PACKET
    requires PossibleRun(TcpMss(bufsize), ZeroConn, es) && c == SlotRun(TcpMss(bufsize), ZeroConn, es)
    requires Emits(TcpMss(bufsize), c, e, s)
    requires SlotStep(TcpMss(bufsize), c, e).lport != 0 && SlotStep(TcpMss(bufsize), c, e).rport != 0
    ensures |s.data| <= TcpMss(bufsize)
    ensures
      var ends := EndsOf(host, SlotStep(TcpMss(bufsize), c, e));
      && ReceiveTcp(ends.destip, TcpPacket(ends, s, ipid)) == Some((ends, s))
      && UIP_LLH_LEN + |TcpPacket(ends, s, ipid)| <= bufsize
  {
    var ends := EndsOf(host, SlotStep(TcpMss(bufsize), c, e));
    RunKeepsValid(TcpMss(bufsize), ZeroConn, es);
    EmittedIsSmall(TcpMss(bufsize), c, e, s);
    TcpPacketIsAccepted(ends, s, ipid);
    TcpPacketFits(bufsize, ends, s, ipid);
  }

  /** So does the reset that answers a segment without a connection. */
  lemma ResetIsAccepted(bufsize: nat, from: Ends, s: Segment, answer: Segment, ipid: u16)
    requires UIP_LLH_LEN + UIP_TCPIP_HLEN + 4 <= bufsize <= MAX_PACKET
    requires from.srcport != 0 && from.destport != 0 && ResetFor(s) == Some(answer)
    ensures |answer.data| == 0
    ensures
      var back := Ends(from.destip, from.srcip, from.destport, from.srcport);
      && ReceiveTcp(from.srcip, TcpPacket(back, answer, ipid)) == Some((back, answer))
      && UIP_LLH_LEN + |TcpPacket(back, answer, ipid)| <= bufsize
  {
    var back := Ends(from.destip, from.srcip, from.destport, from.srcport);
    TcpPacketIsAccepted(back, answer, ipid);
    TcpPacketFits(bufsize, back, answer, ipid);
  }

  /**
    With its second tick a dialled connection sends its SYN, from the initial sequence number of the call, and the
    packet is accepted by the dialled host for the dialled port.
   */
  lemma DialledSynArrives(bufsize: nat, listening: seq<u16>, st: TcpTable.Stack, ip: u32, rport: u16, r1: Reply, r2: Reply,
                          host: u32, ipid: u16)
    requires UIP_LLH_LEN + UIP_TCPIP_HLEN + 4 <= bufsize <= MAX_PACKET && rport != 0
    requires TcpTable.Sound(TcpMss(bufsize), st) && exists j :: 0 <= j < |st.conns| && Reusable(st.conns[j])
    ensures
      var m, n := TcpMss(bufsize), TcpTable.Choice(st.conns);
      && n < |st.conns|
      && var c := TcpTable.TableStep(m, listening, st, TcpTable.Dial(ip, rport)).conns[n];
         var o1 := Timer(m, c, r1);
         var o2 := Timer(m, o1.conn, r2);
         && o1.sent == None && o2.sent.Some? && o2.conn.Is(SYN_SENT)
         && o2.sent.value.flags == Flags(syn := true) && o2.sent.value.seqno == st.iss && o2.sent.value.mss == Some(m)
         && o2.sent.value.data == []
         && ReceiveTcp(ip, TcpPacket(EndsOf(host, o2.conn), o2.sent.value, ipid)) == Some((Ends(host, ip, c.lport, rport), o2.sent.value))
  {
    var m, n := TcpMss(bufsize), TcpTable.Choice(st.conns);
    TcpTable.DialOpens(m, listening, st, ip, rport);
    var c := TcpTable.TableStep(m, listening, st, TcpTable.Dial(ip, rport)).conns[n];
    var o2 := Timer(m, Timer(m, c, r1).conn, r2);
    assert EndsOf(host, o2.conn) == Ends(host, ip, c.lport, rport);
    TcpPacketIsAccepted(EndsOf(host, o2.conn), o2.sent.value, ipid);
  }
}
