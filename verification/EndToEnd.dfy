/** Two endpoints and the network between them: safety of the byte streams over every run. */
module EndToEnd {
  import opened Bytes
  import opened Tcp
  import opened TcpInvariant
  import opened Sender
  import opened Stream

  /**
    `fromA` and `fromB` hold every segment an end ever sent: each may arrive any number of times, whole or in
    pieces, or never.
   */
  datatype World = World(a: Side, b: Side, fromA: set<Segment>, fromB: set<Segment>)

  /** The bytes i..j of a segment as a segment of their own. */
  function Piece(s: Segment, i: nat, j: nat): Segment
    requires i <= j <= |s.data|
  {
    s.(seqno := Add32(s.seqno, i), data := s.data[i..j])
  }

  /** What may become of a segment on its way: a segment without SYN, FIN and RST may be cut anywhere. */
  ghost predicate Cut(g: Segment, s: Segment) {
    g == s
    || (Plain(s) && exists i: nat, j: nat :: i <= j <= |s.data| && g == Piece(s, i, j))
  }

  ghost predicate Carries(net: set<Segment>, g: Segment) {
    exists s :: s in net && Cut(g, s)
  }

  /** A segment that may arrive: one the peer has sent, or a piece of one, or any reset. */
  ghost predicate MayArrive(net: set<Segment>, e: Event) {
    match e
    case Tick(_, _) => true
    case Deliver(s, _, _) => Carries(net, s) || s.flags.rst
    case Accept(s) => s in net
  }

  function Record(net: set<Segment>, sent: Option<Segment>): set<Segment> {
    match sent
    case None => net
    case Some(g) => net + {g}
  }

  ghost predicate WorldStep(w: World, w': World) {
    || (exists e: Event, sent: Option<Segment> :: MayArrive(w.fromB, e) && SideStep(w.a, e, w'.a, sent)
          && w' == w.(a := w'.a, fromA := Record(w.fromA, sent)))
    || (exists e: Event, sent: Option<Segment> :: MayArrive(w.fromA, e) && SideStep(w.b, e, w'.b, sent)
          && w' == w.(b := w'.b, fromB := Record(w.fromB, sent)))
  }

  /** One end has called uip_connect, the other listens; nothing has been sent yet. */
  ghost predicate Initial(w: World) {
    var a, b := w.a, w.b;
    && a.active && a.begun && !b.active && !b.begun
    && a.m >= 1 && b.m >= 1 && a.pm == b.m && b.pm == a.m && a.pisn == b.isn && b.pisn == a.isn
    && a.conn.state == SYN_SENT && !a.conn.stopped && a.conn.sndNxt == a.isn && a.conn.len == 1
    && a.conn.mss == a.conn.initialmss == a.m
    && b.conn.state == CLOSED && !b.conn.stopped && b.conn.len == 0
    && Blank(a) && Blank(b)
    && w.fromA == {} && w.fromB == {}
  }

  predicate Blank(x: Side) {
    && x.ps == Idle && x.so == 0 && x.ro == 0 && x.handed == [] && x.shown == [] && x.acked == 0
    && !x.fin && !x.quit && !x.gotFin
  }

  ghost predicate IsRun(ws: seq<World>) {
    && ws != [] && Initial(ws[0])
    && forall i :: 0 <= i < |ws| - 1 ==> WorldStep(ws[i], ws[i + 1])
  }

  /** One direction: what y has received of what x has sent. */
  ghost predicate Direction(x: Side, y: Side, net: set<Segment>) {
    && x.isn == y.pisn && x.m == y.pm && x.active == !y.active
    && x.so <= y.ro <= x.so + x.conn.len
    && (forall g :: g in net ==> SentBy(x, g))
    && y.shown <= x.handed
    && (!y.quit ==> x.acked <= |y.shown|)
    && (y.gotFin ==> x.fin)
  }

  ghost predicate Inv(w: World) {
    Local(w.a) && Local(w.b) && Direction(w.a, w.b, w.fromA) && Direction(w.b, w.a, w.fromB)
  }

  /** What x can have put on the network, whole or in pieces, as the receiver has to deal with it. */
  ghost predicate Explained(x: Side, g: Segment) {
    var q := Dist(x.isn, g.seqno);
    g.flags.rst ||
    (&& q + Units(g) <= x.so + x.conn.len
     && (q < x.so ==> q + Units(g) <= x.so)
     && (g.flags.syn ==> q == 0 && g.data == [] && g.mss == Some(x.m) && g.flags == if x.active then SYN else SYNACK)
     && (g.data != [] ==> 1 <= q && !g.flags.fin && q - 1 + |g.data| <= |x.handed| && x.handed[q - 1..q - 1 + |g.data|] == g.data)
     && (g.flags.fin ==> 1 <= q && x.fin)
     && (g.data != [] || g.flags.fin ==> x.so >= 1)
     && (g.flags.ack ==> 1 <= Dist(x.pisn, g.ackno) <= x.ro)
     && g.wnd in {0, x.m})
  }

  lemma PieceNumber(base: u32, seqno: u32, i: nat)
    requires Dist(base, seqno) + i < SESSION_LIMIT && i <= 0x1_0000
    ensures Dist(base, Add32(seqno, i)) == Dist(base, seqno) + i
  {
  }

  lemma PieceOfStream(stream: seq<byte>, at: nat, data: seq<byte>, i: nat, j: nat)
    requires at + |data| <= |stream| && stream[at..at + |data|] == data && i <= j <= |data|
    ensures stream[at + i..at + j] == data[i..j]
  {
    var found := stream[at..at + |data|];
    forall k | 0 <= k < j - i
      ensures stream[at + i..at + j][k] == data[i..j][k]
    {
      assert stream[at + (i + k)] == found[i + k];
    }
  }

  lemma PieceOfPiece(s: Segment, i: nat, j: nat, k: nat, l: nat)
    requires i <= j <= |s.data| && k <= l <= j - i
    ensures Piece(Piece(s, i, j), k, l) == Piece(s, i + k, i + l)
  {
    PieceOfStream(s.data, i, s.data[i..j], k, l);
  }

  /** Pieces may be cut again: what arrives over several such hops is a piece of what was sent. */
  lemma CutsCompose(net: set<Segment>, h: Segment, g: Segment)
    requires Carries(net, h) && Cut(g, h)
    ensures Carries(net, g)
  {
    var s :| s in net && Cut(h, s);
    if h != s && g != h {
      var i: nat, j: nat :| i <= j <= |s.data| && h == Piece(s, i, j);
      var k: nat, l: nat :| k <= l <= |h.data| && g == Piece(h, k, l);
      PieceOfPiece(s, i, j, k, l);
    }
    assert Cut(g, s);
  }

  lemma SentIsExplained(x: Side, s: Segment)
    requires Local(x) && SentBy(x, s)
    ensures Explained(x, s)
  {
  }

  lemma PieceIsExplained(x: Side, s: Segment, i: nat, j: nat)
    requires Local(x) && Explained(x, s) && Plain(s) && i <= j <= |s.data|
    ensures Explained(x, Piece(s, i, j))
  {
    var q := Dist(x.isn, s.seqno);
    PieceNumber(x.isn, s.seqno, i);
    if s.data != [] { PieceOfStream(x.handed, q - 1, s.data, i, j); }
  }

  lemma CarriedIsExplained(x: Side, y: Side, net: set<Segment>, g: Segment)
    requires Local(x) && Direction(x, y, net) && Carries(net, g)
    ensures Explained(x, g)
  {
    var s :| s in net && Cut(g, s);
    SentIsExplained(x, s);
    if g != s {
      var i: nat, j: nat :| i <= j <= |s.data| && g == Piece(s, i, j);
      PieceIsExplained(x, s, i, j);
    }
  }

  lemma ArrivalIsSound(x: Side, y: Side, net: set<Segment>, back: set<Segment>, s: Segment)
    requires Local(x) && Local(y) && Direction(x, y, net) && Direction(y, x, back)
    requires s.flags.rst || Explained(x, s)
    ensures Arriving(y, s)
  {
  }

  lemma NextChunk(shown: seq<byte>, handed: seq<byte>, data: seq<byte>)
    requires shown <= handed && |shown| + |data| <= |handed| && handed[|shown|..|shown| + |data|] == data
    ensures shown + data <= handed
  {
  }

  /** The receiving direction: y takes a step on a segment of x. */
  lemma ReceivingKept(x: Side, y: Side, net: set<Segment>, s: Segment, y': Side, sent: Option<Segment>, ackd: bool, took: nat)
    requires Local(x) && Local(y) && Local(y') && Direction(x, y, net) && (s.flags.rst || Explained(x, s))
    requires Moves(y, y', sent, ackd, took) && Took(y, y', s, took)
    ensures Direction(x, y', net)
  {
    if !s.flags.rst && y'.shown != y.shown {
      NextChunk(y.shown, x.handed, s.data);
    }
  }

  /** Segments sent earlier stay explained when the sender moves on. */
  lemma OldSegmentsKept(y: Side, y': Side, sent: Option<Segment>, ackd: bool, took: nat, g: Segment)
    requires Local(y) && Local(y') && Moves(y, y', sent, ackd, took) && SentBy(y, g)
    ensures SentBy(y', g)
  {
  }

  /** The sending direction of the same step. */
  lemma SendingKept(x: Side, y: Side, back: set<Segment>, y': Side, sent: Option<Segment>, ackd: bool, took: nat)
    requires Local(x) && Local(y) && Local(y') && Direction(y, x, back)
    requires Moves(y, y', sent, ackd, took)
    requires ackd ==> x.ro == y.so + y.conn.len
    ensures Direction(y', x, Record(back, sent))
  {
    forall g | g in Record(back, sent)
      ensures SentBy(y', g)
    {
      if g in back { OldSegmentsKept(y, y', sent, ackd, took, g); }
    }
  }

  /** An acknowledgement that counts can only have been sent once everything outstanding had been received. */
  lemma AckMeansReceived(x: Side, y: Side, net: set<Segment>, back: set<Segment>, s: Segment)
    requires Local(x) && Local(y) && y.begun && Direction(x, y, net) && Direction(y, x, back)
    requires Explained(x, s) && !s.flags.rst && Acks(y.conn, s)
    ensures x.ro == y.so + y.conn.len
  {
    PieceNumber(y.isn, y.conn.sndNxt, y.conn.len);
  }

  lemma SideStepKept(x: Side, y: Side, net: set<Segment>, back: set<Segment>, e: Event, y': Side, sent: Option<Segment>)
    requires Local(x) && Local(y) && Direction(x, y, net) && Direction(y, x, back)
    requires MayArrive(net, e) && SideStep(y, e, y', sent)
    ensures Local(y') && Direction(x, y', net) && Direction(y', x, Record(back, sent))
  {
    match e
    case Tick(op, r) =>
      var o := Timer(y.m, y.conn, r);
      TickStep(y, op, r, y', o);
      SendingKept(x, y, back, y', sent, false, 0);
    case Deliver(s, op, r) =>
      if !s.flags.rst { CarriedIsExplained(x, y, net, s); }
      ArrivalIsSound(x, y, net, back, s);
      DeliverKept(x, y, net, back, s, op, r, y', sent);
    case Accept(s) =>
      assert Cut(s, s) && Carries(net, s);
      CarriedIsExplained(x, y, net, s);
      ArrivalIsSound(x, y, net, back, s);
      AcceptStep(y, s, y', sent);
      ReceivingKept(x, y, net, s, y', sent, false, 1);
      SendingKept(x, y, back, y', sent, false, 1);
  }

  lemma DeliverKept(x: Side, y: Side, net: set<Segment>, back: set<Segment>, s: Segment, op: Op, r: Reply, y': Side, sent: Option<Segment>)
    requires Local(x) && Local(y) && Direction(x, y, net) && Direction(y, x, back)
    requires (s.flags.rst || Explained(x, s)) && Arriving(y, s) && SideStep(y, Deliver(s, op, r), y', sent)
    ensures Local(y') && Direction(x, y', net) && Direction(y', x, Record(back, sent))
  {
    var o := Input(y.m, y.conn, s, r);
    DeliverStep(y, s, op, r, y', o);
    var ackd: bool, took: nat :| Good(y, s, y', o, ackd, took);
    BothKept(x, y, net, back, s, y', sent, ackd, took);
  }

  lemma BothKept(x: Side, y: Side, net: set<Segment>, back: set<Segment>, s: Segment, y': Side, sent: Option<Segment>, ackd: bool, took: nat)
    requires Local(x) && Local(y) && Local(y') && y.begun && Direction(x, y, net) && Direction(y, x, back)
    requires s.flags.rst || Explained(x, s)
    requires Moves(y, y', sent, ackd, took) && Took(y, y', s, took)
    requires ackd ==> Acks(y.conn, s) && !s.flags.rst
    ensures Direction(x, y', net) && Direction(y', x, Record(back, sent))
  {
    if ackd { AckMeansReceived(x, y, net, back, s); }
    ReceivingKept(x, y, net, s, y', sent, ackd, took);
    SendingKept(x, y, back, y', sent, ackd, took);
  }

  lemma StepKeepsInv(w: World, w': World)
    requires Inv(w) && WorldStep(w, w')
    ensures Inv(w')
  {
    if e: Event, sent: Option<Segment> :| MayArrive(w.fromB, e) && SideStep(w.a, e, w'.a, sent)
                                          && w' == w.(a := w'.a, fromA := Record(w.fromA, sent)) {
      SideStepKept(w.b, w.a, w.fromB, w.fromA, e, w'.a, sent);
    } else {
      var e: Event, sent: Option<Segment> :| MayArrive(w.fromA, e) && SideStep(w.b, e, w'.b, sent)
                                             && w' == w.(b := w'.b, fromB := Record(w.fromB, sent));
      SideStepKept(w.a, w.b, w.fromA, w.fromB, e, w'.b, sent);
    }
  }

  lemma {:induction false} RunKeepsInv(ws: seq<World>, i: nat)
    requires IsRun(ws) && i < |ws|
    ensures Inv(ws[i])
    decreases i
  {
    if i > 0 {
      RunKeepsInv(ws, i - 1);
      assert WorldStep(ws[i - 1], ws[i - 1 + 1]);
      StepKeepsInv(ws[i - 1], ws[i]);
    }
  }

  /**
    At every moment of every run, what an application has been shown is a prefix of what the other one
    handed to psock_send, in both directions.
   */
  lemma ShownIsPrefixOfSent(ws: seq<World>, i: nat)
    requires IsRun(ws) && i < |ws|
    ensures ws[i].b.shown <= ws[i].a.handed && ws[i].a.shown <= ws[i].b.handed
  {
    RunKeepsInv(ws, i);
  }

  /** What UIP_ACKDATA reported has been shown to the other application, unless that one closed first. */
  lemma AckedMeansShown(ws: seq<World>, i: nat)
    requires IsRun(ws) && i < |ws|
    ensures var a, b := ws[i].a, ws[i].b;
      && (!b.quit ==> a.acked <= |b.shown| && a.acked <= |a.handed| && a.handed[..a.acked] == b.shown[..a.acked])
      && (!a.quit ==> b.acked <= |a.shown| && b.acked <= |b.handed| && b.handed[..b.acked] == a.shown[..b.acked])
  {
    RunKeepsInv(ws, i);
    ShownIsPrefixOfSent(ws, i);
  }

  /** Everything handed over has been acknowledged: no psock_send is under way, or uip_close was called after the last. */
  predicate Finished(x: Side) {
    x.quit || (x.ps == Idle && (x.conn.state == ESTABLISHED || x.fin))
  }

  /**
    Once every psock_send has returned, and at all times after an own close, the whole stream has been shown,
    unless the receiver closed first.
   */
  lemma FinishedMeansAllShown(ws: seq<World>, i: nat)
    requires IsRun(ws) && i < |ws|
    ensures var a, b := ws[i].a, ws[i].b;
      (Finished(a) && !b.quit ==> b.shown == a.handed) && (Finished(b) && !a.quit ==> a.shown == b.handed)
  {
    RunKeepsInv(ws, i);
    AckedMeansShown(ws, i);
    if Finished(ws[i].a) { FinishedIsAcked(ws[i].a); }
    if Finished(ws[i].b) { FinishedIsAcked(ws[i].b); }
  }

  lemma FinishedIsAcked(x: Side)
    requires Local(x) && Finished(x)
    ensures x.acked == |x.handed|
  {
  }

  /** Between two such hosts mss never changes once the connection is established. */
  lemma MssIsConstant(ws: seq<World>, i: nat)
    requires IsRun(ws) && i < |ws|
    ensures var a, b := ws[i].a, ws[i].b;
      && (a.conn.state == ESTABLISHED ==> a.conn.mss == Min(a.m, b.m))
      && (b.conn.state == ESTABLISHED ==> b.conn.mss == Min(a.m, b.m))
  {
    RunKeepsInv(ws, i);
  }

  /**
    Why the receiver must not have closed: data in sequence is counted but shown to nobody exactly in FIN_WAIT_1
    and FIN_WAIT_2, and there it is acknowledged unless the segment acknowledges the own FIN.
   */
  lemma ClosedReceiverDiscards(m: u16, c: Conn, s: Segment, r: Reply)
    requires Valid(m, c) && Plain(s) && s.data != [] && s.seqno == c.rcvNxt
    ensures
      var o := Input(m, c, s, r);
      && (o.conn.rcvNxt != c.rcvNxt && Shown(o) == [] <==> c.state in {FIN_WAIT_1, FIN_WAIT_2})
      && (c.state == FIN_WAIT_2 || (c.state == FIN_WAIT_1 && !Acks(c, s)) ==>
            && o.call == None
            && o.sent == Some(Header(m, o.conn, ACK, [])) && o.sent.value.ackno == Add32(s.seqno, |s.data|))
  {
    AckStageFrame(c, s);
    AppSendMoves(m, r);
  }
}
