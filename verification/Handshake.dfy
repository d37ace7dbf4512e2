/** The runs of EndToEnd are not empty: a connection can be opened and data can get through. */
module Handshake {
  import opened Bytes
  import opened Tcp
  import opened TcpInvariant
  import opened Sender
  import opened Stream
  import opened EndToEnd

  function NewSide(active: bool, m: u16, isn: u32, pisn: u32, c: Conn): Side {
    Side(active, active, m, m, isn, pisn, c, Idle, 0, 0, [], [], 0, false, false, false)
  }

  /** The application has nothing to say. */
  const SILENT := Reply([], 0, Continue, Keep, false)

  /** An end that has just called uip_connect, its SYN due with the next tick. */
  function Opened(m: u16, isn: u32): Conn {
    ActiveOpen(m, ZeroConn, isn, 0, 0, 0).(timer := 0)
  }

  /** The first world: an active and a listening end. */
  function Start(m: u16, ia: u32, ib: u32): World {
    World(NewSide(true, m, ia, ib, Opened(m, ia)), NewSide(false, m, ib, ia, ZeroConn), {}, {})
  }

  function Syn(m: u16, ia: u32): Segment { Segment(ia, 0, SYN, m, Some(m), []) }
  function SynAck(m: u16, ia: u32, ib: u32): Segment { Segment(ib, Add32(ia, 1), SYNACK, m, Some(m), []) }
  function Data(m: u16, ia: u32, ib: u32, buf: Payload): Segment {
    Segment(Add32(ia, 1), Add32(ib, 1), PSHACK, m, None, buf)
  }

  lemma SynGoesOut(m: u16, ia: u32, ib: u32) returns (w: World)
    requires m >= 1
    ensures WorldStep(Start(m, ia, ib), w)
    ensures w.fromA == {Syn(m, ia)} && w.fromB == {} && w.b == Start(m, ia, ib).b
    ensures w.a == NewSide(true, m, ia, ib, Opened(m, ia).(timer := 3, nrtx := 1))
  {
    var w0 := Start(m, ia, ib);
    var o := Timer(m, w0.a.conn, SILENT);
    var e := Event.Tick(Wait, SILENT);
    var a := After(w0.a, o, w0.a.ps, []);
    w := w0.(a := a, fromA := Record({}, o.sent));
    assert o.sent == Some(Syn(m, ia));
    assert MayArrive(w0.fromB, e) && SideStep(w0.a, e, a, o.sent);
  }

  lemma SynIsAccepted(m: u16, ia: u32, ib: u32, w: World) returns (w': World)
    requires m >= 1 && w.fromA == {Syn(m, ia)} && w.fromB == {} && w.b == Start(m, ia, ib).b
    ensures WorldStep(w, w')
    ensures w'.a == w.a && w'.fromA == w.fromA && w'.fromB == {SynAck(m, ia, ib)}
    ensures
      var c := w'.b.conn;
      && w'.b == NewSide(false, m, ib, ia, c).(begun := true, ro := 1)
      && c.Is(SYN_RCVD) && c.len == 1 && c.nrtx == 0 && c.sndNxt == ib && c.rcvNxt == Add32(ia, 1) && c.mss == c.initialmss == m
  {
    var s := Syn(m, ia);
    var o := PassiveOpen(m, w.b.conn, ib, 0, 0, 0, s);
    var e := Accept(s);
    var b := w.b.(begun := true, conn := o.conn, ro := 1);
    w' := w.(b := b, fromB := Record({}, o.sent));
    assert o.sent == Some(SynAck(m, ia, ib));
    assert MayArrive(w.fromA, e) && SideStep(w.b, e, b, o.sent);
  }

  /** The reply of an application that hands buf to psock_send. */
  function Sends(buf: Payload): Reply { Reply(buf, |buf|, Continue, Keep, false) }

  lemma SynAckArrives(m: u16, ia: u32, ib: u32, buf: Payload, w: World) returns (w': World)
    requires 1 <= |buf| <= m && SynAck(m, ia, ib) in w.fromB
    requires w.a == NewSide(true, m, ia, ib, Opened(m, ia).(timer := 3, nrtx := 1))
    ensures WorldStep(w, w')
    ensures w'.b == w.b && w'.fromB == w.fromB && w'.fromA == w.fromA + {Data(m, ia, ib, buf)}
    ensures w'.a.conn.Is(ESTABLISHED) && w'.a.handed == buf
  {
    var s, r := SynAck(m, ia, ib), Sends(buf);
    var e := Deliver(s, Op.Send(buf), r);
    var o := Input(m, w.a.conn, s, r);
    assert Acks(w.a.conn, s);
    assert buf[..|buf|] == buf;
    assert o.call == Some(Callback(connected := true, newdata := true, mss := m));
    assert o.sent == Some(Data(m, ia, ib, buf));
    var run := Run(Idle, o.call.value, Op.Send(buf));
    assert run.1 == buf && run.2 == buf;
    var a := After(w.a, o, run.0, run.2);
    w' := w.(a := a, fromA := Record(w.fromA, o.sent));
    assert Cut(s, s) && Carries(w.fromB, s);
    assert MayArrive(w.fromB, e) && SideStep(w.a, e, a, o.sent);
  }

  lemma DataArrives(m: u16, ia: u32, ib: u32, buf: Payload, w: World) returns (w': World)
    requires 1 <= |buf| <= m && Data(m, ia, ib, buf) in w.fromA
    requires
      var c := w.b.conn;
      && w.b == NewSide(false, m, ib, ia, c).(begun := true, ro := 1)
      && c.Is(SYN_RCVD) && c.len == 1 && c.nrtx == 0 && c.sndNxt == ib && c.rcvNxt == Add32(ia, 1) && c.mss == c.initialmss == m
    ensures WorldStep(w, w')
    ensures w'.a == w.a && w'.b.conn.Is(ESTABLISHED) && w'.b.shown == buf
  {
    var s := Data(m, ia, ib, buf);
    var e := Deliver(s, Wait, SILENT);
    var o := Input(m, w.b.conn, s, SILENT);
    assert Acks(w.b.conn, s);
    assert o.call == Some(Callback(connected := true, newdata := true, data := buf, mss := m));
    var b := After(w.b, o, Idle, []);
    w' := w.(b := b, fromB := Record(w.fromB, o.sent));
    assert Cut(s, s) && Carries(w.fromA, s);
    assert MayArrive(w.fromA, e) && SideStep(w.b, e, b, o.sent);
  }

  /** For any initial numbers and any first segment there is a run that opens the connection and shows the data. */
  lemma DataGetsThrough(m: u16, ia: u32, ib: u32, buf: Payload) returns (ws: seq<World>)
    requires 1 <= |buf| <= m
    ensures IsRun(ws) && |ws| == 5
    ensures ws[4].a.conn.Is(ESTABLISHED) && ws[4].b.conn.Is(ESTABLISHED) && ws[4].a.handed == ws[4].b.shown == buf
  {
    var w0 := Start(m, ia, ib);
    var w1 := SynGoesOut(m, ia, ib);
    var w2 := SynIsAccepted(m, ia, ib, w1);
    var w3 := SynAckArrives(m, ia, ib, buf, w2);
    var w4 := DataArrives(m, ia, ib, buf, w3);
    ws := [w0, w1, w2, w3, w4];
  }
}
