/** uip_split_output: one maximal TCP segment becomes two, in place. */
module Split {
  import opened Bytes
  import opened Tcp
  import opened TcpInvariant
  import opened SeqNumbers
  import opened Checksum
  import opened Packet
  import opened PacketBuffer
  import EndToEnd

  /** The packet with its length field set to its length and both checksums computed anew. */
  function Resealed(p: seq<byte>): (r: seq<byte>)
    requires UIP_TCPIP_HLEN <= |p| <= MAX_PACKET
    ensures |r| == |p|
  {
    SealIp(SealUpper(p))
  }

  function SealUpper(p: seq<byte>): (r: seq<byte>)
    requires UIP_TCPIP_HLEN <= |p| <= MAX_PACKET
    ensures |r| == |p|
  {
    var q := Overlay(Overlay(p, 2, Be16(|p|)), 36, [0, 0]);
    Overlay(q, 36, Be16(FieldFor(UpperSum(q, UIP_PROTO_TCP))))
  }

  function SealIp(p: seq<byte>): (r: seq<byte>)
    requires UIP_TCPIP_HLEN <= |p| <= MAX_PACKET
    ensures |r| == |p|
  {
    var q := Overlay(p, 10, [0, 0]);
    Overlay(q, 10, Be16(FieldFor(IpSum(q))))
  }

  /** len1: the smaller half of the payload. */
  function FirstLength(p: seq<byte>): (n: nat)
    requires |p| >= UIP_TCPIP_HLEN
    ensures n <= |p| - UIP_TCPIP_HLEN - n <= n + 1
  {
    (|p| - UIP_TCPIP_HLEN) / 2
  }

  function First(p: seq<byte>): (r: seq<byte>)
    requires UIP_TCPIP_HLEN <= |p| <= MAX_PACKET
    ensures |r| == UIP_TCPIP_HLEN + FirstLength(p)
  {
    Resealed(p[..UIP_TCPIP_HLEN + FirstLength(p)])
  }

  /** The header of the first packet with the sequence number moved on, then the rest of the payload. */
  function Second(p: seq<byte>): (r: seq<byte>)
    requires UIP_TCPIP_HLEN <= |p| <= MAX_PACKET
    ensures |r| == |p| - FirstLength(p)
  {
    Resealed(Advanced(First(p)[..UIP_TCPIP_HLEN], Add32(Number(First(p)[24..28]), FirstLength(p)))
             + p[UIP_TCPIP_HLEN + FirstLength(p)..])
  }

  /** A header, or a packet, with another sequence number. */
  function Advanced(h: seq<byte>, seqno: u32): (r: seq<byte>)
    requires |h| >= UIP_TCPIP_HLEN
    ensures |r| == |h|
  {
    Overlay(h, 24, Be32(seqno))
  }

  // ---- The code ----

  /** Length field and TCP checksum. */
  method ResealUpper(b: UipBuf)
    requires b.Valid() && UIP_TCPIP_HLEN <= b.len <= MAX_PACKET
    modifies b.buf
    ensures b.Packet() == SealUpper(old(b.Packet()))
    ensures b.Tail() == old(b.Tail())
  {
    b.Put(2, Be16(b.len));
    ghost var p := b.Packet();
    b.Put(36, [0, 0]);
    assert b.Packet()[2] == p[2] == Be16(b.len)[0] && b.Packet()[3] == p[3] == Be16(b.len)[1];
    var sum := b.UpperLayerChksum(UIP_PROTO_TCP);
    b.Put(36, Be16(0xffff - sum));
  }

  /** IP checksum. */
  method ResealIp(b: UipBuf)
    requires b.Valid() && UIP_TCPIP_HLEN <= b.len <= MAX_PACKET
    modifies b.buf
    ensures b.Packet() == SealIp(old(b.Packet()))
    ensures b.Tail() == old(b.Tail())
  {
    b.Put(10, [0, 0]);
    var sum := b.UipIpchksum();
    b.Put(10, Be16(0xffff - sum));
  }

  method Reseal(b: UipBuf)
    requires b.Valid() && UIP_TCPIP_HLEN <= b.len <= MAX_PACKET
    modifies b.buf
    ensures b.Packet() == Resealed(old(b.Packet()))
    ensures b.Tail() == old(b.Tail())
  {
    ResealUpper(b);
    ResealIp(b);
  }

  /** memcpy(uip_appdata, uip_appdata + len1, len2), from the front, with uip_appdata behind the TCP header. */
  method MoveDown(b: UipBuf, len1: nat, len2: nat)
    requires b.Valid() && b.len == UIP_TCPIP_HLEN + len2 && UIP_LLH_LEN + b.len + len1 <= b.buf.Length
    modifies b.buf
    ensures b.Packet() == old(b.Packet()[..UIP_TCPIP_HLEN] + b.buf[..][UIP_LLH_LEN + UIP_TCPIP_HLEN + len1..UIP_LLH_LEN + b.len + len1])
  {
    var base := UIP_LLH_LEN + UIP_TCPIP_HLEN;
    var i := 0;
    while i < len2
      invariant 0 <= i <= len2
      invariant forall k :: base <= k < base + i ==> b.buf[k] == old(b.buf[k + len1])
      invariant forall k :: 0 <= k < b.buf.Length && !(base <= k < base + i) ==> b.buf[k] == old(b.buf[k])
    {
      b.buf[base + i] := b.buf[base + i + len1];
      i := i + 1;
    }
    Moved(old(b.buf[..]), b.buf[..], len1, len2);
  }

  lemma Moved(was: seq<byte>, now: seq<byte>, len1: nat, len2: nat)
    requires |now| == |was| >= 54 + len1 + len2
    requires forall k :: 54 <= k < 54 + len2 ==> now[k] == was[k + len1]
    requires forall k :: 0 <= k < 54 ==> now[k] == was[k]
    ensures now[14..54 + len2] == was[14..54 + len2][..40] + was[54 + len1..54 + len2 + len1]
  {
    assert now[54..54 + len2] == was[54 + len1..54 + len2 + len1];
    assert was[14..54 + len2][..40] == was[14..54] == now[14..54];
    assert now[14..54 + len2] == now[14..54] + now[54..54 + len2];
  }

  method ReadSeqno(b: UipBuf) returns (op32: array<byte>)
    requires b.Valid() && UIP_TCPIP_HLEN <= b.len
    ensures fresh(op32) && op32.Length == 4 && op32[..] == b.Packet()[24..28]
  {
    op32 := new byte[4];
    forall i | 0 <= i < 4 { op32[i] := b.buf[UIP_LLH_LEN + 24 + i]; }
    SubSlice(b.buf[..], UIP_LLH_LEN, UIP_LLH_LEN + b.len, 24, 28);
    assert op32[..] == b.buf[..][UIP_LLH_LEN + 24..UIP_LLH_LEN + 28];
  }

  lemma BytesOf(b: seq<byte>, x: u32)
    requires |b| == 4 && Number(b) == x
    ensures b == Be32(x)
  {
    Be32Unique(b);
  }

  /** The four bytes of the sequence number go through uip_acc32. */
  method AddToSeqno(b: UipBuf, len1: u16) returns (acc32: array<byte>)
    requires b.Valid() && UIP_TCPIP_HLEN <= b.len
    ensures fresh(acc32) && acc32.Length == 4 && acc32[..] == Be32(Add32(Number(b.Packet()[24..28]), len1))
  {
    var op32 := ReadSeqno(b);
    acc32 := new byte[4];
    UipAdd32(op32, len1, acc32);
    BytesOf(acc32[..], Add32(Number(op32[..]), len1));
  }

  method AdvanceSeqno(b: UipBuf, len1: u16)
    requires b.Valid() && UIP_TCPIP_HLEN <= b.len
    modifies b.buf
    ensures b.Packet() == Advanced(old(b.Packet()), Add32(Number(old(b.Packet()[24..28])), len1))
  {
    var acc32 := AddToSeqno(b, len1);
    b.Put(24, acc32[..]);
  }

  /** Shortening the packet to n bytes leaves the others behind it. */
  lemma Shortened(buf: seq<byte>, at: nat, p: seq<byte>, n: nat)
    requires at + |p| <= |buf| && buf[at..at + |p|] == p && n <= |p|
    ensures buf[at..at + n] == p[..n]
    ensures |p| - n <= |buf[at + n..]| && buf[at + n..][..|p| - n] == p[n..]
  {
    assert buf[at..at + |p|][..n] == buf[at..at + n];
    assert buf[at..at + |p|][n..] == buf[at + n..at + |p|] == buf[at + n..][..|p| - n];
  }

  /** The first packet, cut off the front: the rest of the payload stays behind it. */
  method MakeFirst(b: UipBuf, len1: nat, ghost p: seq<byte>)
    requires b.Valid() && b.Packet() == p && UIP_TCPIP_HLEN <= |p| <= MAX_PACKET && len1 == FirstLength(p)
    modifies b`len, b.buf
    ensures b.Valid() && b.len == UIP_TCPIP_HLEN + len1 && b.Packet() == First(p)
    ensures |p| - b.len <= |b.Tail()| && b.Tail()[..|p| - b.len] == p[b.len..]
  {
    CutFront(b, len1, p);
    Reseal(b);
  }

  method CutFront(b: UipBuf, len1: nat, ghost p: seq<byte>)
    requires b.Valid() && b.Packet() == p && UIP_TCPIP_HLEN + len1 <= |p|
    modifies b`len
    ensures b.Valid() && b.len == UIP_TCPIP_HLEN + len1 && b.Packet() == p[..b.len]
    ensures |p| - b.len <= |b.Tail()| && b.Tail()[..|p| - b.len] == p[b.len..]
  {
    Shortened(b.buf[..], UIP_LLH_LEN, p, UIP_TCPIP_HLEN + len1);
    b.len := len1 + UIP_TCPIP_HLEN;
  }

  /** The rest of the payload moves down behind the header. */
  method MoveRest(b: UipBuf, len1: nat, len2: nat, ghost p: seq<byte>, ghost first: seq<byte>)
    requires b.Valid() && len1 + len2 == |p| - UIP_TCPIP_HLEN && b.len == UIP_TCPIP_HLEN + len1 && b.Packet() == first
    requires |p| - b.len <= |b.Tail()| && b.Tail()[..|p| - b.len] == p[b.len..]
    modifies b`len, b.buf
    ensures b.Valid() && b.len == UIP_TCPIP_HLEN + len2 && b.Packet() == first[..UIP_TCPIP_HLEN] + p[UIP_TCPIP_HLEN + len1..]
  {
    RestInBuffer(b.buf[..], len1, len2, p, first);
    b.len := len2 + UIP_TCPIP_HLEN;
    MoveDown(b, len1, len2);
  }

  lemma RestInBuffer(buf: seq<byte>, len1: nat, len2: nat, p: seq<byte>, first: seq<byte>)
    requires |buf| >= 54 + len1 && buf[14..54 + len1] == first
    requires len1 + len2 == |p| - 40 && len2 <= |buf[54 + len1..]| && buf[54 + len1..][..len2] == p[40 + len1..]
    ensures buf[54 + len1..54 + len2 + len1] == p[40 + len1..]
    ensures buf[14..54 + len2][..40] == first[..40]
  {
    assert buf[54 + len1..][..len2] == buf[54 + len1..54 + len1 + len2];
    assert buf[14..54 + len2][..40] == buf[14..54] == buf[14..54 + len1][..40];
  }

  /** The second packet: the rest of the payload behind the header, the sequence number moved on. */
  method MakeSecond(b: UipBuf, len1: u16, len2: nat, ghost p: seq<byte>)
    requires b.Valid() && UIP_TCPIP_HLEN <= |p| <= MAX_PACKET && len1 == FirstLength(p) && len1 + len2 == |p| - UIP_TCPIP_HLEN
    requires b.len == UIP_TCPIP_HLEN + len1 && b.Packet() == First(p)
    requires |p| - b.len <= |b.Tail()| && b.Tail()[..|p| - b.len] == p[b.len..]
    modifies b`len, b.buf
    ensures b.Valid() && b.Packet() == Second(p)
  {
    MoveRest(b, len1, len2, p, First(p));
    HeaderOf(First(p), p[UIP_TCPIP_HLEN + len1..], Add32(Number(First(p)[24..28]), len1));
    AdvanceSeqno(b, len1);
    Reseal(b);
  }

  lemma HeaderOf(first: seq<byte>, rest: seq<byte>, seqno: u32)
    requires |first| >= UIP_TCPIP_HLEN
    ensures
      var h := first[..UIP_TCPIP_HLEN];
      (h + rest)[24..28] == first[24..28] && Advanced(h + rest, seqno) == Advanced(h, seqno) + rest
  {
  }

  /** uip_split_output; the result lists the packets given to tcpip_output. */
  method SplitOutput(b: UipBuf, bufsize: nat) returns (sent: seq<seq<byte>>)
    requires b.Valid() && UIP_LLH_LEN + UIP_TCPIP_HLEN <= bufsize <= b.buf.Length && bufsize <= UIP_LLH_LEN + MAX_PACKET
    modifies b`len, b.buf
    ensures
      var p := old(b.Packet());
      sent == if old(b.buf[UIP_LLH_LEN + 9]) == UIP_PROTO_TCP && |p| == bufsize - UIP_LLH_LEN then [First(p), Second(p)]
              else [p]
  {
    ghost var p := b.Packet();
    if b.buf[UIP_LLH_LEN + 9] == UIP_PROTO_TCP && b.len == bufsize - UIP_LLH_LEN {
      var tcplen := b.len - UIP_TCPIP_HLEN;
      var len1, len2 := tcplen / 2, tcplen / 2;
      if len1 + len2 < tcplen { len2 := len2 + 1; }
      MakeFirst(b, len1, p);
      var first := b.TcpipOutput();
      sent := [first];
      MakeSecond(b, len1, len2, p);
      var second := b.TcpipOutput();
      sent := sent + [second];
    } else {
      var whole := b.TcpipOutput();
      sent := [whole];
    }
  }

  // ---- Both packets are valid ----

  lemma UpperSealed(p: seq<byte>)
    requires UIP_TCPIP_HLEN <= |p| <= MAX_PACKET
    ensures
      var r := SealUpper(p);
      && UpperVerifies(r, UIP_PROTO_TCP) && r[2..4] == Be16(|p|)
      && forall i :: 0 <= i < |p| && i != 2 && i != 3 && i != 36 && i != 37 ==> r[i] == p[i]
  {
    var q := Overlay(Overlay(p, 2, Be16(|p|)), 36, [0, 0]);
    var addresses, front, back := q[12..20], q[20..36], q[38..];
    assert q[20..] == front + [0, 0] + back;
    UpperSumOf(q, addresses, front, back, UIP_PROTO_TCP);
    var f := FieldFor(UpperSum(q, UIP_PROTO_TCP));
    UpperFieldVerifies(addresses, front, back, UIP_PROTO_TCP, f);
    FieldWritten(q, Be16(f));
  }

  lemma FieldWritten(q: seq<byte>, field: seq<byte>)
    requires |q| >= UIP_TCPIP_HLEN && |field| == 2
    ensures var r := Overlay(q, 36, field); r[12..20] == q[12..20] && r[20..] == q[20..36] + field + q[38..]
  {
  }

  lemma IpSealed(p: seq<byte>)
    requires UIP_TCPIP_HLEN <= |p| <= MAX_PACKET
    ensures IpVerifies(SealIp(p)) && forall i :: 0 <= i < |p| && i != 10 && i != 11 ==> SealIp(p)[i] == p[i]
  {
    var a, b := p[..10], p[12..20];
    var q := Overlay(p, 10, [0, 0]);
    var f := FieldFor(IpSum(q));
    Around(q, [0, 0], p);
    Around(SealIp(p), Be16(f), p);
    HeaderVerifies(a, f, b);
  }

  lemma HeaderVerifies(a: seq<byte>, f: u16, b: seq<byte>)
    requires |a| == 10 && f == FieldFor(Chksum(0, a + [0, 0] + b))
    ensures Reported(Chksum(0, a + Be16(f) + b)) == 0xffff
  {
    Be16Unique(0, 0);
    FieldVerifiesBetween(0, a, f, b);
  }

  lemma Around(q: seq<byte>, field: seq<byte>, p: seq<byte>)
    requires |q| == |p| >= 20 && |field| == 2 && q[10] == field[0] && q[11] == field[1]
    requires forall i :: 0 <= i < |p| && i != 10 && i != 11 ==> q[i] == p[i]
    ensures q[..20] == p[..10] + field + p[12..20]
  {
  }

  /** Fields written by Resealed. */
  predicate Rewritten(i: int) { i == 2 || i == 3 || i == 10 || i == 11 || i == 36 || i == 37 }

  lemma ResealedVerifies(p: seq<byte>)
    requires UIP_TCPIP_HLEN <= |p| <= MAX_PACKET
    ensures
      var r := Resealed(p);
      && IpVerifies(r) && UpperVerifies(r, UIP_PROTO_TCP) && Join16(r[2], r[3]) == |p|
      && forall i :: 0 <= i < |p| && !Rewritten(i) ==> r[i] == p[i]
  {
    var s, r := SealUpper(p), Resealed(p);
    UpperSealed(p);
    IpSealed(s);
    assert r[2] == s[2..4][0] && r[3] == s[2..4][1];
    assert r[12..20] == s[12..20] && r[20..] == s[20..];
  }

  /** p is accepted as it stands by the host, without TCP options. */
  ghost predicate Accepted(host: u32, p: seq<byte>, e: Ends, s: Segment) {
    && UIP_TCPIP_HLEN <= |p| <= MAX_PACKET && p[32] / 0x10 == 5
    && CheckIp(host, p, UIP_PROTO_TCP) == Some(p) && TcpInput(p) == Some((e, s))
  }

  /** The same, field by field. */
  ghost predicate Carries(host: u32, p: seq<byte>, e: Ends, s: Segment) {
    && UIP_TCPIP_HLEN <= |p| <= MAX_PACKET && p[32] / 0x10 == 5
    && p[0] == 0x45 && Join16(p[2], p[3]) == |p| && p[6] % 0x40 == 0 && p[7] == 0 && p[9] == UIP_PROTO_TCP
    && IpVerifies(p) && UpperVerifies(p, UIP_PROTO_TCP) && Number(p[16..20]) == host
    && e == ReadEnds(p) && e.srcport != 0 && e.destport != 0
    && s == Segment(Number(p[24..28]), Number(p[28..32]), ReadFlags(p[33]), Join16(p[34], p[35]), None, p[UIP_TCPIP_HLEN..])
  }

  lemma AcceptedMeans(host: u32, p: seq<byte>, e: Ends, s: Segment)
    ensures Accepted(host, p, e, s) <==> Carries(host, p, e, s)
  {
    if UIP_TCPIP_HLEN <= |p| <= MAX_PACKET && p[32] / 0x10 == 5 {
      assert p[UIP_TCPIP_HLEN..|p|] == p[UIP_TCPIP_HLEN..] && p[..|p|] == p;
    }
  }

  lemma SameFields(p: seq<byte>, r: seq<byte>)
    requires |p| >= 40 && |r| >= 40
    requires forall i :: 0 <= i < 40 && !Rewritten(i) && !(24 <= i < 28) ==> r[i] == p[i]
    ensures ReadEnds(r) == ReadEnds(p) && r[16..20] == p[16..20] && r[28..32] == p[28..32]
  {
    assert r[12..16] == p[12..16] && r[16..20] == p[16..20] && r[28..32] == p[28..32];
  }

  /** A packet with p's header, another sequence number and other data is accepted like p once resealed. */
  lemma ResealedCarries(host: u32, p: seq<byte>, e: Ends, s: Segment, q: seq<byte>)
    requires Carries(host, p, e, s) && UIP_TCPIP_HLEN <= |q| <= MAX_PACKET
    requires forall i :: 0 <= i < 40 && !Rewritten(i) && !(24 <= i < 28) ==> q[i] == p[i]
    ensures Carries(host, Resealed(q), e, s.(seqno := Number(q[24..28]), data := q[UIP_TCPIP_HLEN..]))
  {
    var r := Resealed(q);
    ResealedVerifies(q);
    SameFields(p, r);
    assert r[24..28] == q[24..28] && r[UIP_TCPIP_HLEN..] == q[UIP_TCPIP_HLEN..];
  }

  /** The two segments: the payload in two pieces, at consecutive sequence numbers, nothing else changed. */
  function Front(s: Segment, n: nat): Segment
    requires n <= |s.data|
  {
    s.(data := s.data[..n])
  }

  function Back(s: Segment, n: nat): Segment
    requires n <= |s.data|
  {
    s.(seqno := Add32(s.seqno, n), data := s.data[n..])
  }

  lemma FirstCarries(host: u32, p: seq<byte>, e: Ends, s: Segment)
    requires Carries(host, p, e, s)
    ensures Carries(host, First(p), e, Front(s, FirstLength(p)))
  {
    var a := p[..UIP_TCPIP_HLEN + FirstLength(p)];
    assert a[24..28] == p[24..28] && a[UIP_TCPIP_HLEN..] == s.data[..FirstLength(p)];
    ResealedCarries(host, p, e, s, a);
  }

  lemma AdvancedFields(h: seq<byte>, seqno: u32, rest: seq<byte>)
    requires |h| == UIP_TCPIP_HLEN
    ensures
      var b := Advanced(h, seqno) + rest;
      b[24..28] == Be32(seqno) && b[UIP_TCPIP_HLEN..] == rest
      && forall i :: 0 <= i < 40 && !(24 <= i < 28) ==> b[i] == h[i]
  {
  }

  /** The second packet before its fields are computed anew. */
  lemma SecondIs(p: seq<byte>)
    requires UIP_TCPIP_HLEN <= |p| <= MAX_PACKET
    ensures
      var n := FirstLength(p);
      Second(p) == Resealed(Advanced(First(p)[..UIP_TCPIP_HLEN], Add32(Number(p[24..28]), n)) + p[UIP_TCPIP_HLEN + n..])
      && p[UIP_TCPIP_HLEN + n..] == p[UIP_TCPIP_HLEN..][n..]
  {
    FirstKeepsHeader(p);
    assert First(p)[24..28] == p[24..28];
  }

  lemma SecondCarries(host: u32, p: seq<byte>, e: Ends, s: Segment)
    requires Carries(host, p, e, s)
    ensures Carries(host, Second(p), e, Back(s, FirstLength(p)))
  {
    var n := FirstLength(p);
    var h, seqno, rest := First(p)[..UIP_TCPIP_HLEN], Add32(s.seqno, n), p[UIP_TCPIP_HLEN + n..];
    FirstKeepsHeader(p);
    SecondIs(p);
    AdvancedFields(h, seqno, rest);
    ResealedCarries(host, p, e, s, Advanced(h, seqno) + rest);
  }

  lemma FirstKeepsHeader(p: seq<byte>)
    requires UIP_TCPIP_HLEN <= |p| <= MAX_PACKET
    ensures forall i :: 0 <= i < 40 && !Rewritten(i) ==> First(p)[i] == p[i]
  {
  }

  /** Both packets pass the input checks and are read as the two segments; their lengths differ by at most one. */
  lemma HalvesAreAccepted(host: u32, p: seq<byte>, e: Ends, s: Segment)
    requires Accepted(host, p, e, s)
    ensures |s.data| == |p| - UIP_TCPIP_HLEN && 0 <= |Second(p)| - |First(p)| <= 1
    ensures Accepted(host, First(p), e, Front(s, FirstLength(p)))
    ensures Accepted(host, Second(p), e, Back(s, FirstLength(p)))
  {
    var n := FirstLength(p);
    AcceptedMeans(host, p, e, s);
    FirstCarries(host, p, e, s);
    SecondCarries(host, p, e, s);
    AcceptedMeans(host, First(p), e, Front(s, n));
    AcceptedMeans(host, Second(p), e, Back(s, n));
  }

  // ---- What the receiver makes of them ----

  predicate GoesOn(r: Reply) { r.ctl == Continue && r.flow != Stop }

  lemma InOrder(m: u16, c: Conn, s: Segment, r: Reply)
    requires c.Is(ESTABLISHED) && Plain(s) && s.seqno == c.rcvNxt && GoesOn(r)
    ensures
      var o := Input(m, c, s, r);
      Shown(o) == s.data && o.conn.rcvNxt == Add32(c.rcvNxt, |s.data|) && o.conn.Is(ESTABLISHED)
  {
  }

  lemma Add32Twice(x: u32, a: nat, b: nat)
    requires a + b <= 0x1_0000
    ensures Add32(Add32(x, a), b) == Add32(x, a + b)
  {
  }

  /** The two segments show the application the bytes of the whole one and leave the same rcv_nxt. */
  lemma HalvesInOrder(m: u16, c: Conn, s: Segment, n: nat, r: Reply, r1: Reply, r2: Reply)
    requires Plain(s) && c.Is(ESTABLISHED) && s.seqno == c.rcvNxt && n <= |s.data|
    requires GoesOn(r) && GoesOn(r1) && GoesOn(r2)
    ensures
      var whole, o1 := Input(m, c, s, r), Input(m, c, Front(s, n), r1);
      var o2 := Input(m, o1.conn, Back(s, n), r2);
      && Shown(o1) + Shown(o2) == Shown(whole) == s.data
      && o2.conn.rcvNxt == whole.conn.rcvNxt && o2.conn.Is(ESTABLISHED)
  {
    InOrder(m, c, s, r);
    InOrder(m, c, Front(s, n), r1);
    InOrder(m, Input(m, c, Front(s, n), r1).conn, Back(s, n), r2);
    Add32Twice(c.rcvNxt, n, |s.data| - n);
    assert s.data[..n] + s.data[n..] == s.data;
  }

  /** Whether the receiver counts the FIN of a segment in sequence. */
  predicate TakesFin(c: Conn, s: Segment) {
    s.flags.fin && match c.state
                   case ESTABLISHED => !c.stopped && (c.len == 0 || Acks(c, s))
                   case FIN_WAIT_1 | FIN_WAIT_2 => true
                   case _ => false
  }

  /** The segment, and the two it is cut into one after the other, show the same bytes and leave the same rcv_nxt. */
  predicate SameStream(m: u16, c: Conn, s: Segment, n: nat, r: Reply, r1: Reply, r2: Reply)
    requires n <= |s.data|
  {
    var whole, o1 := Input(m, c, s, r), Input(m, c, Front(s, n), r1);
    var o2 := Input(m, o1.conn, Back(s, n), r2);
    Shown(o1) + Shown(o2) == Shown(whole) && o2.conn.rcvNxt == whole.conn.rcvNxt
  }

  /** The sequence numbers a receiver past the handshake counts of data in sequence. */
  function Units(c: Conn, s: Segment): (n: nat)
    ensures n <= |s.data| + 1
  {
    match c.state
    case ESTABLISHED => if c.stopped then 0 else if !s.flags.fin then |s.data| else if TakesFin(c, s) then |s.data| + 1 else 0
    case FIN_WAIT_1 | FIN_WAIT_2 => |s.data| + (if s.flags.fin then 1 else 0)
    case _ => 0
  }

  predicate PastHandshake(c: Conn) { c.state !in {SYN_SENT, SYN_RCVD} }

  /** What a segment without RST adds to the stream at a receiver c. */
  predicate Arrives(c: Conn, s: Segment, o: Out) {
    if s.seqno == c.rcvNxt then
      && o.conn.rcvNxt == Add32(c.rcvNxt, Units(c, s))
      && Shown(o) == (if c.state == ESTABLISHED && Units(c, s) > 0 then s.data else [])
      && PastHandshake(o.conn)
      && (s.flags.fin && c.Is(ESTABLISHED) && !TakesFin(c, s) ==> o.conn == c)
      && (!s.flags.fin && c.Is(ESTABLISHED) ==> o.conn.Is(ESTABLISHED))
      && (!s.flags.fin && c.state in {FIN_WAIT_1, FIN_WAIT_2} ==> o.conn.state in {FIN_WAIT_1, FIN_WAIT_2})
      && (c.state !in {ESTABLISHED, FIN_WAIT_1, FIN_WAIT_2} ==> o.conn.state !in {ESTABLISHED, FIN_WAIT_1, FIN_WAIT_2})
    else s.data != [] || s.flags.fin ==> o.conn == c && o.call == None
  }

  lemma SegmentArrives(m: u16, c: Conn, s: Segment, r: Reply)
    requires PastHandshake(c) && !s.flags.rst && GoesOn(r)
    ensures Arrives(c, s, Input(m, c, s, r))
  {
    AckStageFrame(c, s);
    AppSendMoves(m, r);
  }

  /** With nothing in the first packet, as for at most one byte, a stopped receiver may restart before the second one. */
  predicate ProperCut(c: Conn, s: Segment, n: nat) { 0 < n < |s.data| || (n == 0 && !c.stopped) }

  lemma HalvesWithoutFin(c: Conn, s: Segment, n: nat, o1: Out, o2: Out)
    requires PastHandshake(c) && !s.flags.fin && s.seqno == c.rcvNxt && ProperCut(c, s, n)
    requires Arrives(c, Front(s, n), o1) && Arrives(o1.conn, Back(s, n), o2)
    ensures o2.conn.rcvNxt == Add32(c.rcvNxt, Units(c, s))
    ensures Shown(o1) + Shown(o2) == if c.state == ESTABLISHED && Units(c, s) > 0 then s.data else []
  {
    Add32Twice(c.rcvNxt, n, |s.data| - n);
    assert s.data[..n] + s.data[n..] == s.data;
  }

  /** Where the first packet brings the FIN, the second adds nothing. */
  lemma HalvesWithFin(c: Conn, s: Segment, n: nat, o1: Out, o2: Out)
    requires PastHandshake(c) && s.flags.fin && s.seqno == c.rcvNxt && ProperCut(c, s, n)
    requires Arrives(c, Front(s, n), o1) && Arrives(o1.conn, Back(s, n), o2)
    ensures o2.conn.rcvNxt == Add32(c.rcvNxt, if TakesFin(c, s) then n + 1 else 0)
    ensures Shown(o1) + Shown(o2) == if c.state == ESTABLISHED && TakesFin(c, s) then s.data[..n] else []
  {
  }

  lemma Add32Injective(x: u32, a: nat, b: nat)
    requires a <= 0x1_0000 && b <= 0x1_0000 && Add32(x, a) == Add32(x, b)
    ensures a == b
  {
  }

  /**
    Splitting a segment in sequence, with whatever flags but RST, changes the stream if and only if the receiver
    takes its FIN behind data: both packets carry the flag, so that the second one comes too late.
   */
  lemma SplitIsFaithfulExactly(m: u16, c: Conn, s: Segment, n: nat, r: Reply, r1: Reply, r2: Reply)
    requires PastHandshake(c) && !s.flags.rst && s.seqno == c.rcvNxt && ProperCut(c, s, n)
    requires GoesOn(r) && GoesOn(r1) && GoesOn(r2)
    ensures SameStream(m, c, s, n, r, r1, r2) <==> !(TakesFin(c, s) && s.data != [])
  {
    var o1 := Input(m, c, Front(s, n), r1);
    var o2 := Input(m, o1.conn, Back(s, n), r2);
    SegmentArrives(m, c, s, r);
    SegmentArrives(m, c, Front(s, n), r1);
    SegmentArrives(m, o1.conn, Back(s, n), r2);
    if s.flags.fin {
      HalvesWithFin(c, s, n, o1, o2);
      if TakesFin(c, s) && SameStream(m, c, s, n, r, r1, r2) { Add32Injective(c.rcvNxt, n + 1, Units(c, s)); }
    } else {
      HalvesWithoutFin(c, s, n, o1, o2);
    }
  }

  /**
    The packets uip_split_output sends drive the receiver like the packet it was given, if and only if it does not
    take a FIN behind data from it.
   */
  lemma SplitPreservesStream(m: u16, c: Conn, host: u32, p: seq<byte>, e: Ends, s: Segment, r: Reply, r1: Reply, r2: Reply)
    requires Accepted(host, p, e, s) && PastHandshake(c) && !s.flags.rst && s.seqno == c.rcvNxt
    requires GoesOn(r) && GoesOn(r1) && GoesOn(r2)
    ensures |s.data| == |p| - UIP_TCPIP_HLEN && FirstLength(p) <= |s.data|
    ensures
      var n := FirstLength(p);
      && ReceiveTcp(host, First(p)) == Some((e, Front(s, n))) && ReceiveTcp(host, Second(p)) == Some((e, Back(s, n)))
      && (!c.stopped || |s.data| > 1 ==> (SameStream(m, c, s, n, r, r1, r2) <==> !(TakesFin(c, s) && s.data != [])))
      && (c.Is(ESTABLISHED) && Plain(s) ==>
            && Shown(Input(m, c, s, r)) == s.data
            && Input(m, Input(m, c, Front(s, n), r1).conn, Back(s, n), r2).conn.Is(ESTABLISHED))
  {
    var n := FirstLength(p);
    HalvesAreAccepted(host, p, e, s);
    if !c.stopped || |s.data| > 1 { SplitIsFaithfulExactly(m, c, s, n, r, r1, r2); }
    if c.Is(ESTABLISHED) && Plain(s) { HalvesInOrder(m, c, s, n, r, r1, r2); }
  }

  /**
    To the end-to-end theorems the two packets are pieces of what was sent: they hold with uip_split_output
    on the way, in any order and with any loss. Without data both packets repeat the one given.
   */
  lemma HalvesMayArrive(net: set<Segment>, host: u32, p: seq<byte>, e: Ends, s: Segment)
    requires EndToEnd.Carries(net, s) && Accepted(host, p, e, s) && (s.data != [] ==> Plain(s))
    ensures
      var s1, s2 := Front(s, FirstLength(p)), Back(s, FirstLength(p));
      && ReceiveTcp(host, First(p)) == Some((e, s1)) && ReceiveTcp(host, Second(p)) == Some((e, s2))
      && EndToEnd.Carries(net, s1) && EndToEnd.Carries(net, s2)
  {
    HalvesAreAccepted(host, p, e, s);
    var n := FirstLength(p);
    assert Front(s, n) == if s.data == [] then s else EndToEnd.Piece(s, 0, n);
    assert Back(s, n) == if s.data == [] then s else EndToEnd.Piece(s, n, |s.data|);
    EndToEnd.CutsCompose(net, s, Front(s, n));
    EndToEnd.CutsCompose(net, s, Back(s, n));
  }

  /** Overtaken by the second packet, or given the first one twice, the receiver shows and counts nothing wrong. */
  lemma SplitOutOfOrder(m: u16, c: Conn, s: Segment, n: nat, r: Reply)
    requires c.Is(ESTABLISHED) && Plain(s) && 0 < n < |s.data|
    ensures s.seqno == c.rcvNxt ==> Input(m, c, Back(s, n), r) == Out(c, Some(Header(m, c, ACK, [])), None)
    ensures Back(s, n).seqno == c.rcvNxt ==> Input(m, c, Front(s, n), r) == Out(c, Some(Header(m, c, ACK, [])), None)
  {
  }

  /** An instance: the bytes behind the first packet are never shown. */
  lemma SplitLosesDataBeforeFin(m: u16, c: Conn, s: Segment, n: nat, r: Reply)
    requires c.Is(ESTABLISHED) && c.len == 0 && s.flags == FINACK && s.seqno == c.rcvNxt && 0 < n < |s.data|
    ensures
      var o := Input(m, c, Front(s, n), r);
      && Shown(Input(m, c, s, r)) == s.data && Shown(o) == s.data[..n]
      && Input(m, o.conn, Back(s, n), r) == Out(o.conn, Some(Header(m, o.conn, ACK, [])), None)
  {
  }

  /** No event makes the stack send data together with SYN, FIN or RST, so every segment it emits can be split. */
  predicate DataIsPlain(s: Option<Segment>) {
    s.Some? && s.value.data != [] ==> s.value.flags == PSHACK && s.value.mss == None
  }

  lemma AppSendAnywhere(m: u16, r: Reply)
    ensures forall c, cb :: DataIsPlain(AppSend(m, c, cb, r).sent)
  {
  }

  lemma DispatchIsPlain(m: u16, c: Conn, s: Segment, acked: bool, r: Reply)
    ensures DataIsPlain(Dispatch(m, c, s, acked, r).sent)
  {
    AppSendAnywhere(m, r);
  }

  lemma TimerIsPlain(m: u16, c: Conn, r: Reply)
    ensures DataIsPlain(Timer(m, c, r).sent)
  {
  }

  lemma EmittedDataIsPlain(m: u16, c: Conn, s: Segment, r: Reply)
    ensures DataIsPlain(Input(m, c, s, r).sent) && DataIsPlain(Timer(m, c, r).sent)
  {
    TimerIsPlain(m, c, r);
    DispatchIsPlain(m, AckStage(c, s), s, Acks(c, s), r);
  }

  lemma EmittedHeader(e: Ends, s: Segment, ipid: u16)
    requires s.mss == None && |s.data| + UIP_TCPIP_HLEN + 4 <= MAX_PACKET
    ensures
      var p := TcpPacket(e, s, ipid);
      UIP_TCPIP_HLEN <= |p| <= MAX_PACKET && CheckIp(e.destip, p, UIP_PROTO_TCP) == Some(p) && p[32] / 0x10 == 5
  {
    TcpPassesIp(e, s, ipid, TcpPacket(e, s, ipid));
    TcpFields(e, s, ipid, TcpPacket(e, s, ipid));
    FrontFields(e, s, TcpPacket(e, s, ipid));
  }

  /** What the stack sends without options is accepted in this sense. */
  lemma EmittedIsAccepted(e: Ends, s: Segment, ipid: u16)
    requires s.mss == None && |s.data| + UIP_TCPIP_HLEN + 4 <= MAX_PACKET && e.srcport != 0 && e.destport != 0
    ensures Accepted(e.destip, TcpPacket(e, s, ipid), e, s)
  {
    EmittedHeader(e, s, ipid);
    TcpPacketIsAccepted(e, s, ipid);
  }
}
