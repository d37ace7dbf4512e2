/** uip_buf and the code that fills in headers and checksums in place, label by label. */
module PacketBuffer {
  import opened Bytes
  import opened Tcp
  import opened SeqNumbers
  import opened Checksum
  import opened Packet

  // ---- The assignments of each label, as functions of the bytes of the packet ----

  /** b with `bytes` written over it from index at. */
  function Overlay(b: seq<byte>, at: nat, bytes: seq<byte>): (r: seq<byte>)
    requires at + |bytes| <= |b|
    ensures |r| == |b|
    ensures forall i :: 0 <= i < |b| ==> r[i] == if at <= i < at + |bytes| then bytes[i - at] else b[i]
  {
    b[..at] + bytes + b[at + |bytes|..]
  }

  /** Overlay keeps what lies beside the bytes written, which then stand where they were put. */
  lemma Outside(b: seq<byte>, at: nat, bytes: seq<byte>, i: nat, j: nat)
    requires at + |bytes| <= |b| && i <= j <= |b| && (j <= at || at + |bytes| <= i)
    ensures Overlay(b, at, bytes)[i..j] == b[i..j] && Overlay(b, at, bytes)[at..at + |bytes|] == bytes
  {
  }

  /** Label tcp_send: offset and flags, the sequence numbers, the protocol. */
  function WithNumbers(p: seq<byte>, s: Segment): (r: seq<byte>)
    requires |p| >= UIP_TCPIP_HLEN
    ensures |r| == |p|
  {
    var p1 := Overlay(p, 32, [if s.mss.Some? then 0x60 else 0x50, FlagByte(s.flags)]);
    Overlay(Overlay(Overlay(p1, 28, Be32(s.ackno)), 24, Be32(s.seqno)), 9, [UIP_PROTO_TCP])
  }

  /** Label tcp_send: ports, addresses and window. */
  function WithEnds(p: seq<byte>, e: Ends, wnd: u16): (r: seq<byte>)
    requires |p| >= UIP_TCPIP_HLEN
    ensures |r| == |p|
  {
    var p1 := Overlay(Overlay(p, 20, Be16(e.srcport)), 22, Be16(e.destport));
    Overlay(Overlay(Overlay(p1, 12, Be32(e.srcip)), 16, Be32(e.destip)), 34, Be16(wnd))
  }

  /** Label tcp_send_noconn up to the checksum. */
  function WithLength(p: seq<byte>, l: u16, ttl: byte): (r: seq<byte>)
    requires |p| >= UIP_TCPIP_HLEN
    ensures |r| == |p|
  {
    Overlay(Overlay(Overlay(Overlay(p, 8, [ttl]), 2, Be16(l)), 38, [0, 0]), 36, [0, 0])
  }

  /** Label ip_send_nolen up to the checksum. */
  function WithIp(p: seq<byte>, id: u16): (r: seq<byte>)
    requires |p| >= UIP_IPH_LEN
    ensures |r| == |p|
  {
    Overlay(Overlay(Overlay(Overlay(p, 0, [0x45, 0]), 6, [0, 0]), 4, Be16(id)), 10, [0, 0])
  }

  /** Label udp_send: lengths, time to live, protocol, and a zero checksum. */
  function WithUdpLength(p: seq<byte>, l: u16, ttl: byte): (r: seq<byte>)
    requires |p| >= UIP_IPUDPH_LEN && l >= UIP_IPH_LEN
    ensures |r| == |p|
  {
    Overlay(Overlay(Overlay(Overlay(p, 2, Be16(l)), 8, [ttl, UIP_PROTO_UDP]), 24, Be16(l - UIP_IPH_LEN)), 26, [0, 0])
  }

  /** Label udp_send: ports and addresses. */
  function WithUdpEnds(p: seq<byte>, e: Ends): (r: seq<byte>)
    requires |p| >= UIP_IPUDPH_LEN
    ensures |r| == |p|
  {
    Overlay(Overlay(Overlay(Overlay(p, 20, Be16(e.srcport)), 22, Be16(e.destport)), 12, Be32(e.srcip)), 16, Be32(e.destip))
  }

  /** What the packet holds before the upper layer checksum. */
  ghost predicate Filled(p: seq<byte>, e: Ends, ttl: byte, proto: byte, part: seq<byte>) {
    && UIP_IPH_LEN <= |p| <= MAX_PACKET
    && p[2..4] == Be16(|p|) && p[8] == ttl && p[9] == proto && p[12..20] == Addresses(e.srcip, e.destip)
    && p[20..] == part
  }

  lemma WithNumbersSlices(p: seq<byte>, s: Segment)
    requires |p| >= UIP_TCPIP_HLEN
    ensures
      var r := WithNumbers(p, s);
      && r[24..28] == Be32(s.seqno) && r[28..32] == Be32(s.ackno)
      && r[32] == (if s.mss.Some? then 0x60 else 0x50) && r[33] == FlagByte(s.flags)
      && r[9] == UIP_PROTO_TCP && r[40..] == p[40..]
  {
    var p1 := Overlay(p, 32, [if s.mss.Some? then 0x60 else 0x50, FlagByte(s.flags)]);
    var p2 := Overlay(p1, 28, Be32(s.ackno));
    var p3 := Overlay(p2, 24, Be32(s.seqno));
    assert p2[28..32] == Be32(s.ackno) && p3[28..32] == p2[28..32] && p3[24..28] == Be32(s.seqno);
    assert WithNumbers(p, s)[24..28] == p3[24..28] && WithNumbers(p, s)[28..32] == p3[28..32];
  }

  lemma WithEndsSlices(p: seq<byte>, e: Ends, wnd: u16)
    requires |p| >= UIP_TCPIP_HLEN
    ensures
      var r := WithEnds(p, e, wnd);
      && r[20..22] == Be16(e.srcport) && r[22..24] == Be16(e.destport) && r[34..36] == Be16(wnd)
      && r[12..16] == Be32(e.srcip) && r[16..20] == Be32(e.destip)
      && r[24..34] == p[24..34] && r[9] == p[9] && r[40..] == p[40..]
  {
    var p1 := Overlay(p, 20, Be16(e.srcport));
    var p2 := Overlay(p1, 22, Be16(e.destport));
    var p3 := Overlay(p2, 12, Be32(e.srcip));
    var p4 := Overlay(p3, 16, Be32(e.destip));
    var r := WithEnds(p, e, wnd);
    assert p1[20..22] == Be16(e.srcport) && p2[20..22] == p1[20..22] && p2[22..24] == Be16(e.destport);
    assert p3[12..16] == Be32(e.srcip) && p4[12..16] == p3[12..16] && p4[16..20] == Be32(e.destip);
    assert r[20..22] == p2[20..22] && r[22..24] == p2[22..24] && r[34..36] == Be16(wnd);
    assert r[12..16] == p4[12..16] && r[16..20] == p4[16..20];
  }

  lemma WithTcpSlices(p: seq<byte>, e: Ends, s: Segment)
    requires |p| >= UIP_TCPIP_HLEN
    ensures
      var r := WithEnds(WithNumbers(p, s), e, s.wnd);
      && r[20..36] == TcpFront(e, s) && r[12..20] == Addresses(e.srcip, e.destip) && r[9] == UIP_PROTO_TCP
      && r[40..] == p[40..]
  {
    var q := WithNumbers(p, s);
    var r := WithEnds(q, e, s.wnd);
    WithNumbersSlices(p, s);
    WithEndsSlices(q, e, s.wnd);
    FrontJoined(r, e, s, q);
  }

  lemma FrontJoined(r: seq<byte>, e: Ends, s: Segment, q: seq<byte>)
    requires |r| == |q| >= UIP_TCPIP_HLEN
    requires r[20..22] == Be16(e.srcport) && r[22..24] == Be16(e.destport) && r[34..36] == Be16(s.wnd)
    requires r[12..16] == Be32(e.srcip) && r[16..20] == Be32(e.destip) && r[24..34] == q[24..34]
    requires q[24..28] == Be32(s.seqno) && q[28..32] == Be32(s.ackno)
    requires q[32] == (if s.mss.Some? then 0x60 else 0x50) && q[33] == FlagByte(s.flags)
    ensures r[20..36] == TcpFront(e, s) && r[12..20] == Addresses(e.srcip, e.destip)
  {
    assert forall i :: 24 <= i < 34 ==> r[i] == r[24..34][i - 24] == q[24..34][i - 24] == q[i];
    assert forall i :: 24 <= i < 28 ==> q[i] == q[24..28][i - 24];
    assert forall i :: 28 <= i < 32 ==> q[i] == q[28..32][i - 28];
    assert r[20] == r[20..22][0] && r[21] == r[20..22][1] && r[22] == r[22..24][0] && r[23] == r[22..24][1];
    assert r[34] == r[34..36][0] && r[35] == r[34..36][1];
    assert forall i :: 12 <= i < 16 ==> r[i] == r[12..16][i - 12];
    assert forall i :: 16 <= i < 20 ==> r[i] == r[16..20][i - 16];
  }

  lemma WithLengthSlices(p: seq<byte>, l: u16, ttl: byte)
    requires |p| >= UIP_TCPIP_HLEN
    ensures
      var r := WithLength(p, l, ttl);
      && r[2..4] == Be16(l) && r[8] == ttl && r[9] == p[9] && r[12..20] == p[12..20] && r[20..36] == p[20..36]
      && r[36..40] == [0, 0, 0, 0] && r[40..] == p[40..]
  {
  }

  lemma WithUdpLengthSlices(p: seq<byte>, l: u16, ttl: byte)
    requires |p| >= UIP_IPUDPH_LEN && l >= UIP_IPH_LEN
    ensures
      var r := WithUdpLength(p, l, ttl);
      && r[2..4] == Be16(l) && r[8] == ttl && r[9] == UIP_PROTO_UDP && r[24..26] == Be16(l - UIP_IPH_LEN)
      && r[26..28] == [0, 0] && r[28..] == p[28..]
  {
    var p1 := Overlay(p, 2, Be16(l));
    var p2 := Overlay(Overlay(p1, 8, [ttl, UIP_PROTO_UDP]), 24, Be16(l - UIP_IPH_LEN));
    var r := WithUdpLength(p, l, ttl);
    assert p1[2..4] == Be16(l) && p2[2..4] == p1[2..4] && p2[24..26] == Be16(l - UIP_IPH_LEN);
    assert r[2..4] == p2[2..4] && r[24..26] == p2[24..26];
  }

  lemma WithUdpEndsSlices(p: seq<byte>, e: Ends)
    requires |p| >= UIP_IPUDPH_LEN
    ensures
      var r := WithUdpEnds(p, e);
      && r[20..22] == Be16(e.srcport) && r[22..24] == Be16(e.destport)
      && r[12..16] == Be32(e.srcip) && r[16..20] == Be32(e.destip)
      && r[2..4] == p[2..4] && r[8] == p[8] && r[9] == p[9] && r[24..26] == p[24..26] && r[26..28] == p[26..28]
      && r[28..] == p[28..]
  {
    var p1 := Overlay(p, 20, Be16(e.srcport));
    var p2 := Overlay(p1, 22, Be16(e.destport));
    var p3 := Overlay(p2, 12, Be32(e.srcip));
    Outside(p1, 22, Be16(e.destport), 20, 22);
    Outside(p2, 12, Be32(e.srcip), 20, 22);
    Outside(p2, 12, Be32(e.srcip), 22, 24);
    Outside(p3, 16, Be32(e.destip), 12, 16);
    Outside(p3, 16, Be32(e.destip), 20, 22);
    Outside(p3, 16, Be32(e.destip), 22, 24);
  }

  lemma UdpFilled(p: seq<byte>, e: Ends, ttl: byte)
    requires UIP_IPUDPH_LEN <= |p| <= MAX_PACKET
    ensures Filled(WithUdpEnds(WithUdpLength(p, |p|, ttl), e), e, ttl, UIP_PROTO_UDP,
                   UdpFront(e, |p| - UIP_IPH_LEN) + [0, 0] + p[28..])
  {
    var q := WithUdpLength(p, |p|, ttl);
    var r := WithUdpEnds(q, e);
    WithUdpLengthSlices(p, |p|, ttl);
    WithUdpEndsSlices(q, e);
    UdpJoined(r, e, |p| - UIP_IPH_LEN);
  }

  lemma UdpJoined(r: seq<byte>, e: Ends, l: u16)
    requires |r| >= UIP_IPUDPH_LEN && r[12..16] == Be32(e.srcip) && r[16..20] == Be32(e.destip)
    requires r[20..22] == Be16(e.srcport) && r[22..24] == Be16(e.destport) && r[24..26] == Be16(l) && r[26..28] == [0, 0]
    ensures r[12..20] == Addresses(e.srcip, e.destip) && r[20..] == UdpFront(e, l) + [0, 0] + r[28..]
  {
    var front := UdpFront(e, l);
    assert r[12..20] == r[12..16] + r[16..20];
    assert forall i :: 20 <= i < 22 ==> r[i] == r[20..22][i - 20];
    assert forall i :: 22 <= i < 24 ==> r[i] == r[22..24][i - 22];
    assert forall i :: 24 <= i < 26 ==> r[i] == r[24..26][i - 24];
    assert r[20..26] == front;
    assert r[20..] == r[20..26] + r[26..28] + r[28..];
  }

  lemma TcpFilled(p: seq<byte>, e: Ends, s: Segment)
    requires UIP_TCPIP_HLEN <= |p| <= MAX_PACKET && p[40..] == Options(s) + s.data
    ensures Filled(WithLength(WithEnds(WithNumbers(p, s), e, s.wnd), |p|, UIP_TTL), e, UIP_TTL, UIP_PROTO_TCP, TcpFront(e, s) + [0, 0] + TcpBack(s))
  {
    WithTcpSlices(p, e, s);
    WithLengthSlices(WithEnds(WithNumbers(p, s), e, s.wnd), |p|, UIP_TTL);
    var r := WithLength(WithEnds(WithNumbers(p, s), e, s.wnd), |p|, UIP_TTL);
    assert r[20..] == r[20..36] + r[36..40] + r[40..];
    TcpPartSplits(TcpFront(e, s), Options(s) + s.data);
    assert [0, 0] + (Options(s) + s.data) == TcpBack(s);
  }

  lemma TcpPartSplits(front: seq<byte>, rest: seq<byte>)
    ensures front + [0, 0, 0, 0] + rest == front + [0, 0] + ([0, 0] + rest)
  {
  }

  lemma IpFilled(p: seq<byte>, e: Ends, ttl: byte, proto: byte, part: seq<byte>, id: u16)
    requires Filled(p, e, ttl, proto, part)
    ensures WithIp(p, id) == IpFront(|p|, id, ttl, proto) + [0, 0] + (Addresses(e.srcip, e.destip) + part)
  {
    FrontFilled(p, id, Be16(id));
    FrontIsIpFront(p, |p|, id, ttl, proto, Be16(id));
    CutHeader(WithIp(p, id));
    CutHeader(p);
  }

  lemma FrontFilled(p: seq<byte>, id: u16, field: seq<byte>)
    requires |p| >= UIP_IPH_LEN && field == Be16(id)
    ensures
      var r := WithIp(p, id);
      && r[..10] == [0x45, 0, p[2], p[3], field[0], field[1], 0, 0, p[8], p[9]]
      && r[10..12] == [0, 0] && r[12..] == p[12..]
  {
    var p1 := Overlay(Overlay(p, 0, [0x45, 0]), 6, [0, 0]);
    assert p1[..10] == [0x45, 0, p[2], p[3], p[4], p[5], 0, 0, p[8], p[9]] && p1[12..] == p[12..];
  }

  lemma FrontIsIpFront(p: seq<byte>, l: u16, id: u16, ttl: byte, proto: byte, field: seq<byte>)
    requires |p| >= UIP_IPH_LEN && p[2..4] == Be16(l) && p[8] == ttl && p[9] == proto && field == Be16(id)
    ensures [0x45, 0, p[2], p[3], field[0], field[1], 0, 0, p[8], p[9]] == IpFront(l, id, ttl, proto)
  {
    assert p[2] == p[2..4][0] && p[3] == p[2..4][1];
  }

  lemma CutHeader(r: seq<byte>)
    requires |r| >= UIP_IPH_LEN
    ensures r == r[..10] + r[10..12] + r[12..] && r[12..] == r[12..20] + r[20..]
  {
  }

  lemma HeaderSplits(front: seq<byte>, field: seq<byte>, addresses: seq<byte>, part: seq<byte>)
    requires |front| == 10 && |field| == 2 && |addresses| == 8
    ensures (front + field + addresses) + part == front + field + (addresses + part)
    ensures (front + field + (addresses + part))[..20] == front + field + addresses
  {
  }

  lemma PartBehindHead(head: seq<byte>, front: seq<byte>, field: seq<byte>, back: seq<byte>)
    ensures (head + front) + field + back == head + (front + field + back)
    ensures (head + (front + field + back))[|head|..] == front + field + back
    ensures (head + (front + field + back))[..|head|] == head
  {
  }

  lemma SubSlice(b: seq<byte>, i: nat, j: nat, k: nat, n: nat)
    requires i <= j <= |b| && k <= n <= j - i
    ensures b[i..j][k..n] == b[i + k..i + n] && (n == j - i ==> b[i..j][k..] == b[i + k..i + n])
  {
    var x, y := b[i..j][k..n], b[i + k..i + n];
    assert forall q :: 0 <= q < n - k ==> x[q] == b[i..j][k + q] == b[i + (k + q)] == y[q];
    assert x == y;
  }

  lemma UdpField(addresses: seq<byte>, front: seq<byte>, data: seq<byte>, sum: u16)
    requires |front| + |data| + 2 + UIP_IPH_LEN <= MAX_PACKET
    requires sum == Reported(Chksum(Chksum(|front| + 2 + |data| + UIP_PROTO_UDP, addresses), front + [0, 0] + data))
    ensures UpperField(addresses, front, data, UIP_PROTO_UDP) == 0xffff - (if sum == 0xffff then 0 else sum)
  {
  }

  lemma TcpField(addresses: seq<byte>, front: seq<byte>, back: seq<byte>, sum: u16)
    requires |front| + |back| + 2 + UIP_IPH_LEN <= MAX_PACKET
    requires sum == Reported(Chksum(Chksum(|front| + 2 + |back| + UIP_PROTO_TCP, addresses), front + [0, 0] + back))
    ensures UpperField(addresses, front, back, UIP_PROTO_TCP) == 0xffff - sum
  {
  }

  lemma TcpPacketSealed(e: Ends, s: Segment, ipid: u16, len: nat)
    requires len == UIP_TCPIP_HLEN + |Options(s)| + |s.data| <= MAX_PACKET && |s.data| + UIP_TCPIP_HLEN + 4 <= MAX_PACKET
    ensures TcpPacket(e, s, ipid) == Seal(IpFront(len, ipid, UIP_TTL, UIP_PROTO_TCP), Addresses(e.srcip, e.destip),
                                          TcpFront(e, s), TcpBack(s), UIP_PROTO_TCP)
  {
  }

  lemma UpperSumOf(p: seq<byte>, addresses: seq<byte>, front: seq<byte>, back: seq<byte>, proto: byte)
    requires UIP_IPH_LEN <= |p| <= MAX_PACKET && p[12..20] == addresses && p[20..] == front + [0, 0] + back
    ensures UpperSum(p, proto) == Chksum(Chksum(|front| + 2 + |back| + proto, addresses), front + [0, 0] + back)
  {
  }

  // ---- The buffer ----

  class UipBuf {
    const buf: array<byte>
    var len: nat
    var ipid: u16

    constructor (size: nat)
      requires size >= UIP_LLH_LEN + UIP_TCPIP_HLEN + 4
      ensures buf.Length == size && fresh(buf) && len == 0 && Valid()
    {
      buf := new byte[size](i => 0);
      len, ipid := 0, 0;
    }

    ghost predicate Valid()
      reads this`len
    {
      UIP_LLH_LEN + len <= buf.Length
    }

    /** The packet: uip_len bytes behind the link header. */
    ghost function Packet(): (p: seq<byte>)
      requires Valid()
      reads this`len, buf
      ensures |p| == len
    {
      buf[..][UIP_LLH_LEN..UIP_LLH_LEN + len]
    }

    /** What the buffer holds behind the packet. */
    ghost function Tail(): (t: seq<byte>)
      requires Valid()
      reads this`len, buf
    {
      buf[..][UIP_LLH_LEN + len..]
    }

    /** Writes bytes from offset `at` of the packet on. */
    method Put(at: nat, bytes: seq<byte>)
      requires Valid() && at + |bytes| <= len
      modifies buf
      ensures Packet() == Overlay(old(Packet()), at, bytes)
      ensures Tail() == old(Tail())
    {
      forall i | 0 <= i < |bytes| {
        buf[UIP_LLH_LEN + at + i] := bytes[i];
      }
    }

    /** tcpip_output: the packet as the network device gets it. */
    method TcpipOutput() returns (p: seq<byte>)
      requires Valid()
      ensures p == Packet()
    {
      p := buf[..][UIP_LLH_LEN..UIP_LLH_LEN + len];
    }

    /** uip_ipchksum; the caller stores its complement. */
    method UipIpchksum() returns (sum: u16)
      requires Valid() && UIP_IPH_LEN <= len
      ensures sum == Reported(IpSum(Packet()))
    {
      sum := ComputeChksum(0, buf, UIP_LLH_LEN, UIP_IPH_LEN);
      SubSlice(buf[..], UIP_LLH_LEN, UIP_LLH_LEN + len, 0, UIP_IPH_LEN);
      assert buf[UIP_LLH_LEN..UIP_LLH_LEN + UIP_IPH_LEN] == buf[..][UIP_LLH_LEN..UIP_LLH_LEN + UIP_IPH_LEN];
      if sum == 0 { sum := 0xffff; }
    }

    /** upper_layer_chksum, which takes the length from the IP header. */
    method UpperLayerChksum(proto: byte) returns (sum: u16)
      requires Valid() && UIP_IPH_LEN <= len <= MAX_PACKET
      requires Join16(Packet()[2], Packet()[3]) == len
      ensures sum == Reported(UpperSum(Packet(), proto))
    {
      var upperLayerLen := Join16(buf[UIP_LLH_LEN + 2], buf[UIP_LLH_LEN + 3]) - UIP_IPH_LEN;
      sum := upperLayerLen + proto;
      sum := ComputeChksum(sum, buf, UIP_LLH_LEN + 12, 8);
      sum := ComputeChksum(sum, buf, UIP_LLH_LEN + UIP_IPH_LEN, upperLayerLen);
      ghost var b := buf[..];
      SubSlice(b, UIP_LLH_LEN, UIP_LLH_LEN + len, 12, 20);
      SubSlice(b, UIP_LLH_LEN, UIP_LLH_LEN + len, UIP_IPH_LEN, len);
      assert buf[UIP_LLH_LEN + 12..UIP_LLH_LEN + 20] == b[UIP_LLH_LEN + 12..UIP_LLH_LEN + 20];
      assert buf[UIP_LLH_LEN + UIP_IPH_LEN..UIP_LLH_LEN + len] == b[UIP_LLH_LEN + UIP_IPH_LEN..UIP_LLH_LEN + len];
      if sum == 0 { sum := 0xffff; }
    }

    /** Label tcp_send, the options having been written: the TCP header up to the window, and the addresses. */
    method FillTcp(e: Ends, s: Segment)
      requires Valid() && UIP_TCPIP_HLEN <= len
      modifies buf
      ensures Packet() == WithEnds(WithNumbers(old(Packet()), s), e, s.wnd)
    {
      Put(32, [if s.mss.Some? then 0x60 else 0x50, FlagByte(s.flags)]);
      Put(28, Be32(s.ackno));
      Put(24, Be32(s.seqno));
      Put(9, [UIP_PROTO_TCP]);
      Put(20, Be16(e.srcport));
      Put(22, Be16(e.destport));
      Put(12, Be32(e.srcip));
      Put(16, Be32(e.destip));
      Put(34, Be16(s.wnd));
    }

    /** Label tcp_send_noconn up to the checksum. */
    method FillLength(ttl: byte)
      requires Valid() && UIP_TCPIP_HLEN <= len < 0x1_0000
      modifies buf
      ensures Packet() == WithLength(old(Packet()), len, ttl)
    {
      Put(8, [ttl]);
      Put(2, Be16(len));
      Put(38, [0, 0]);
      Put(36, [0, 0]);
    }

    /** Label ip_send_nolen up to the checksum. */
    method FillIp()
      requires Valid() && UIP_IPH_LEN <= len
      modifies buf, this`ipid
      ensures ipid == Wrap16(old(ipid) + 1)
      ensures Packet() == WithIp(old(Packet()), ipid)
    {
      Put(0, [0x45, 0]);
      Put(6, [0, 0]);
      ipid := Wrap16(ipid + 1);
      Put(4, Be16(ipid));
      Put(10, [0, 0]);
    }

    /** Stores the complement of a sum in the zeroed checksum field behind a. */
    method StoreChksum(sum: u16, at: nat, ghost a: seq<byte>, ghost b: seq<byte>)
      requires Valid() && |a| == at && Packet() == a + [0, 0] + b
      modifies buf
      ensures Packet() == a + Be16(0xffff - sum) + b
    {
      Put(at, Be16(0xffff - sum));
    }

    /** The IP header checksum, over a header with zero in its field. */
    method SealIp(ghost front: seq<byte>, ghost addresses: seq<byte>, ghost part: seq<byte>)
      requires Valid() && |front| == 10 && |addresses| == 8 && Packet() == front + [0, 0] + (addresses + part)
      modifies buf
      ensures Packet() == IpHeader(front, FieldFor(Chksum(0, IpHeader(front, 0, addresses))), addresses) + part
    {
      HeaderSplits(front, [0, 0], addresses, part);
      Be16Unique(0, 0);
      var sum := UipIpchksum();
      StoreChksum(sum, 10, front, addresses + part);
      HeaderSplits(front, Be16(0xffff - sum), addresses, part);
    }

    /** Label ip_send_nolen: the rest of the IP header and its checksum. */
    method SendNolen(ghost e: Ends, ghost ttl: byte, ghost proto: byte, ghost part: seq<byte>)
      requires Valid() && Filled(Packet(), e, ttl, proto, part)
      modifies buf, this`ipid
      ensures ipid == Wrap16(old(ipid) + 1)
      ensures
        var front, addresses := IpFront(len, ipid, ttl, proto), Addresses(e.srcip, e.destip);
        Packet() == IpHeader(front, FieldFor(Chksum(0, IpHeader(front, 0, addresses))), addresses) + part
    {
      ghost var p := Packet();
      FillIp();
      IpFilled(p, e, ttl, proto, part, ipid);
      SealIp(IpFront(len, ipid, ttl, proto), Addresses(e.srcip, e.destip), part);
    }

    /** The upper layer checksum of a TCP packet, then label ip_send_nolen. */
    method SealTcp(ghost e: Ends, ghost front: seq<byte>, ghost back: seq<byte>)
      requires Valid() && |front| == 16
      requires Filled(Packet(), e, UIP_TTL, UIP_PROTO_TCP, front + [0, 0] + back)
      modifies buf, this`ipid
      ensures ipid == Wrap16(old(ipid) + 1)
      ensures Packet() == Seal(IpFront(len, ipid, UIP_TTL, UIP_PROTO_TCP), Addresses(e.srcip, e.destip), front, back, UIP_PROTO_TCP)
    {
      ghost var head := Packet()[..20];
      assert Packet() == (head + front) + [0, 0] + back;
      assert Packet()[2] == Packet()[2..4][0] && Packet()[3] == Packet()[2..4][1];
      ghost var addresses := Addresses(e.srcip, e.destip);
      UpperSumOf(Packet(), addresses, front, back, UIP_PROTO_TCP);
      var sum := UpperLayerChksum(UIP_PROTO_TCP);
      TcpField(addresses, front, back, sum);
      StoreChksum(sum, 36, head + front, back);
      ghost var part := front + Be16(0xffff - sum) + back;
      PartBehindHead(head, front, Be16(0xffff - sum), back);
      SendNolen(e, UIP_TTL, UIP_PROTO_TCP, part);
    }

    /**
      Labels tcp_send to ip_send_nolen: with uip_len set and options and data in place behind the header,
      the buffer ends up holding the packet that TcpPacket describes.
     */
    method SendTcp(e: Ends, s: Segment)
      requires Valid() && len <= MAX_PACKET - 4
      requires len == UIP_TCPIP_HLEN + |Options(s)| + |s.data| && Packet()[40..] == Options(s) + s.data
      modifies buf, this`ipid
      ensures ipid == Wrap16(old(ipid) + 1)
      ensures Packet() == TcpPacket(e, s, ipid)
    {
      TcpFilled(Packet(), e, s);
      FillTcp(e, s);
      FillLength(UIP_TTL);
      SealTcp(e, TcpFront(e, s), TcpBack(s));
      TcpPacketSealed(e, s, ipid, len);
    }

    /**
      uip_send into application data at index sappdata; no data stands for the pointer uip_sappdata itself. The
      result is the new uip_slen.
     */
    method UipSend(bufsize: nat, sappdata: nat, data: Option<seq<byte>>, len: int, slen0: u16) returns (slen: u16)
      requires sappdata <= bufsize <= buf.Length && bufsize < 0x1_0000 && (data.Some? ==> len <= |data.value|)
      modifies buf
      ensures
        var n := CopyLength(len, bufsize, sappdata);
        if n <= 0 then slen == slen0 && buf[..] == old(buf[..])
        else slen == n && sappdata + n <= buf.Length
             && buf[..] == (if data.Some? then Overlay(old(buf[..]), sappdata, data.value[..n]) else old(buf[..]))
    {
      slen := slen0;
      var room := bufsize - UIP_LLH_LEN - UIP_TCPIP_HLEN - (sappdata - (UIP_LLH_LEN + UIP_TCPIP_HLEN));
      var copylen := if len < room then len else room;
      if copylen > 0 {
        slen := copylen;
        if data.Some? {
          forall i | 0 <= i < slen {
            buf[sappdata + i] := data.value[i];
          }
        }
      }
    }

    /** A UDP application sends: uip_send, then label udp_send, where nothing to send drops the packet. */
    method UdpApplicationSends(bufsize: nat, e: Ends, ttl: byte, data: seq<byte>)
      requires UDP_APPDATA <= bufsize <= buf.Length && bufsize <= MAX_PACKET
      modifies buf, this`ipid, this`len
      ensures Valid() && UIP_LLH_LEN + len <= bufsize
      ensures
        var n := CopyLength(|data|, bufsize, UDP_APPDATA);
        if n == 0 then len == 0
        else 0 < n <= |data| && n + UIP_IPUDPH_LEN <= MAX_PACKET && ipid == Wrap16(old(ipid) + 1)
             && Packet() == UdpPacket(e, data[..n], ttl, ipid)
    {
      var slen := UipSend(bufsize, UDP_APPDATA, Some(data), |data|, 0);
      if slen == 0 {
        len := 0;
        return;
      }
      len := slen + UIP_IPUDPH_LEN;
      assert Packet()[28..] == data[..slen];
      SendUdp(e, ttl, data[..slen]);
    }

    /** Label udp_send: uip_len is set and the data in place behind the header. */
    method SendUdp(e: Ends, ttl: byte, ghost data: seq<byte>)
      requires Valid() && UIP_IPUDPH_LEN <= len <= MAX_PACKET && Packet()[28..] == data
      modifies buf, this`ipid
      ensures ipid == Wrap16(old(ipid) + 1)
      ensures Packet() == UdpPacket(e, data, ttl, ipid)
    {
      UdpFilled(Packet(), e, ttl);
      FillUdp(e, ttl);
      SealUdp(e, ttl, UdpFront(e, len - UIP_IPH_LEN), data);
    }

    method FillUdp(e: Ends, ttl: byte)
      requires Valid() && UIP_IPUDPH_LEN <= len < 0x1_0000
      modifies buf
      ensures Packet() == WithUdpEnds(WithUdpLength(old(Packet()), len, ttl), e)
    {
      FillUdpLength(ttl);
      Put(20, Be16(e.srcport));
      Put(22, Be16(e.destport));
      Put(12, Be32(e.srcip));
      Put(16, Be32(e.destip));
    }

    method FillUdpLength(ttl: byte)
      requires Valid() && UIP_IPUDPH_LEN <= len < 0x1_0000
      modifies buf
      ensures Packet() == WithUdpLength(old(Packet()), len, ttl)
    {
      Put(2, Be16(len));
      Put(8, [ttl, UIP_PROTO_UDP]);
      Put(24, Be16(len - UIP_IPH_LEN));
      Put(26, [0, 0]);
    }

    /** The UDP checksum, a zero being sent as 0xffff, then label ip_send_nolen. */
    method SealUdp(ghost e: Ends, ghost ttl: byte, ghost front: seq<byte>, ghost data: seq<byte>)
      requires Valid() && |front| == 6
      requires Filled(Packet(), e, ttl, UIP_PROTO_UDP, front + [0, 0] + data)
      modifies buf, this`ipid
      ensures ipid == Wrap16(old(ipid) + 1)
      ensures Packet() == Seal(IpFront(len, ipid, ttl, UIP_PROTO_UDP), Addresses(e.srcip, e.destip), front, data, UIP_PROTO_UDP)
    {
      ghost var head, addresses := Packet()[..20], Addresses(e.srcip, e.destip);
      assert Packet()[2] == Packet()[2..4][0] && Packet()[3] == Packet()[2..4][1];
      assert Packet() == head + (front + [0, 0] + data);
      StoreUdpChksum(head, addresses, front, data);
      ghost var part := front + Be16(UpperField(addresses, front, data, UIP_PROTO_UDP)) + data;
      PartBehindHead(head, front, Be16(UpperField(addresses, front, data, UIP_PROTO_UDP)), data);
      SendNolen(e, ttl, UIP_PROTO_UDP, part);
    }

    method StoreUdpChksum(ghost head: seq<byte>, ghost addresses: seq<byte>, ghost front: seq<byte>, ghost data: seq<byte>)
      requires Valid() && UIP_IPUDPH_LEN <= len <= MAX_PACKET && |front| == 6 && |head| == 20 && addresses == Packet()[12..20]
      requires Packet() == head + (front + [0, 0] + data) && Join16(Packet()[2], Packet()[3]) == len
      modifies buf
      ensures Packet() == head + (front + Be16(UpperField(addresses, front, data, UIP_PROTO_UDP)) + data)
    {
      PartBehindHead(head, front, [0, 0], data);
      UpperSumOf(Packet(), addresses, front, data, UIP_PROTO_UDP);
      var sum := UpperLayerChksum(UIP_PROTO_UDP);
      ghost var reported := sum;
      if sum == 0xffff { sum := 0; }
      UdpField(addresses, front, data, reported);
      StoreChksum(sum, 26, head + front, data);
      PartBehindHead(head, front, Be16(0xffff - sum), data);
    }
  }
}
