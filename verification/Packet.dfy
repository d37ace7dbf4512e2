/**
  TCP and UDP packets as bytes, from the IP header on: what uip_process leaves in uip_buf, and the checks it
  makes on what it finds there.
 */
module Packet {
  import opened Bytes
  import opened Tcp
  import opened SeqNumbers
  import opened Checksum

  const UIP_LLH_LEN: nat := 14
  const UIP_IPH_LEN: nat := 20
  const UIP_TCPIP_HLEN: nat := 40
  const UIP_IPUDPH_LEN: nat := 28
  const UIP_PROTO_ICMP: byte := 1
  const UIP_PROTO_TCP: byte := 6
  const UIP_PROTO_UDP: byte := 17
  const UIP_TTL: byte := 64

  /** No packet is longer than this; uip_buf is far smaller. */
  const MAX_PACKET: nat := 0xff00

  /** The addresses and ports of a packet. */
  datatype Ends = Ends(srcip: u32, destip: u32, srcport: u16, destport: u16)

  // ---- Layout ----

  /** The IP header up to the checksum field. */
  function IpFront(len: u16, ipid: u16, ttl: byte, proto: byte): (h: seq<byte>)
    ensures |h| == 10
  {
    [0x45, 0, Be16(len)[0], Be16(len)[1], Be16(ipid)[0], Be16(ipid)[1], 0, 0, ttl, proto]
  }

  function Addresses(srcip: u32, destip: u32): (a: seq<byte>)
    ensures |a| == 8
  {
    [Be32(srcip)[0], Be32(srcip)[1], Be32(srcip)[2], Be32(srcip)[3],
     Be32(destip)[0], Be32(destip)[1], Be32(destip)[2], Be32(destip)[3]]
  }

  function IpHeader(front: seq<byte>, chksum: u16, addresses: seq<byte>): seq<byte> {
    front + Be16(chksum) + addresses
  }

  function Bit(b: bool, v: byte): byte { if b then v else 0 }

  function FlagByte(f: Flags): byte {
    Bit(f.fin, 1) + Bit(f.syn, 2) + Bit(f.rst, 4) + Bit(f.psh, 8) + Bit(f.ack, 16)
  }

  function ReadFlags(b: byte): Flags {
    Flags(fin := b % 2 == 1, syn := b / 2 % 2 == 1, rst := b / 4 % 2 == 1, psh := b / 8 % 2 == 1, ack := b / 16 % 2 == 1)
  }

  function Options(s: Segment): seq<byte> {
    match s.mss
    case None => []
    case Some(v) => [2, 4, Be16(v)[0], Be16(v)[1]]
  }

  /** The TCP header up to the checksum field. */
  function TcpFront(e: Ends, s: Segment): (h: seq<byte>)
    ensures |h| == 16
  {
    [Be16(e.srcport)[0], Be16(e.srcport)[1], Be16(e.destport)[0], Be16(e.destport)[1],
     Be32(s.seqno)[0], Be32(s.seqno)[1], Be32(s.seqno)[2], Be32(s.seqno)[3],
     Be32(s.ackno)[0], Be32(s.ackno)[1], Be32(s.ackno)[2], Be32(s.ackno)[3],
     if s.mss.Some? then 0x60 else 0x50, FlagByte(s.flags), Be16(s.wnd)[0], Be16(s.wnd)[1]]
  }

  /** What follows the checksum field: urgent pointer, options and data. */
  function TcpBack(s: Segment): seq<byte> { [0, 0] + Options(s) + s.data }

  function UdpFront(e: Ends, len: u16): (h: seq<byte>)
    ensures |h| == 6
  {
    [Be16(e.srcport)[0], Be16(e.srcport)[1], Be16(e.destport)[0], Be16(e.destport)[1], Be16(len)[0], Be16(len)[1]]
  }

  // ---- Checksums over a packet ----

  function IpSum(p: seq<byte>): u16
    requires |p| >= UIP_IPH_LEN
  {
    Chksum(0, p[..UIP_IPH_LEN])
  }

  /** upper_layer_chksum without its last line: pseudo-header, addresses, then all that follows the IP header. */
  function UpperSum(p: seq<byte>, proto: byte): u16
    requires UIP_IPH_LEN <= |p| <= MAX_PACKET
  {
    Chksum(Chksum(|p| - UIP_IPH_LEN + proto, p[12..20]), p[UIP_IPH_LEN..])
  }

  predicate IpVerifies(p: seq<byte>)
    requires |p| >= UIP_IPH_LEN
  {
    Reported(IpSum(p)) == 0xffff
  }

  predicate UpperVerifies(p: seq<byte>, proto: byte)
    requires UIP_IPH_LEN <= |p| <= MAX_PACKET
  {
    Reported(UpperSum(p, proto)) == 0xffff
  }

  // ---- Output ----

  /** The checksum field for an upper layer header and body, a zero UDP field becoming 0xffff. */
  function UpperField(addresses: seq<byte>, front: seq<byte>, back: seq<byte>, proto: byte): u16
    requires |front| + |back| + 2 + UIP_IPH_LEN <= MAX_PACKET
  {
    var f := FieldFor(Chksum(Chksum(|front| + 2 + |back| + proto, addresses), front + [0, 0] + back));
    if proto == UIP_PROTO_UDP && f == 0 then 0xffff else f
  }

  /** The packet that leaves label ip_send_nolen for an upper layer header and body. */
  function Seal(ipFront: seq<byte>, addresses: seq<byte>, front: seq<byte>, back: seq<byte>, proto: byte): seq<byte>
    requires |front| + |back| + 2 + UIP_IPH_LEN <= MAX_PACKET
  {
    IpHeader(ipFront, FieldFor(Chksum(0, IpHeader(ipFront, 0, addresses))), addresses)
    + (front + Be16(UpperField(addresses, front, back, proto)) + back)
  }

  function TcpPacket(e: Ends, s: Segment, ipid: u16): seq<byte>
    requires |s.data| + UIP_TCPIP_HLEN + 4 <= MAX_PACKET
  {
    Seal(IpFront(UIP_TCPIP_HLEN + |Options(s)| + |s.data|, ipid, UIP_TTL, UIP_PROTO_TCP),
         Addresses(e.srcip, e.destip), TcpFront(e, s), TcpBack(s), UIP_PROTO_TCP)
  }

  function UdpPacket(e: Ends, data: seq<byte>, ttl: byte, ipid: u16): seq<byte>
    requires |data| + UIP_IPUDPH_LEN <= MAX_PACKET
  {
    Seal(IpFront(UIP_IPUDPH_LEN + |data|, ipid, ttl, UIP_PROTO_UDP),
         Addresses(e.srcip, e.destip), UdpFront(e, |data| + 8), data, UIP_PROTO_UDP)
  }

  // ---- Input ----

  /** The IP checks for one protocol: the packet cut to its length field, or nothing. */
  function CheckIp(host: u32, p: seq<byte>, proto: byte): (r: Option<seq<byte>>)
    ensures r.Some? ==> UIP_IPUDPH_LEN <= |r.value| <= MAX_PACKET && r.value <= p
  {
    if |p| < UIP_IPUDPH_LEN || |p| > MAX_PACKET || p[0] != 0x45 then None
    else
      var len := Join16(p[2], p[3]);
      if len > |p| || len < UIP_IPUDPH_LEN then None
      else
        var q := p[..len];
        if q[6] % 0x40 != 0 || q[7] != 0 then None
        else if Number(q[16..20]) != host || !IpVerifies(q) || q[9] != proto then None
        else Some(q)
  }

  function ReadEnds(q: seq<byte>): Ends
    requires |q| >= 24
  {
    Ends(Number(q[12..16]), Number(q[16..20]), Join16(q[20], q[21]), Join16(q[22], q[23]))
  }

  /** The byte at index i, reads behind the packet giving zero. */
  function At(q: seq<byte>, i: nat): byte { if i < |q| then q[i] else 0 }

  /** The loop over the TCP options from index c up to `end`. */
  function ParseMss(q: seq<byte>, c: nat, end: nat): Option<u16>
    decreases end - c
  {
    if c >= end || At(q, c) == 0 then None
    else if At(q, c) == 1 then ParseMss(q, c + 1, end)
    else if At(q, c) == 2 && At(q, c + 1) == 4 then Some(Join16(At(q, c + 2), At(q, c + 3)))
    else if At(q, c + 1) == 0 then None
    else ParseMss(q, c + At(q, c + 1), end)
  }

  method ParseMssOption(q: seq<byte>, start: nat, end: nat) returns (mss: Option<u16>)
    ensures mss == ParseMss(q, start, end)
  {
    var c := start;
    while c < end
      invariant ParseMss(q, c, end) == ParseMss(q, start, end)
      decreases end - c
    {
      var opt := At(q, c);
      if opt == 0 {
        break;
      } else if opt == 1 {
        c := c + 1;
      } else if opt == 2 && At(q, c + 1) == 4 {
        return Some(Join16(At(q, c + 2), At(q, c + 3)));
      } else {
        if At(q, c + 1) == 0 {
          break;
        }
        c := c + At(q, c + 1);
      }
    }
    return None;
  }

  /** The segment in a TCP packet that passed the checks; header lengths outside the packet are not modelled. */
  function ReadSegment(q: seq<byte>): Option<Segment>
    requires UIP_TCPIP_HLEN <= |q| <= MAX_PACKET
  {
    var off := q[32] / 0x10 * 4;
    if off < 20 || off + UIP_IPH_LEN > |q| then None
    else
      Some(Segment(Number(q[24..28]), Number(q[28..32]), ReadFlags(q[33]), Join16(q[34], q[35]),
                   if off > 20 then ParseMss(q, UIP_TCPIP_HLEN, off + UIP_IPH_LEN) else None,
                   q[UIP_TCPIP_HLEN..UIP_TCPIP_HLEN + |q| - off - UIP_IPH_LEN]))
  }

  /** What is left of tcp_input before the demultiplexing, for a packet that passed the IP checks. */
  function TcpInput(q: seq<byte>): Option<(Ends, Segment)>
    requires UIP_IPUDPH_LEN <= |q| <= MAX_PACKET
  {
    if |q| < UIP_TCPIP_HLEN || !UpperVerifies(q, UIP_PROTO_TCP) then None
    else if ReadEnds(q).srcport == 0 || ReadEnds(q).destport == 0 then None
    else
      match ReadSegment(q)
      case None => None
      case Some(s) => Some((ReadEnds(q), s))
  }

  function ReceiveTcp(host: u32, p: seq<byte>): Option<(Ends, Segment)> {
    match CheckIp(host, p, UIP_PROTO_TCP)
    case None => None
    case Some(q) => TcpInput(q)
  }

  function ReceiveUdp(host: u32, p: seq<byte>): Option<(Ends, seq<byte>)> {
    match CheckIp(host, p, UIP_PROTO_UDP)
    case None => None
    case Some(q) =>
      var e := ReadEnds(q);
      if (q[26] != 0 || q[27] != 0) && !UpperVerifies(q, UIP_PROTO_UDP) then None
      else if e.destport == 0 then None
      else Some((e, q[UIP_IPUDPH_LEN..]))
  }

  // ---- What is sent is accepted ----

  lemma WordsOfField(f: u16)
    ensures Words(Be16(f)) == f
  {
  }

  lemma WordsAround(a: seq<byte>, f: u16, b: seq<byte>)
    requires |a| % 2 == 0
    ensures Words(a + Be16(f) + b) == Words(a) + f + Words(b)
  {
    WordsConcat(a + Be16(f), b);
    WordsConcat(a, Be16(f));
    WordsOfField(f);
  }

  lemma SumAround(sum: u16, a: seq<byte>, f: u16, b: seq<byte>, n: nat)
    requires |a| % 2 == 0 && n == sum + (Words(a) + Words(b)) + f
    ensures Chksum(sum, a + Be16(f) + b) == Fold(n)
  {
    WordsAround(a, f, b);
    ChksumIsFold(sum, a + Be16(f) + b);
  }

  lemma FieldVerifiesBetween(sum: u16, a: seq<byte>, f: u16, b: seq<byte>)
    requires |a| % 2 == 0 && f == FieldFor(Chksum(sum, a + Be16(0) + b))
    ensures Reported(Chksum(sum, a + Be16(f) + b)) == 0xffff
  {
    var n := sum + (Words(a) + Words(b));
    SumAround(sum, a, 0, b, n);
    SumAround(sum, a, f, b, n + f);
    TotalVerifies(n, f);
  }

  lemma TotalVerifies(n: nat, f: u16)
    requires f == FieldFor(Fold(n))
    ensures Reported(Fold(n + f)) == 0xffff
  {
    FieldVerifies(0, n);
  }

  lemma UdpZeroVerifies(n: nat)
    requires FieldFor(Fold(n)) == 0
    ensures Reported(Fold(n + 0xffff)) == 0xffff
  {
  }

  lemma ChksumTwice(sum: u16, a: seq<byte>, b: seq<byte>)
    ensures Chksum(Chksum(sum, a), b) == Fold(sum + Words(a) + Words(b))
  {
    ChksumIsFold(sum, a);
    ChksumIsFold(Chksum(sum, a), b);
    FoldAbsorbs(sum + Words(a), Words(b));
  }

  lemma UpperSumAround(sum: u16, addresses: seq<byte>, a: seq<byte>, f: u16, b: seq<byte>, n: nat)
    requires |a| % 2 == 0 && n == sum + (Words(addresses) + Words(a) + Words(b)) + f
    ensures Chksum(Chksum(sum, addresses), a + Be16(f) + b) == Fold(n)
  {
    ChksumTwice(sum, addresses, a + Be16(f) + b);
    WordsAround(a, f, b);
  }

  lemma UpperFieldVerifies(addresses: seq<byte>, front: seq<byte>, back: seq<byte>, proto: byte, f: u16)
    requires |front| % 2 == 0 && |front| + |back| + 2 + UIP_IPH_LEN <= MAX_PACKET
    requires f == UpperField(addresses, front, back, proto)
    ensures Reported(Chksum(Chksum(|front| + 2 + |back| + proto, addresses), front + Be16(f) + back)) == 0xffff
  {
    var sum0 := |front| + 2 + |back| + proto;
    var n := sum0 + (Words(addresses) + Words(front) + Words(back));
    Be16Unique(0, 0);
    UpperSumAround(sum0, addresses, front, 0, back, n);
    UpperSumAround(sum0, addresses, front, f, back, n + f);
    TotalVerifies(n, FieldFor(Fold(n)));
    if FieldFor(Fold(n)) == 0 { UdpZeroVerifies(n); }
  }

  /** Where the parts of a sealed packet stand; a UDP checksum field is never zero. */
  lemma SealLayout(ipFront: seq<byte>, addresses: seq<byte>, front: seq<byte>, back: seq<byte>, proto: byte)
    requires |ipFront| == 10 && |addresses| == 8 && |front| + |back| + 2 + UIP_IPH_LEN <= MAX_PACKET
    ensures
      var p := Seal(ipFront, addresses, front, back, proto);
      && |p| == UIP_IPH_LEN + |front| + 2 + |back|
      && p[..10] == ipFront && p[12..20] == addresses && p[20..20 + |front|] == front && p[22 + |front|..] == back
      && (proto == UIP_PROTO_UDP ==> p[20 + |front|] != 0 || p[21 + |front|] != 0)
  {
    var c := FieldFor(Chksum(0, IpHeader(ipFront, 0, addresses)));
    PacketParts(ipFront, Be16(c), addresses, front, Be16(UpperField(addresses, front, back, proto)), back);
  }

  /** The header checksum of a sealed packet verifies, whatever the sum was. */
  lemma SealVerifiesIp(ipFront: seq<byte>, addresses: seq<byte>, front: seq<byte>, back: seq<byte>, proto: byte)
    requires |ipFront| == 10 && |addresses| == 8 && |front| + |back| + 2 + UIP_IPH_LEN <= MAX_PACKET
    ensures
      var p := Seal(ipFront, addresses, front, back, proto);
      |p| == UIP_IPH_LEN + |front| + 2 + |back| && IpVerifies(p)
  {
    var c := FieldFor(Chksum(0, IpHeader(ipFront, 0, addresses)));
    FieldVerifiesBetween(0, ipFront, c, addresses);
    PacketParts(ipFront, Be16(c), addresses, front, Be16(UpperField(addresses, front, back, proto)), back);
  }

  lemma SealedUpper(p: seq<byte>, addresses: seq<byte>, front: seq<byte>, back: seq<byte>, proto: byte)
    requires |front| % 2 == 0 && |front| + |back| + 2 + UIP_IPH_LEN <= MAX_PACKET && UIP_IPH_LEN <= |p|
    requires p[12..20] == addresses && p[20..] == front + Be16(UpperField(addresses, front, back, proto)) + back
    ensures |p| <= MAX_PACKET && UpperVerifies(p, proto)
  {
    UpperFieldVerifies(addresses, front, back, proto, UpperField(addresses, front, back, proto));
  }

  /** So does that of the upper layer, whether lengths are odd or even. */
  lemma SealVerifies(ipFront: seq<byte>, addresses: seq<byte>, front: seq<byte>, back: seq<byte>, proto: byte)
    requires |ipFront| == 10 && |addresses| == 8 && |front| % 2 == 0
    requires |front| + |back| + 2 + UIP_IPH_LEN <= MAX_PACKET
    ensures
      var p := Seal(ipFront, addresses, front, back, proto);
      |p| == UIP_IPH_LEN + |front| + 2 + |back| && UpperVerifies(p, proto)
  {
    var c := FieldFor(Chksum(0, IpHeader(ipFront, 0, addresses)));
    PacketParts(ipFront, Be16(c), addresses, front, Be16(UpperField(addresses, front, back, proto)), back);
    SealedUpper(Seal(ipFront, addresses, front, back, proto), addresses, front, back, proto);
  }

  lemma PacketParts(ipFront: seq<byte>, c: seq<byte>, addresses: seq<byte>, front: seq<byte>, f: seq<byte>, back: seq<byte>)
    requires |ipFront| == 10 && |addresses| == 8 && |c| == |f| == 2
    ensures
      var p := (ipFront + c + addresses) + (front + f + back);
      && |p| == UIP_IPH_LEN + |front| + 2 + |back|
      && p[..20] == ipFront + c + addresses && p[20..] == front + f + back
      && p[..10] == ipFront && p[12..20] == addresses && p[20..20 + |front|] == front && p[22 + |front|..] == back
      && p[20 + |front|] == f[0] && p[21 + |front|] == f[1]
  {
  }

  lemma FlagsRoundTrip(f: Flags)
    ensures ReadFlags(FlagByte(f)) == f && FlagByte(f) < 0x20
  {
  }

  lemma Halves(p: seq<byte>, front: seq<byte>, addresses: seq<byte>)
    requires |p| >= 20 && |front| == 10 && |addresses| == 8 && p[..10] == front && p[12..20] == addresses
    ensures forall i :: 0 <= i < 10 ==> p[i] == front[i]
    ensures p[12..16] == addresses[..4] && p[16..20] == addresses[4..]
  {
    assert p[12..16] == p[12..20][..4] && p[16..20] == p[12..20][4..];
    assert forall i :: 0 <= i < 10 ==> p[i] == p[..10][i];
  }

  lemma AddressBytes(srcip: u32, destip: u32)
    ensures Number(Addresses(srcip, destip)[..4]) == srcip && Number(Addresses(srcip, destip)[4..]) == destip
  {
  }

  lemma IpFrontFields(len: u16, ipid: u16, ttl: byte, proto: byte, p: seq<byte>)
    requires |p| >= 10 && forall i :: 0 <= i < 10 ==> p[i] == IpFront(len, ipid, ttl, proto)[i]
    ensures p[0] == 0x45 && Join16(p[2], p[3]) == len && p[6] == 0 && p[7] == 0 && p[9] == proto
  {
  }

  /** The fields of a sealed packet with an IP header of this stack. */
  lemma SealFields(e: Ends, ipid: u16, ttl: byte, front: seq<byte>, back: seq<byte>, proto: byte)
    requires |front| >= 6 && |front| + |back| + 2 + UIP_IPH_LEN <= MAX_PACKET
    ensures
      var len := UIP_IPH_LEN + |front| + 2 + |back|;
      var p := Seal(IpFront(len, ipid, ttl, proto), Addresses(e.srcip, e.destip), front, back, proto);
      && |p| == len && Number(p[12..16]) == e.srcip && Number(p[16..20]) == e.destip
      && p[20..20 + |front|] == front && p[22 + |front|..] == back
      && p[0] == 0x45 && Join16(p[2], p[3]) == len && p[6] == 0 && p[7] == 0 && p[9] == proto
      && (proto == UIP_PROTO_UDP ==> p[20 + |front|] != 0 || p[21 + |front|] != 0)
  {
    var len := UIP_IPH_LEN + |front| + 2 + |back|;
    var ipFront, addresses := IpFront(len, ipid, ttl, proto), Addresses(e.srcip, e.destip);
    SealLayout(ipFront, addresses, front, back, proto);
    var p := Seal(ipFront, addresses, front, back, proto);
    Halves(p, ipFront, addresses);
    IpFrontFields(len, ipid, ttl, proto, p);
    AddressBytes(e.srcip, e.destip);
  }

  /** A sealed packet passes the IP checks of the host it is addressed to. */
  lemma SealPassesIp(e: Ends, ipid: u16, ttl: byte, front: seq<byte>, back: seq<byte>, proto: byte)
    requires |front| % 2 == 0 && |front| >= 6 && |front| + |back| + 2 + UIP_IPH_LEN <= MAX_PACKET
    ensures
      var len := UIP_IPH_LEN + |front| + 2 + |back|;
      var p := Seal(IpFront(len, ipid, ttl, proto), Addresses(e.srcip, e.destip), front, back, proto);
      |p| == len && CheckIp(e.destip, p, proto) == Some(p) && UpperVerifies(p, proto)
  {
    var len := UIP_IPH_LEN + |front| + 2 + |back|;
    var ipFront, addresses := IpFront(len, ipid, ttl, proto), Addresses(e.srcip, e.destip);
    SealVerifiesIp(ipFront, addresses, front, back, proto);
    SealVerifies(ipFront, addresses, front, back, proto);
    SealFields(e, ipid, ttl, front, back, proto);
    IpChecksPass(e.destip, Seal(ipFront, addresses, front, back, proto), proto);
  }

  lemma IpChecksPass(host: u32, p: seq<byte>, proto: byte)
    requires UIP_IPUDPH_LEN <= |p| <= MAX_PACKET && p[0] == 0x45 && Join16(p[2], p[3]) == |p| && p[6] % 0x40 == 0 && p[7] == 0
    requires Number(p[16..20]) == host && IpVerifies(p) && p[9] == proto
    ensures CheckIp(host, p, proto) == Some(p)
  {
    assert p[..|p|] == p;
  }

  /**
    Every TCP packet the stack emits passes the stack's own input checks at the addressed host, and what is
    read from it is the segment that was sent.
   */
  lemma TcpPacketIsAccepted(e: Ends, s: Segment, ipid: u16)
    requires |s.data| + UIP_TCPIP_HLEN + 4 <= MAX_PACKET && (s.mss.Some? ==> s.data == [])
    requires e.srcport != 0 && e.destport != 0
    ensures ReceiveTcp(e.destip, TcpPacket(e, s, ipid)) == Some((e, s))
  {
    TcpPassesIp(e, s, ipid, TcpPacket(e, s, ipid));
    TcpFields(e, s, ipid, TcpPacket(e, s, ipid));
    TcpIsRead(e, s, TcpPacket(e, s, ipid));
  }

  lemma TcpPassesIp(e: Ends, s: Segment, ipid: u16, p: seq<byte>)
    requires |s.data| + UIP_TCPIP_HLEN + 4 <= MAX_PACKET && p == TcpPacket(e, s, ipid)
    ensures UIP_TCPIP_HLEN <= |p| <= MAX_PACKET && CheckIp(e.destip, p, UIP_PROTO_TCP) == Some(p) && UpperVerifies(p, UIP_PROTO_TCP)
  {
    SealPassesIp(e, ipid, UIP_TTL, TcpFront(e, s), TcpBack(s), UIP_PROTO_TCP);
  }

  lemma TcpFields(e: Ends, s: Segment, ipid: u16, p: seq<byte>)
    requires |s.data| + UIP_TCPIP_HLEN + 4 <= MAX_PACKET && p == TcpPacket(e, s, ipid)
    ensures |p| == 38 + |TcpBack(s)| && Number(p[12..16]) == e.srcip && Number(p[16..20]) == e.destip
    ensures p[20..36] == TcpFront(e, s) && p[38..] == TcpBack(s)
  {
    SealFields(e, ipid, UIP_TTL, TcpFront(e, s), TcpBack(s), UIP_PROTO_TCP);
  }

  lemma TcpIsRead(e: Ends, s: Segment, p: seq<byte>)
    requires UIP_TCPIP_HLEN <= |p| <= MAX_PACKET && |p| == 38 + |TcpBack(s)| && (s.mss.Some? ==> s.data == [])
    requires e.srcport != 0 && e.destport != 0 && UpperVerifies(p, UIP_PROTO_TCP)
    requires Number(p[12..16]) == e.srcip && Number(p[16..20]) == e.destip
    requires p[20..36] == TcpFront(e, s) && p[38..] == TcpBack(s)
    ensures TcpInput(p) == Some((e, s))
  {
    FrontFields(e, s, p);
    BackFields(s, p);
    SegmentReadBack(s, p);
  }

  lemma SegmentReadBack(s: Segment, p: seq<byte>)
    requires UIP_TCPIP_HLEN <= |p| <= MAX_PACKET && (s.mss.Some? ==> s.data == [] && |p| == 44)
    requires Number(p[24..28]) == s.seqno && Number(p[28..32]) == s.ackno
    requires p[32] == (if s.mss.Some? then 0x60 else 0x50) && p[33] == FlagByte(s.flags) && Join16(p[34], p[35]) == s.wnd
    requires if s.mss.Some? then ParseMss(p, 40, 44) == s.mss else p[40..] == s.data
    ensures ReadSegment(p) == Some(s)
  {
    FlagsRoundTrip(s.flags);
    assert p[40..|p|] == p[40..];
  }

  lemma FrontFields(e: Ends, s: Segment, p: seq<byte>)
    requires |p| >= 40 && p[20..36] == TcpFront(e, s)
    ensures Join16(p[20], p[21]) == e.srcport && Join16(p[22], p[23]) == e.destport
    ensures Number(p[24..28]) == s.seqno && Number(p[28..32]) == s.ackno
    ensures p[32] == (if s.mss.Some? then 0x60 else 0x50) && p[33] == FlagByte(s.flags) && Join16(p[34], p[35]) == s.wnd
  {
    var f := p[20..36];
    assert forall i :: 20 <= i < 36 ==> p[i] == f[i - 20];
  }

  lemma BackFields(s: Segment, p: seq<byte>)
    requires |p| >= 38 && p[38..] == TcpBack(s) && |p| == 38 + |TcpBack(s)|
    ensures s.mss == None ==> p[40..] == s.data
    ensures s.mss.Some? && s.data == [] ==> |p| == 44 && ParseMss(p, 40, 44) == s.mss
  {
    var b := p[38..];
    assert forall i :: 38 <= i < |p| ==> p[i] == b[i - 38];
    assert p[40..] == b[2..];
  }

  lemma UdpPacketIsAccepted(e: Ends, data: seq<byte>, ttl: byte, ipid: u16)
    requires |data| + UIP_IPUDPH_LEN <= MAX_PACKET && e.destport != 0
    ensures ReceiveUdp(e.destip, UdpPacket(e, data, ttl, ipid)) == Some((e, data))
  {
    var front := UdpFront(e, |data| + 8);
    SealPassesIp(e, ipid, ttl, front, data, UIP_PROTO_UDP);
    SealFields(e, ipid, ttl, front, data, UIP_PROTO_UDP);
    var p := UdpPacket(e, data, ttl, ipid);
    assert forall i :: 20 <= i < 26 ==> p[i] == p[20..26][i - 20];
  }

  /** A segment within UIP_TCP_MSS fits into uip_buf with its link header. */
  lemma TcpPacketFits(bufsize: nat, e: Ends, s: Segment, ipid: u16)
    requires UIP_LLH_LEN + UIP_TCPIP_HLEN + 4 <= bufsize <= MAX_PACKET
    requires |s.data| <= bufsize - UIP_LLH_LEN - UIP_TCPIP_HLEN && (s.mss.Some? ==> s.data == [])
    ensures UIP_LLH_LEN + |TcpPacket(e, s, ipid)| <= bufsize
  {
  }

  /** copylen of uip_send, for application data that starts at index sappdata of uip_buf. */
  function CopyLength(len: int, bufsize: nat, sappdata: nat): int {
    Min(len, bufsize - UIP_LLH_LEN - UIP_TCPIP_HLEN - (sappdata - (UIP_LLH_LEN + UIP_TCPIP_HLEN)))
  }

  /** Where uip_process lets UDP and TCP applications put their data. */
  const UDP_APPDATA: nat := UIP_LLH_LEN + UIP_IPUDPH_LEN
  const TCP_APPDATA: nat := UIP_LLH_LEN + UIP_TCPIP_HLEN

  /** Whatever length it is asked for, uip_send stays inside uip_buf, and for TCP within UIP_TCP_MSS. */
  lemma SendStaysInBuffer(len: int, bufsize: nat)
    ensures UDP_APPDATA + CopyLength(len, bufsize, UDP_APPDATA) <= bufsize
    ensures TCP_APPDATA + CopyLength(len, bufsize, TCP_APPDATA) <= bufsize
    ensures CopyLength(len, bufsize, TCP_APPDATA) <= bufsize - UIP_LLH_LEN - UIP_TCPIP_HLEN
    ensures CopyLength(len, bufsize, UDP_APPDATA) == len <==> UDP_APPDATA + len <= bufsize
    ensures CopyLength(len, bufsize, TCP_APPDATA) == len <==> TCP_APPDATA + len <= bufsize
  {
  }

  /** What uip_send lets a UDP application send fits into uip_buf with its headers, and is accepted as sent. */
  lemma UdpPacketFits(bufsize: nat, e: Ends, data: seq<byte>, len: int, ttl: byte, ipid: u16)
    requires bufsize <= MAX_PACKET && |data| == CopyLength(len, bufsize, UDP_APPDATA) && e.destport != 0
    ensures |data| + UIP_IPUDPH_LEN <= MAX_PACKET
    ensures UIP_LLH_LEN + |UdpPacket(e, data, ttl, ipid)| <= bufsize
    ensures ReceiveUdp(e.destip, UdpPacket(e, data, ttl, ipid)) == Some((e, data))
  {
    SealFields(e, ipid, ttl, UdpFront(e, |data| + 8), data, UIP_PROTO_UDP);
    UdpPacketIsAccepted(e, data, ttl, ipid);
  }
}
