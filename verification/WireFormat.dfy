/** The packets of the stack by their bytes: what it sends, what it accepts, and how it reads TCP options. */
module WireFormat {
  import opened Bytes
  import opened Tcp
  import opened SeqNumbers
  import opened Checksum
  import opened Packet

  // ---- TCP options ----

  /** No-operation, maximum segment size, or another option of the given length (section 3.1 of RFC 793). */
  datatype TcpOption = NoOperation | SegmentSize(size: u16) | Other(kind: byte, length: byte)

  /** From index c of q on stand these options, up to `end` or to an end-of-list option. */
  predicate Lists(q: seq<byte>, c: nat, end: nat, os: seq<TcpOption>)
    decreases |os|
  {
    if os == [] then c == end || (c < end && At(q, c) == 0)
    else
      && c < end
      && match os[0]
         case NoOperation => At(q, c) == 1 && Lists(q, c + 1, end, os[1..])
         case SegmentSize(size) =>
           At(q, c) == 2 && At(q, c + 1) == 4 && Join16(At(q, c + 2), At(q, c + 3)) == size && Lists(q, c + 4, end, os[1..])
         case Other(kind, length) =>
           At(q, c) == kind > 1 && At(q, c + 1) == length > 0 && !(kind == 2 && length == 4) && Lists(q, c + length, end, os[1..])
  }

  function FirstSize(os: seq<TcpOption>): Option<u16> {
    if os == [] then None else if os[0].SegmentSize? then Some(os[0].size) else FirstSize(os[1..])
  }

  /** The segment size read from a list of options is that of the first option of this kind, wherever it stands. */
  lemma {:induction false} FirstSizeIsRead(q: seq<byte>, c: nat, end: nat, os: seq<TcpOption>)
    requires Lists(q, c, end, os)
    ensures ParseMss(q, c, end) == FirstSize(os)
    decreases |os|
  {
    if os != [] {
      match os[0]
      case NoOperation => FirstSizeIsRead(q, c + 1, end, os[1..]);
      case SegmentSize(_) =>
      case Other(_, length) => FirstSizeIsRead(q, c + length, end, os[1..]);
    }
  }

  // ---- On the wire ----

  /** A number of 16 and one of 32 bits in network byte order. */
  function Net16(p: seq<byte>, i: nat): nat
    requires i + 2 <= |p|
  {
    var hi: int, lo: int := p[i], p[i + 1];
    256 * hi + lo
  }

  function Net32(p: seq<byte>, i: nat): nat
    requires i + 4 <= |p|
  {
    65536 * Net16(p, i) + Net16(p, i + 2)
  }

  lemma NumberIsNet32(p: seq<byte>, i: nat)
    requires i + 4 <= |p|
    ensures Number(p[i..i + 4]) == Net32(p, i)
  {
  }

  /** The IP header (section 3.1 of RFC 791) of a sealed packet: version 4, no options, no fragments. */
  lemma IpHeaderOnTheWire(e: Ends, ipid: u16, ttl: byte, front: seq<byte>, back: seq<byte>, proto: byte)
    requires |front| >= 6 && |front| + |back| + 2 + UIP_IPH_LEN <= MAX_PACKET
    ensures
      var len := 20 + |front| + 2 + |back|;
      var p := Seal(IpFront(len, ipid, ttl, proto), Addresses(e.srcip, e.destip), front, back, proto);
      && |p| == len && p[0] == 0x45 && p[1] == 0 && Net16(p, 2) == len && Net16(p, 4) == ipid && p[6] == p[7] == 0
      && p[8] == ttl && p[9] == proto && Net32(p, 12) == e.srcip && Net32(p, 16) == e.destip
  {
    var len := 20 + |front| + 2 + |back|;
    var ipFront, addresses := IpFront(len, ipid, ttl, proto), Addresses(e.srcip, e.destip);
    var p := Seal(ipFront, addresses, front, back, proto);
    SealLayout(ipFront, addresses, front, back, proto);
    Halves(p, ipFront, addresses);
    IpFrontBytes(len, ipid, ttl, proto);
    AddressBytes(e.srcip, e.destip);
    NumberIsNet32(p, 12);
    NumberIsNet32(p, 16);
  }

  lemma IpFrontBytes(len: u16, ipid: u16, ttl: byte, proto: byte)
    ensures
      var h := IpFront(len, ipid, ttl, proto);
      h[0] == 0x45 && h[1] == 0 && Net16(h, 2) == len && Net16(h, 4) == ipid && h[6] == h[7] == 0 && h[8] == ttl && h[9] == proto
  {
  }

  /** The TCP header (section 3.1 of RFC 793) of every packet the stack emits, and what follows it. */
  lemma TcpPacketOnTheWire(e: Ends, s: Segment, ipid: u16)
    requires |s.data| + UIP_TCPIP_HLEN + 4 <= MAX_PACKET
    ensures
      var p := TcpPacket(e, s, ipid);
      && |p| == Net16(p, 2) == 40 + (if s.mss.Some? then 4 else 0) + |s.data|
      && p[0] == 0x45 && p[6] == p[7] == 0 && p[8] == 64 && p[9] == 6 && Net16(p, 4) == ipid
      && Net32(p, 12) == e.srcip && Net32(p, 16) == e.destip && Net16(p, 20) == e.srcport && Net16(p, 22) == e.destport
      && Net32(p, 24) == s.seqno && Net32(p, 28) == s.ackno && p[32] == (if s.mss.Some? then 0x60 else 0x50)
      && Net16(p, 34) == s.wnd
  {
    var p := TcpPacket(e, s, ipid);
    IpHeaderOnTheWire(e, ipid, UIP_TTL, TcpFront(e, s), TcpBack(s), UIP_PROTO_TCP);
    TcpFields(e, s, ipid, p);
    FrontFields(e, s, p);
    NumberIsNet32(p, 24);
    NumberIsNet32(p, 28);
  }

  /** Bit k of byte 13 of the TCP header. */
  predicate FlagBit(b: byte, k: nat)
    requires k < 8
  {
    var mask := [1, 2, 4, 8, 16, 32, 64, 128][k];
    b / mask % 2 == 1
  }

  /** FIN, SYN, RST, PSH and ACK in bits 0 to 4, and no other flag; behind the checksum the urgent pointer, the option, the data. */
  lemma TcpRestOnTheWire(e: Ends, s: Segment, ipid: u16)
    requires |s.data| + UIP_TCPIP_HLEN + 4 <= MAX_PACKET
    ensures
      var p := TcpPacket(e, s, ipid);
      && |p| >= 40 && (FlagBit(p[33], 0) <==> s.flags.fin) && (FlagBit(p[33], 1) <==> s.flags.syn) && (FlagBit(p[33], 2) <==> s.flags.rst)
      && (FlagBit(p[33], 3) <==> s.flags.psh) && (FlagBit(p[33], 4) <==> s.flags.ack) && p[33] < 32
      && p[38] == p[39] == 0
      && match s.mss
         case None => p[40..] == s.data
         case Some(v) => |p| >= 44 && p[40] == 2 && p[41] == 4 && Net16(p, 42) == v && p[44..] == s.data
  {
    var p := TcpPacket(e, s, ipid);
    TcpFields(e, s, ipid, p);
    FrontFields(e, s, p);
    FlagBits(s.flags);
    var b := TcpBack(s);
    assert forall i :: 38 <= i < |p| ==> p[i] == p[38..][i - 38] == b[i - 38];
    assert p[40..] == b[2..];
    if s.mss.Some? { assert p[44..] == b[6..] == s.data; }
  }

  lemma FlagBits(f: Flags)
    ensures
      var b := FlagByte(f);
      && b < 32 && (FlagBit(b, 0) <==> f.fin) && (FlagBit(b, 1) <==> f.syn) && (FlagBit(b, 2) <==> f.rst)
      && (FlagBit(b, 3) <==> f.psh) && (FlagBit(b, 4) <==> f.ack)
  {
  }

  /** The UDP header of RFC 768 and the data behind it. */
  lemma UdpPacketOnTheWire(e: Ends, data: seq<byte>, ttl: byte, ipid: u16)
    requires |data| + UIP_IPUDPH_LEN <= MAX_PACKET
    ensures
      var p := UdpPacket(e, data, ttl, ipid);
      && |p| == Net16(p, 2) == 28 + |data| && p[0] == 0x45 && p[6] == p[7] == 0 && p[8] == ttl && p[9] == 17
      && Net32(p, 12) == e.srcip && Net32(p, 16) == e.destip && Net16(p, 20) == e.srcport && Net16(p, 22) == e.destport
      && Net16(p, 24) == 8 + |data| && p[28..] == data
  {
    var p, front := UdpPacket(e, data, ttl, ipid), UdpFront(e, |data| + 8);
    IpHeaderOnTheWire(e, ipid, ttl, front, data, UIP_PROTO_UDP);
    SealFields(e, ipid, ttl, front, data, UIP_PROTO_UDP);
    assert forall i :: 20 <= i < 26 ==> p[i] == p[20..26][i - 20] == front[i - 20];
  }

  lemma FrontOfPrefix(p: seq<byte>, n: nat)
    requires 20 <= n <= |p|
    ensures p[..n][16..20] == p[16..20] && p[..n][..20] == p[..20]
  {
  }

  /** A packet that says of itself that it is a whole one without options, not longer than what has arrived. */
  predicate Plausible(p: seq<byte>) {
    28 <= |p| <= MAX_PACKET && p[0] == 0x45 && 28 <= Net16(p, 2) <= |p| && p[6] % 0x40 == 0 && p[7] == 0
  }

  /** What the input code accepts as an IP packet of a protocol for this host, by the bytes of the packet. */
  lemma IpAcceptedExactly(host: u32, p: seq<byte>, proto: byte)
    ensures
      CheckIp(host, p, proto) ==
        if Plausible(p) && Net32(p, 16) == host && p[9] == proto && Words(p[..20]) % 0xffff == 0
        then Some(p[..Net16(p, 2)]) else None
  {
    if Plausible(p) {
      NumberIsNet32(p, 16);
      FrontOfPrefix(p, Net16(p, 2));
      ChksumIsFold(0, p[..20]);
      AcceptedTotals(Words(p[..20]));
    }
  }

  /** And what it accepts as a TCP segment of such a packet: ports, a right checksum, and a header inside the packet. */
  lemma TcpAcceptedExactly(q: seq<byte>)
    requires UIP_IPUDPH_LEN <= |q| <= MAX_PACKET
    ensures
      TcpInput(q).Some? <==>
        && |q| >= 40 && (|q| - 20 + 6 + Words(q[12..20]) + Words(q[20..])) % 0xffff == 0
        && Net16(q, 20) != 0 && Net16(q, 22) != 0
        && q[32] / 16 >= 5 && q[32] / 16 * 4 + 20 <= |q|
  {
    if |q| >= 40 { UpperTotal(q); }
  }

  /** The checksum over pseudo-header and packet verifies exactly if the sum of their words is a multiple of 0xffff. */
  lemma UpperTotal(q: seq<byte>)
    requires 20 <= |q| <= MAX_PACKET
    ensures UpperVerifies(q, 6) <==> (|q| - 20 + 6 + Words(q[12..20]) + Words(q[20..])) % 0xffff == 0
  {
    var n := |q| - 20 + 6;
    ChksumIsFold(n, q[12..20]);
    ChksumIsFold(Chksum(n, q[12..20]), q[20..]);
    FoldAbsorbs(n + Words(q[12..20]), Words(q[20..]));
    AcceptedTotals(n + Words(q[12..20]) + Words(q[20..]));
  }

  /** What it reads from one: addresses and ports, numbers, flags and window. */
  lemma TcpIsReadExactly(q: seq<byte>)
    requires UIP_IPUDPH_LEN <= |q| <= MAX_PACKET && TcpInput(q).Some?
    ensures
      var (e, s) := TcpInput(q).value;
      && |q| >= 40 && e == Ends(Net32(q, 12), Net32(q, 16), Net16(q, 20), Net16(q, 22))
      && s.seqno == Net32(q, 24) && s.ackno == Net32(q, 28) && s.flags == ReadFlags(q[33]) && s.wnd == Net16(q, 34)
      && |s.data| == |q| - 20 - q[32] / 16 * 4
      && (q[32] / 16 == 5 ==> s.mss == None && s.data == q[40..])
  {
    NumberIsNet32(q, 12);
    NumberIsNet32(q, 16);
    NumberIsNet32(q, 24);
    NumberIsNet32(q, 28);
  }

  lemma FlagsAreBits(b: byte)
    ensures
      var f := ReadFlags(b);
      && (f.fin <==> FlagBit(b, 0)) && (f.syn <==> FlagBit(b, 1)) && (f.rst <==> FlagBit(b, 2))
      && (f.psh <==> FlagBit(b, 3)) && (f.ack <==> FlagBit(b, 4))
  {
  }
}
