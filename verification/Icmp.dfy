/** The ICMP part of uip_process: echo requests become echo replies in uip_buf. */
module Icmp {
  import opened Bytes
  import opened SeqNumbers
  import opened Checksum
  import opened Packet
  import opened PacketBuffer
  import opened Incremental

  const ICMP_ECHO: byte := 8
  const ICMP_ECHO_REPLY: byte := 0

  /** An IP header with its checksum, and what follows it. */
  function IpPacket(front: seq<byte>, addresses: seq<byte>, body: seq<byte>): seq<byte> {
    IpHeader(front, FieldFor(Chksum(0, IpHeader(front, 0, addresses))), addresses) + body
  }

  /** The ICMP message of the reply: another type, the updated checksum, all else as in the request. */
  function ReplyBody(m: seq<byte>): seq<byte>
    requires |m| >= 4
  {
    [ICMP_ECHO_REPLY, m[1]] + Be16(Update(Join16(m[2], m[3]), 0x800)) + m[4..]
  }

  function EchoReply(p: seq<byte>, host: u32, ipid: u16): seq<byte>
    requires UIP_IPUDPH_LEN <= |p| <= MAX_PACKET
  {
    IpPacket(IpFront(|p|, ipid, UIP_TTL, UIP_PROTO_ICMP), Addresses(host, Number(p[12..16])), ReplyBody(p[20..]))
  }

  /** The packet with the assignments of the source made in it. */
  ghost function Rewritten(p: seq<byte>, host: u32): (q: seq<byte>)
    requires UIP_IPUDPH_LEN <= |p|
    ensures |q| == |p|
  {
    var p1 := Overlay(p, 20, [ICMP_ECHO_REPLY]);
    var p2 := Overlay(p1, 22, Be16(Update(Join16(p1[22], p1[23]), 0x800)));
    Overlay(Overlay(Overlay(p2, 16, p[12..16]), 12, Be32(host)), 8, [UIP_TTL])
  }

  lemma RewrittenHeader(p: seq<byte>, host: u32)
    requires UIP_IPUDPH_LEN <= |p|
    ensures
      var q := Rewritten(p, host);
      q[2..4] == p[2..4] && q[8] == UIP_TTL && q[9] == p[9] && q[12..20] == Be32(host) + p[12..16]
  {
  }

  lemma RewrittenBody(p: seq<byte>, host: u32)
    requires UIP_IPUDPH_LEN <= |p|
    ensures Rewritten(p, host)[20..] == ReplyBody(p[20..])
  {
    var f := Be16(Update(Join16(p[22], p[23]), 0x800));
    assert Rewritten(p, host)[20..] == [ICMP_ECHO_REPLY, p[21]] + f + p[24..];
    assert p[20..][4..] == p[24..];
  }

  lemma ReplyFilled(p: seq<byte>, host: u32)
    requires UIP_IPUDPH_LEN <= |p| <= MAX_PACKET && Join16(p[2], p[3]) == |p| && p[9] == UIP_PROTO_ICMP
    ensures Filled(Rewritten(p, host), Ends(host, Number(p[12..16]), 0, 0), UIP_TTL, UIP_PROTO_ICMP, ReplyBody(p[20..]))
  {
    RewrittenHeader(p, host);
    RewrittenBody(p, host);
    Be16Unique(p[2], p[3]);
    assert p[2..4] == [p[2], p[3]];
    Be32Unique(p[12..16]);
  }

  /** Type, checksum, addresses and TTL of the reply. */
  method RewriteEcho(b: UipBuf, host: u32, little: bool)
    requires b.Valid() && UIP_IPUDPH_LEN <= b.len
    modifies b.buf
    ensures b.Packet() == Rewritten(old(b.Packet()), host)
  {
    ghost var p := b.Packet();
    b.Put(20, [ICMP_ECHO_REPLY]);
    AdjustChksum(b, 22, ICMP_ECHO * 0x100, little);
    CopyAddress(b, p[12..16]);
    b.Put(12, Be32(host));
    b.Put(8, [UIP_TTL]);
  }

  /** ICMP input for a packet that passed the IP checks. */
  method IcmpInput(b: UipBuf, host: u32, little: bool)
    requires b.Valid() && CheckIp(host, b.Packet(), UIP_PROTO_ICMP) == Some(b.Packet())
    modifies b`len, b`ipid, b.buf
    ensures b.Valid()
    ensures
      var p := old(b.Packet());
      if p[20] != ICMP_ECHO then b.len == 0 && b.ipid == old(b.ipid)
      else b.ipid == Wrap16(old(b.ipid) + 1) && b.Packet() == EchoReply(p, host, b.ipid)
  {
    ghost var p := b.Packet();
    assert p[..|p|] == p;
    assert b.buf[UIP_LLH_LEN + 20] == p[20];
    if b.buf[UIP_LLH_LEN + 20] != ICMP_ECHO {
      b.len := 0;
      return;
    }
    RewriteEcho(b, host, little);
    ReplyFilled(p, host);
    b.SendNolen(Ends(host, Number(p[12..16]), 0, 0), UIP_TTL, UIP_PROTO_ICMP, ReplyBody(p[20..]));
  }

  /** The source address over the destination address. */
  method CopyAddress(b: UipBuf, ghost src: seq<byte>)
    requires b.Valid() && b.len >= UIP_IPH_LEN && b.Packet()[12..16] == src
    modifies b.buf
    ensures b.Packet() == Overlay(old(b.Packet()), 16, src)
  {
    SubSlice(b.buf[..], UIP_LLH_LEN, UIP_LLH_LEN + b.len, 12, 16);
    b.Put(16, b.buf[UIP_LLH_LEN + 12..UIP_LLH_LEN + 16]);
  }

  // ---- The reply ----

  /** An IP packet built this way passes the IP checks of the host it is addressed to. */
  lemma IpPacketPasses(ipid: u16, ttl: byte, proto: byte, srcip: u32, destip: u32, body: seq<byte>)
    requires 8 <= |body| && UIP_IPH_LEN + |body| <= MAX_PACKET
    ensures
      var p := IpPacket(IpFront(UIP_IPH_LEN + |body|, ipid, ttl, proto), Addresses(srcip, destip), body);
      && |p| == UIP_IPH_LEN + |body| && CheckIp(destip, p, proto) == Some(p)
      && Number(p[12..16]) == srcip && Number(p[16..20]) == destip && p[20..] == body && p[8] == ttl
  {
    var len := UIP_IPH_LEN + |body|;
    var front, addresses := IpFront(len, ipid, ttl, proto), Addresses(srcip, destip);
    var c := FieldFor(Chksum(0, IpHeader(front, 0, addresses)));
    var p := IpPacket(front, addresses, body);
    FieldVerifiesBetween(0, front, c, addresses);
    assert p[..20] == IpHeader(front, c, addresses);
    Halves(p, front, addresses);
    IpFrontFields(len, ipid, ttl, proto, p);
    AddressBytes(srcip, destip);
    IpChecksPass(destip, p, proto);
  }

  lemma BodyAsMessage(m: seq<byte>)
    requires |m| >= 4 && m[0] == ICMP_ECHO
    ensures m == Message([], Join16(m[0], m[1]), Join16(m[2], m[3]), m[4..])
    ensures ReplyBody(m) == Message([], Join16(m[0], m[1]) - 0x800, Update(Join16(m[2], m[3]), 0x800), m[4..])
  {
    Be16Unique(m[0], m[1]);
    Be16Unique(m[2], m[3]);
    Be16Unique(0, m[1]);
  }

  predicate IcmpVerifies(p: seq<byte>)
    requires |p| >= UIP_IPH_LEN
  {
    Reported(Chksum(0, p[UIP_IPH_LEN..])) == 0xffff
  }

  /**
    The reply goes back to the sender of the request and passes its IP checks; its ICMP checksum is right exactly
    when the request's was; identifier, sequence number and data come back unchanged.
   */
  lemma EchoReplyIsAnswer(p: seq<byte>, host: u32, ipid: u16)
    requires CheckIp(host, p, UIP_PROTO_ICMP) == Some(p) && p[20] == ICMP_ECHO
    ensures
      var r := EchoReply(p, host, ipid);
      && |r| == |p| && CheckIp(Number(p[12..16]), r, UIP_PROTO_ICMP) == Some(r)
      && Number(r[12..16]) == host && Number(r[16..20]) == Number(p[12..16])
      && r[20] == ICMP_ECHO_REPLY && r[21] == p[21] && r[24..] == p[24..]
      && (IcmpVerifies(r) <==> IcmpVerifies(p))
  {
    var m := p[20..];
    var r := EchoReply(p, host, ipid);
    var body := ReplyBody(m);
    IpPacketPasses(ipid, UIP_TTL, UIP_PROTO_ICMP, host, Number(p[12..16]), body);
    BodyAsMessage(m);
    UpdateKeepsVerdict([], Join16(m[0], m[1]), Join16(m[2], m[3]), m[4..], 0x800);
    assert r[20] == r[20..][0] && r[21] == r[20..][1];
    assert r[24..] == r[20..][4..] == m[4..] == p[24..];
  }

  /** For a request with a right checksum the field equals the one a fresh computation over the reply would give. */
  lemma EchoChecksumIsExact(p: seq<byte>)
    requires UIP_IPUDPH_LEN <= |p| <= MAX_PACKET && p[20] == ICMP_ECHO && IcmpVerifies(p)
    ensures Update(Join16(p[22], p[23]), 0x800) == FieldFor(Chksum(0, [ICMP_ECHO_REPLY, p[21], 0, 0] + p[24..]))
  {
    var m := p[20..];
    var w := Join16(m[0], m[1]);
    BodyAsMessage(m);
    UpdateEqualsRecomputation([], w, Join16(m[2], m[3]), m[4..], 0x800);
    Be16Unique(0, m[1]);
    Be16Unique(0, 0);
    assert Message([], w - 0x800, 0, m[4..]) == [ICMP_ECHO_REPLY, p[21], 0, 0] + p[24..];
  }
}
