/** uip-fw.c: forwarding a packet with its TTL decremented, at most once while the cache remembers it. */
module Forward {
  import opened Bytes
  import opened SeqNumbers
  import opened Checksum
  import opened Packet
  import opened PacketBuffer
  import opened Incremental
  import opened Icmp
  import opened FwCache

  const BROADCAST: u32 := 0xffff_ffff
  const ICMP_TE: byte := 11
  /** The length of a time exceeded message with its IP header. */
  const TE_LEN: nat := 56

  /** Whatever uip_len says, time_exceeded works on this many bytes of uip_buf. */
  type Frame = f: seq<byte> | |f| >= TE_LEN witness seq(TE_LEN, _ => 0)

  function Dest(p: seq<byte>): u32
    requires |p| >= UIP_IPH_LEN
  {
    Number(p[16..20])
  }

  function KeyOf(p: seq<byte>): Key
    requires |p| >= UIP_IPH_LEN
  {
    Key(Join16(p[4], p[5]), Number(p[12..16]), Number(p[16..20]), p[9])
  }

  // ---- The packet that is sent on ----

  /** The decrement of a uint8_t. */
  function Dec(b: byte): byte { if b == 0 then 0xff else b - 1 }

  /** The decrement of the TTL with the compare-and-add on the checksum. */
  function Hop(p: seq<byte>): (r: seq<byte>)
    requires |p| >= UIP_IPH_LEN
    ensures |r| == |p|
  {
    var q := Overlay(p, 8, [Dec(p[8])]);
    Overlay(q, 10, Be16(Update(Join16(q[10], q[11]), 0x100)))
  }

  /** The ICMP message of time_exceeded; the bytes between checksum and quoted packet stay as they were. */
  function TeBody(f: Frame, chksum: u16): seq<byte> {
    [ICMP_TE, 0] + Be16(chksum) + f[24..28] + f[..28]
  }

  function TeField(f: Frame): u16 { 0xffff - Chksum(0, TeBody(f, 0)) }

  function TimeExceeded(f: Frame, host: u32): seq<byte> {
    IpPacket(IpFront(TE_LEN, Join16(f[4], f[5]), UIP_TTL, UIP_PROTO_ICMP), Addresses(host, Number(f[12..16])),
             TeBody(f, TeField(f)))
  }

  datatype Verdict = Verdict(local: bool, out: Option<seq<byte>>, cache: seq<Entry>)

  /** uip_fw_output as far as the cache goes. */
  ghost function SendOn(p: seq<byte>, c: seq<Entry>): Verdict
    requires |p| >= UIP_IPH_LEN && c != []
  {
    Verdict(Dest(p) == BROADCAST, Some(p), Register(c, KeyOf(p)))
  }

  /** uip_fw_forward on the packet of length len at the front of f. */
  ghost function Forwarded(host: u32, f: Frame, len: nat, c: seq<Entry>): Verdict
    requires UIP_IPH_LEN <= len <= |f| && c != []
  {
    if Dest(f) == host then Verdict(true, None, c)
    else if Hit(c, KeyOf(f)) then Verdict(false, None, c)
    else if f[8] > 1 then SendOn(Hop(f[..len]), c)
    else if Dest(f) == BROADCAST then Verdict(true, None, c)
    else if f[9] == UIP_PROTO_ICMP then Verdict(false, None, c)
    else SendOn(Hop(TimeExceeded(f, host)), c)
  }

  // ---- What one call does ----

  lemma HopAsMessage(p: seq<byte>)
    requires |p| >= UIP_IPH_LEN && p[8] > 0
    ensures p[..20] == Message(p[..8], Join16(p[8], p[9]), Join16(p[10], p[11]), p[12..20])
    ensures Hop(p)[..20] == Message(p[..8], Join16(p[8], p[9]) - 0x100, Update(Join16(p[10], p[11]), 0x100), p[12..20])
    ensures Hop(p)[20..] == p[20..] && Hop(p)[8] == p[8] - 1 && Hop(p)[9] == p[9]
    ensures Hop(p)[..8] == p[..8] && Hop(p)[12..20] == p[12..20]
  {
    Be16Unique(p[8], p[9]);
    Be16Unique(p[8] - 1, p[9]);
    Be16Unique(p[10], p[11]);
    HopLaidOut(p, Overlay(p, 8, [Dec(p[8])]), Be16(Update(Join16(p[10], p[11]), 0x100)));
  }

  lemma HopLaidOut(p: seq<byte>, q: seq<byte>, field: seq<byte>)
    requires |p| >= UIP_IPH_LEN && q == Overlay(p, 8, [Dec(p[8])]) && |field| == 2
    ensures
      var r := Overlay(q, 10, field);
      && r[..20] == p[..8] + [Dec(p[8]), p[9]] + field + p[12..20]
      && r[20..] == p[20..] && r[8] == Dec(p[8]) && r[9] == p[9] && r[..8] == p[..8] && r[12..20] == p[12..20]
      && q[10] == p[10] && q[11] == p[11]
  {
  }

  /**
    A packet on its way has one hop less to live; its header checksum is right exactly when it was, and then
    equals a fresh computation; nothing else of it changes, so it keeps its key.
   */
  lemma HopIsTransparent(p: seq<byte>)
    requires |p| >= UIP_IPH_LEN && p[8] > 0
    ensures
      var r := Hop(p);
      && r[8] == p[8] - 1 && KeyOf(r) == KeyOf(p) && r[20..] == p[20..]
      && (forall i :: 0 <= i < |p| && i != 8 && i != 10 && i != 11 ==> r[i] == p[i])
      && (IpVerifies(r) <==> IpVerifies(p))
      && (IpVerifies(p) ==> Join16(r[10], r[11]) == FieldFor(Chksum(0, r[..10] + [0, 0] + r[12..20])))
  {
    var r := Hop(p);
    var w, f := Join16(p[8], p[9]), Join16(p[10], p[11]);
    HopAsMessage(p);
    assert r[12..16] == p[12..16] && r[16..20] == p[16..20];
    UpdateKeepsVerdict(p[..8], w, f, p[12..20], 0x100);
    if IpVerifies(p) {
      UpdateEqualsRecomputation(p[..8], w, f, p[12..20], 0x100);
      Be16Unique(p[8] - 1, p[9]);
      Be16Unique(0, 0);
      assert r[..10] + [0, 0] + r[12..20] == Message(p[..8], w - 0x100, 0, p[12..20]);
    }
  }

  lemma TeBodyVerifies(f: Frame)
    ensures Chksum(0, TeBody(f, TeField(f))) == 0xffff
  {
    var a, b := [ICMP_TE, 0], f[24..28] + f[..28];
    var n := Words(a) + Words(b);
    var x := Chksum(0, TeBody(f, 0));
    assert TeBody(f, 0) == a + Be16(0) + b;
    assert TeBody(f, 0xffff - x) == a + Be16(0xffff - x) + b;
    SumAround(0, a, 0, b, n);
    SumAround(0, a, 0xffff - x, b, n + (0xffff - x));
    FoldAbsorbs(n, 0xffff - x);
    assert Fold(0xffff) == 0xffff;
  }

  /** What time_exceeded builds, before its TTL is decremented. */
  lemma TimeExceededIsPacket(host: u32, f: Frame)
    ensures
      var t := TimeExceeded(f, host);
      && |t| == TE_LEN && t[0] == 0x45 && Join16(t[2], t[3]) == TE_LEN && t[6] == 0 && t[7] == 0 && t[8] == UIP_TTL
      && IpVerifies(t) && Chksum(0, t[20..]) == 0xffff && t[20] == ICMP_TE && t[28..] == f[..28]
      && KeyOf(t) == Key(Join16(f[4], f[5]), host, Number(f[12..16]), UIP_PROTO_ICMP)
  {
    var t := TimeExceeded(f, host);
    var body := TeBody(f, TeField(f));
    TeBodyVerifies(f);
    IpPacketPasses(Join16(f[4], f[5]), UIP_TTL, UIP_PROTO_ICMP, host, Number(f[12..16]), body);
    assert t[..|t|] == t;
    assert t[20] == t[20..][0] && t[28..] == t[20..][8..];
    KeyOfTe(t, Join16(f[4], f[5]), host, Number(f[12..16]), body);
  }

  /** An expired packet is answered to its sender with both checksums right and its first 28 bytes quoted. */
  lemma TimeExceededIsAnswer(host: u32, f: Frame)
    ensures
      var r := Hop(TimeExceeded(f, host));
      && |r| == TE_LEN && CheckIp(Number(f[12..16]), r, UIP_PROTO_ICMP) == Some(r)
      && Chksum(0, r[20..]) == 0xffff && r[20] == ICMP_TE && r[28..] == f[..28]
      && KeyOf(r) == Key(Join16(f[4], f[5]), host, Number(f[12..16]), UIP_PROTO_ICMP)
  {
    var t := TimeExceeded(f, host);
    TimeExceededIsPacket(host, f);
    HopIsTransparent(t);
    var r := Hop(t);
    assert r[28..] == t[20..][8..];
    IpChecksPass(Number(f[12..16]), r, UIP_PROTO_ICMP);
  }

  lemma KeyOfTe(t: seq<byte>, ipid: u16, srcip: u32, destip: u32, body: seq<byte>)
    requires t == IpPacket(IpFront(TE_LEN, ipid, UIP_TTL, UIP_PROTO_ICMP), Addresses(srcip, destip), body) && |t| == TE_LEN
    requires Number(t[12..16]) == srcip && Number(t[16..20]) == destip
    ensures KeyOf(t) == Key(ipid, srcip, destip, UIP_PROTO_ICMP)
    ensures t[0] == 0x45 && Join16(t[2], t[3]) == TE_LEN && t[6] == 0 && t[7] == 0
  {
    var front := IpFront(TE_LEN, ipid, UIP_TTL, UIP_PROTO_ICMP);
    assert t[..10] == front;
    assert forall i :: 0 <= i < 10 ==> t[i] == t[..10][i];
  }

  // ---- The code ----

  class Forwarder {
    const uip_hostaddr: u32
    const little: bool
    const cache: Cache

    constructor (host: u32, little: bool, size: nat)
      requires size > 0
      ensures uip_hostaddr == host && fresh(cache) && fresh(cache.fwcache) && Good(cache.fwcache[..])
      ensures forall k :: !Hit(cache.fwcache[..], k)
    {
      uip_hostaddr := host;
      this.little := little;
      cache := new Cache(size);
    }

    /** time_exceeded; uip_len is set before the fields, not after, and the swap of the addresses is not spelled out. */
    method MakeTimeExceeded(b: UipBuf, ghost f: Frame)
      requires b.Valid() && UIP_LLH_LEN + TE_LEN <= b.buf.Length && f == b.buf[..][UIP_LLH_LEN..] && f[9] != UIP_PROTO_ICMP
      modifies b`len, b.buf
      ensures b.Valid() && b.Packet() == TimeExceeded(f, uip_hostaddr)
    {
      b.len := TE_LEN;
      assert b.Packet() == f[..TE_LEN];
      QuotePacket(b, f);
      FillTeHeader(b, f);
      SealHeader(b, IpFront(TE_LEN, Join16(f[4], f[5]), UIP_TTL, UIP_PROTO_ICMP), [f[10], f[11]],
                 Addresses(uip_hostaddr, Number(f[12..16])), TeBody(f, TeField(f)));
    }

    /** The ICMP message: the quoted packet, type, code and checksum. */
    method QuotePacket(b: UipBuf, ghost f: Frame)
      requires b.Valid() && b.len == TE_LEN && b.Packet() == f[..TE_LEN]
      modifies b.buf
      ensures b.Packet() == f[..20] + TeBody(f, TeField(f))
    {
      FillQuote(b, f);
      SealQuote(b, f[..20], TeBody(f, 0));
      QuoteSealed(f, TeField(f));
    }

    method SealQuote(b: UipBuf, ghost head: seq<byte>, ghost body: seq<byte>)
      requires b.Valid() && b.len == TE_LEN && |head| == 20 && b.Packet() == head + body
      modifies b.buf
      ensures b.Packet() == Overlay(head + body, 22, Be16(0xffff - Chksum(0, body)))
    {
      assert b.buf[UIP_LLH_LEN + 20..UIP_LLH_LEN + 56] == b.Packet()[20..] == body;
      var sum := ComputeChksum(0, b.buf, UIP_LLH_LEN + 20, 36);
      b.Put(22, Be16(0xffff - sum));
    }

    method FillQuote(b: UipBuf, ghost f: Frame)
      requires b.Valid() && b.len == TE_LEN && b.Packet() == f[..TE_LEN]
      modifies b.buf
      ensures b.Packet() == f[..20] + TeBody(f, 0) && b.Packet()[20..] == TeBody(f, 0)
    {
      assert b.buf[UIP_LLH_LEN..UIP_LLH_LEN + 28] == b.Packet()[..28] == f[..28];
      b.Put(28, b.buf[UIP_LLH_LEN..UIP_LLH_LEN + 28]);
      b.Put(20, [ICMP_TE, 0]);
      b.Put(22, [0, 0]);
      QuoteFilled(f, b.Packet());
    }

    method FillTeHeader(b: UipBuf, ghost f: Frame)
      requires b.Valid() && b.len == TE_LEN && b.Packet()[..20] == f[..20]
      modifies b.buf
      ensures b.Packet() == IpFront(TE_LEN, Join16(f[4], f[5]), UIP_TTL, UIP_PROTO_ICMP) + [f[10], f[11]]
                            + Addresses(uip_hostaddr, Number(f[12..16])) + old(b.Packet()[20..])
    {
      ghost var p := b.Packet();
      assert p[12..16] == p[..20][12..16] == f[12..16];
      CopyAddress(b, p[12..16]);
      b.Put(12, Be32(uip_hostaddr));
      b.Put(2, [0, TE_LEN]);
      b.Put(0, [0x45, 0]);
      b.Put(6, [0, 0]);
      b.Put(8, [UIP_TTL]);
      b.Put(9, [UIP_PROTO_ICMP]);
      TeHeaderFilled(p, f, b.Packet(), uip_hostaddr);
    }

    /** The IP checksum over a header with anything in its checksum field. */
    method SealHeader(b: UipBuf, ghost front: seq<byte>, ghost field: seq<byte>, ghost addresses: seq<byte>, ghost body: seq<byte>)
      requires b.Valid() && |front| == 10 && |field| == 2 && |addresses| == 8
      requires b.Packet() == front + field + addresses + body
      modifies b.buf
      ensures b.Packet() == IpPacket(front, addresses, body)
    {
      b.Put(10, [0, 0]);
      assert b.Packet() == front + [0, 0] + (addresses + body);
      b.SealIp(front, addresses, body);
    }

    /** uip_fw_output: what is handed to the network interfaces; which one is not modelled. */
    method Output(b: UipBuf) returns (sent: Option<seq<byte>>)
      requires b.Valid() && UIP_IPH_LEN <= b.len && Good(cache.fwcache[..])
      modifies cache.fwcache
      ensures sent == Some(b.Packet()) && Good(cache.fwcache[..])
      ensures cache.fwcache[..] == Register(old(cache.fwcache[..]), KeyOf(b.Packet()))
    {
      var k := ReadKey(b);
      cache.FwcacheRegister(k);
      var p := b.TcpipOutput();
      sent := Some(p);
    }

    /** The fields of the header in uip_buf. */
    method ReadKey(b: UipBuf) returns (k: Key)
      requires b.Valid() && UIP_IPH_LEN <= b.len
      ensures k == KeyOf(b.Packet())
    {
      var p := b.TcpipOutput();
      k := Key(Join16(p[4], p[5]), Number(p[12..16]), Number(p[16..20]), p[9]);
    }

    /** The TTL and checksum update. */
    method Decrement(b: UipBuf)
      requires b.Valid() && UIP_IPH_LEN <= b.len
      modifies b.buf
      ensures b.Packet() == Hop(old(b.Packet()))
    {
      b.Put(8, [Dec(b.buf[UIP_LLH_LEN + 8])]);
      AdjustChksum(b, 10, 0x100, little);
    }

    /** The TTL and checksum update, then uip_fw_output. */
    method HopAndOutput(b: UipBuf) returns (local: bool, sent: Option<seq<byte>>)
      requires b.Valid() && UIP_IPH_LEN <= b.len && Good(cache.fwcache[..])
      modifies b.buf, cache.fwcache
      ensures Good(cache.fwcache[..])
      ensures Verdict(local, sent, cache.fwcache[..]) == SendOn(Hop(old(b.Packet())), old(cache.fwcache[..]))
      ensures sent == Some(b.Packet())
    {
      Decrement(b);
      sent := Output(b);
      var k := ReadKey(b);
      local := k.destip == BROADCAST;
    }

    /** uip_fw_forward: `local` is UIP_FW_LOCAL, sent what went out meanwhile. */
    method UipFwForward(b: UipBuf) returns (local: bool, sent: Option<seq<byte>>)
      requires b.Valid() && UIP_IPH_LEN <= b.len && UIP_LLH_LEN + TE_LEN <= b.buf.Length && Good(cache.fwcache[..])
      modifies b`len, b.buf, cache.fwcache
      ensures Good(cache.fwcache[..])
      ensures Verdict(local, sent, cache.fwcache[..])
           == Forwarded(uip_hostaddr, old(b.buf[..][UIP_LLH_LEN..]), old(b.len), old(cache.fwcache[..]))
      ensures b.Valid() && (sent.Some? ==> sent.value == b.Packet())
      ensures sent == None && local ==> b.len == old(b.len) && b.buf[..] == old(b.buf[..])
    {
      ghost var f: Frame := b.buf[..][UIP_LLH_LEN..];
      var k := ReadKey(b);
      assert b.Packet() == f[..b.len];
      KeyOfFront(f, b.len);
      if k.destip == uip_hostaddr { return true, None; }
      var hit := cache.Contains(k);
      if hit { return false, None; }
      if b.buf[UIP_LLH_LEN + 8] <= 1 {
        if k.destip == BROADCAST { return true, None; }
        if k.proto == UIP_PROTO_ICMP {
          // uip_len becomes 0; the TTL and checksum of the dead packet are still touched, nothing is sent.
          Decrement(b);
          b.len := 0;
          return false, None;
        }
        MakeTimeExceeded(b, f);
      }
      local, sent := HopAndOutput(b);
    }
  }

  lemma KeyOfFront(f: Frame, len: nat)
    requires UIP_IPH_LEN <= len <= |f|
    ensures KeyOf(f[..len]) == KeyOf(f) && Dest(f[..len]) == Dest(f)
  {
    var p := f[..len];
    assert p[12..16] == f[12..16] && p[16..20] == f[16..20];
  }

  lemma QuoteFilled(f: Frame, q: seq<byte>)
    requires q == Overlay(Overlay(Overlay(f[..TE_LEN], 28, f[..28]), 20, [ICMP_TE, 0]), 22, [0, 0])
    ensures q == f[..20] + TeBody(f, 0) && q[20..] == TeBody(f, 0)
  {
    QuoteBytes(f, q);
    Be16Unique(0, 0);
    assert q[..20] == f[..20];
    assert q[20..] == [ICMP_TE, 0] + [0, 0] + f[24..28] + f[..28];
  }

  lemma QuoteBytes(f: Frame, q: seq<byte>)
    requires q == Overlay(Overlay(Overlay(f[..TE_LEN], 28, f[..28]), 20, [ICMP_TE, 0]), 22, [0, 0])
    ensures |q| == TE_LEN && q[20] == ICMP_TE && q[21] == q[22] == q[23] == 0
    ensures forall i :: 0 <= i < 28 && !(20 <= i < 24) ==> q[i] == f[i]
    ensures forall i :: 28 <= i < TE_LEN ==> q[i] == f[i - 28]
  {
  }

  lemma QuoteSealed(f: Frame, x: u16)
    ensures Overlay(f[..20] + TeBody(f, 0), 22, Be16(x)) == f[..20] + TeBody(f, x)
  {
    var r := Overlay(f[..20] + TeBody(f, 0), 22, Be16(x));
    assert r[..20] == f[..20] && r[20..22] == [ICMP_TE, 0] && r[22..24] == Be16(x) && r[24..28] == f[24..28] && r[28..] == f[..28];
    assert r == r[..20] + (r[20..22] + r[22..24] + r[24..28] + r[28..]);
  }

  lemma TeHeaderFilled(p: seq<byte>, f: Frame, q: seq<byte>, host: u32)
    requires |p| == TE_LEN && p[..20] == f[..20]
    requires
      var p1 := Overlay(Overlay(p, 16, p[12..16]), 12, Be32(host));
      var p2 := Overlay(Overlay(Overlay(p1, 2, [0, TE_LEN]), 0, [0x45, 0]), 6, [0, 0]);
      q == Overlay(Overlay(p2, 8, [UIP_TTL]), 9, [UIP_PROTO_ICMP])
    ensures q == IpFront(TE_LEN, Join16(f[4], f[5]), UIP_TTL, UIP_PROTO_ICMP) + [f[10], f[11]]
                 + Addresses(host, Number(f[12..16])) + p[20..]
  {
    assert forall i :: 0 <= i < 20 ==> p[i] == p[..20][i] == f[i];
    assert p[12..16] == f[12..16];
    var p1 := Overlay(Overlay(p, 16, p[12..16]), 12, Be32(host));
    AddressesReplaced(p, p[12..16], Be32(host));
    FieldsReplaced(p1, TE_LEN);
    TeHeaderJoined(q, p, f, host);
  }

  lemma AddressesReplaced(p: seq<byte>, destip: seq<byte>, srcip: seq<byte>)
    requires |p| == TE_LEN && |destip| == |srcip| == 4
    ensures
      var p1 := Overlay(Overlay(p, 16, destip), 12, srcip);
      && p1[12..16] == srcip && p1[16..20] == destip && p1[20..] == p[20..]
      && forall i :: 0 <= i < 12 ==> p1[i] == p[i]
  {
    Outside(Overlay(p, 16, destip), 12, srcip, 16, 20);
    Outside(p, 16, destip, 20, TE_LEN);
    Outside(Overlay(p, 16, destip), 12, srcip, 20, TE_LEN);
  }

  lemma FieldsReplaced(p1: seq<byte>, len: byte)
    requires |p1| == TE_LEN
    ensures
      var p2 := Overlay(Overlay(Overlay(p1, 2, [0, len]), 0, [0x45, 0]), 6, [0, 0]);
      var q := Overlay(Overlay(p2, 8, [UIP_TTL]), 9, [UIP_PROTO_ICMP]);
      && q[..8] == [0x45, 0, 0, len, p1[4], p1[5], 0, 0] && q[8] == UIP_TTL && q[9] == UIP_PROTO_ICMP
      && q[10] == p1[10] && q[11] == p1[11]
      && q[12..16] == p1[12..16] && q[16..20] == p1[16..20] && q[20..] == p1[20..]
  {
  }

  lemma TeHeaderJoined(q: seq<byte>, p: seq<byte>, f: Frame, host: u32)
    requires |q| == |p| == TE_LEN && q[..8] == [0x45, 0, 0, TE_LEN, f[4], f[5], 0, 0] && q[8] == UIP_TTL && q[9] == UIP_PROTO_ICMP
    requires q[12..16] == Be32(host) && q[16..20] == f[12..16] && q[10] == f[10] && q[11] == f[11] && q[20..] == p[20..]
    ensures q == IpFront(TE_LEN, Join16(f[4], f[5]), UIP_TTL, UIP_PROTO_ICMP) + [f[10], f[11]]
                 + Addresses(host, Number(f[12..16])) + p[20..]
  {
    Be16Unique(f[4], f[5]);
    Be16Unique(0, TE_LEN);
    Be32Unique(f[12..16]);
    assert q[..10] == q[..8] + [q[8], q[9]] == IpFront(TE_LEN, Join16(f[4], f[5]), UIP_TTL, UIP_PROTO_ICMP);
    assert q[12..20] == q[12..16] + q[16..20] == Addresses(host, Number(f[12..16]));
    assert q == q[..10] + [q[10], q[11]] + q[12..20] + q[20..];
  }

  // ---- The fate of a packet ----

  /** The cache remembers a packet with the identification, addresses and protocol of this one. */
  predicate Remembered(c: seq<Entry>, f: Frame) {
    exists i :: 0 <= i < |c| && c[i].timer != 0
                && c[i].key == Key(Join16(f[4], f[5]), Number(f[12..16]), Number(f[16..20]), f[9])
  }

  /** The packet r is p with one hop less to live: nothing else changes but the header checksum, which stays as right as it was. */
  ghost predicate OneHopOn(p: seq<byte>, r: seq<byte>) {
    && |r| == |p| >= UIP_IPH_LEN && p[8] > 0 && r[8] == p[8] - 1
    && (forall i :: 0 <= i < |p| && i != 8 && i != 10 && i != 11 ==> r[i] == p[i])
    && (IpVerifies(r) <==> IpVerifies(p))
  }

  /** r is the answer "time to live exceeded in transit" of RFC 792 from the host to the sender of f, quoting f. */
  ghost predicate AnswersExpired(host: u32, f: Frame, r: seq<byte>) {
    && |r| == 56 && IpVerifies(r) && Chksum(0, r[20..]) == 0xffff
    && r[0] == 0x45 && r[8] == 63 && r[9] == 1 && Number(r[12..16]) == host && r[16..20] == f[12..16]
    && r[20] == 11 && r[21] == 0 && r[28..56] == f[..28]
  }

  lemma AnswerIsRight(host: u32, f: Frame)
    ensures AnswersExpired(host, f, Hop(TimeExceeded(f, host)))
  {
    var t := TimeExceeded(f, host);
    TimeExceededIsPacket(host, f);
    HopIsTransparent(t);
    TimeExceededIsAnswer(host, f);
    TimeExceededAddresses(host, f);
    var r := Hop(t);
    assert r[12..16] == t[12..16] && r[16..20] == t[16..20];
    assert r[28..56] == r[28..];
  }

  lemma TimeExceededAddresses(host: u32, f: Frame)
    ensures var t := TimeExceeded(f, host); |t| == TE_LEN && Number(t[12..16]) == host && t[16..20] == f[12..16] && t[9] == 1 && t[21] == 0
  {
    var front, body := IpFront(TE_LEN, Join16(f[4], f[5]), UIP_TTL, UIP_PROTO_ICMP), TeBody(f, TeField(f));
    var addresses := Addresses(host, Number(f[12..16]));
    var field := Be16(FieldFor(Chksum(0, IpHeader(front, 0, addresses))));
    Be32Unique(f[12..16]);
    assert TimeExceeded(f, host) == front + field + addresses + body;
    HeaderParts(front, field, addresses, body);
    assert addresses[..4] == Be32(host) && addresses[4..] == Be32(Number(f[12..16]));
  }

  lemma HeaderParts(front: seq<byte>, field: seq<byte>, addresses: seq<byte>, body: seq<byte>)
    requires |front| == 10 && |field| == 2 && |addresses| == 8 && |body| >= 2
    ensures
      var t := front + field + addresses + body;
      t[12..16] == addresses[..4] && t[16..20] == addresses[4..] && t[9] == front[9] && t[21] == body[1]
  {
  }

  /**
    What becomes of every packet. It is left to the host itself if it is for the host, or a broadcast that is not
    remembered, or an expired packet that claims to come from the broadcast address. Something is sent for it if it
    is neither for the host nor remembered, and has hops left or may be answered: no broadcast and no ICMP. What is
    sent is the packet one hop on, or the answer; it is what the cache then remembers for 20 calls.
   */
  lemma FateOfPacket(host: u32, f: Frame, len: nat, c: seq<Entry>)
    requires Good(c) && UIP_IPH_LEN <= len <= |f|
    ensures
      var v := Forwarded(host, f, len, c);
      var src, dest, alive := Number(f[12..16]), Number(f[16..20]), f[8] > 1;
      && (v.local <==>
            || dest == host
            || (!Remembered(c, f) && (dest == 0xffff_ffff || (src == 0xffff_ffff && !alive && f[9] != 1))))
      && (v.out.Some? <==> dest != host && !Remembered(c, f) && (alive || (dest != 0xffff_ffff && f[9] != 1)))
      && (v.out.Some? ==>
            && (if alive then OneHopOn(f[..len], v.out.value) else AnswersExpired(host, f, v.out.value))
            && Good(v.cache) && Entry(20, KeyOf(v.out.value)) in v.cache)
      && (v.out == None ==> v.cache == c)
  {
    assert Remembered(c, f) <==> Hit(c, KeyOf(f));
    KeyOfFront(f, len);
    if f[8] > 1 {
      HopIsTransparent(f[..len]);
    } else {
      AnswerIsRight(host, f);
      assert Number(Hop(TimeExceeded(f, host))[16..20]) == Number(f[12..16]);
    }
    var v := Forwarded(host, f, len, c);
    if v.out.Some? {
      SentIsRegistered(host, f, len, c);
      assert v.cache[Victim(c)] == Entry(20, KeyOf(v.out.value));
    }
  }

  // ---- Runs ----

  /** A packet to forward, a packet of the host's own, or a periodic call. */
  datatype Event = Arrival(f: Frame, len: nat) | Own(p: seq<byte>) | Periodic

  ghost predicate Possible(e: Event) {
    match e
    case Arrival(f, len) => UIP_IPH_LEN <= len <= |f|
    case Own(p) => |p| >= UIP_IPH_LEN
    case Periodic => true
  }

  ghost function Next(host: u32, c: seq<Entry>, e: Event): (r: seq<Entry>)
    requires c != [] && Possible(e)
    ensures |r| == |c|
  {
    match e
    case Arrival(f, len) => Forwarded(host, f, len, c).cache
    case Own(p) => Register(c, KeyOf(p))
    case Periodic => Tick(c)
  }

  /** A run of calls and the caches it goes through. */
  ghost predicate IsRun(host: u32, cs: seq<seq<Entry>>, es: seq<Event>) {
    && |cs| == |es| + 1 && Good(cs[0])
    && forall n :: 0 <= n < |es| ==> Possible(es[n]) && cs[n] != [] && cs[n + 1] == Next(host, cs[n], es[n])
  }

  function Aged(es: seq<Event>): (r: seq<bool>)
    ensures |r| == |es|
  {
    seq(|es|, i requires 0 <= i < |es| => es[i].Periodic?)
  }

  /** Whatever is sent on is in the cache with a full timer. */
  lemma SentIsRegistered(host: u32, f: Frame, len: nat, c: seq<Entry>)
    requires Good(c) && UIP_IPH_LEN <= len <= |f| && Forwarded(host, f, len, c).out.Some?
    ensures
      var v := Forwarded(host, f, len, c);
      |v.out.value| >= UIP_IPH_LEN && Good(v.cache) && Holds(v.cache, KeyOf(v.out.value), FW_TIME)
  {
    RegisteredHolds(c, KeyOf(Forwarded(host, f, len, c).out.value));
  }

  lemma RunIsTrace(host: u32, cs: seq<seq<Entry>>, es: seq<Event>)
    requires IsRun(host, cs, es)
    ensures IsTrace(cs, Aged(es))
  {
  }

  /** After k has been sent on, the cache remembers it, or 20 periodic calls have passed, or it was displaced. */
  lemma KeyIsRemembered(host: u32, cs: seq<seq<Entry>>, es: seq<Event>, k: Key)
    requires IsRun(host, cs, es) && Holds(cs[0], k, FW_TIME)
    requires Periods(Aged(es)) < FW_TIME && NeverDisplaced(cs, k)
    ensures Good(cs[|es|]) && Hit(cs[|es|], k)
  {
    RunIsTrace(host, cs, es);
    EntryLasts(cs, Aged(es), k, FW_TIME);
  }

  /**
    Once a packet has been sent, which leaves its key in the cache with a full timer, no arriving packet with
    that key is sent on, until 20 periodic calls have passed or its entry is displaced while every entry is live.
   */
  lemma DuplicatesAreSuppressed(host: u32, cs: seq<seq<Entry>>, es: seq<Event>, f: Frame, len: nat)
    requires IsRun(host, cs, es) && UIP_IPH_LEN <= len <= |f| && Holds(cs[0], KeyOf(f), FW_TIME)
    requires Periods(Aged(es)) < FW_TIME && NeverDisplaced(cs, KeyOf(f))
    ensures cs[|es|] != [] && Forwarded(host, f, len, cs[|es|]).out == None
  {
    KeyIsRemembered(host, cs, es, KeyOf(f));
  }

  /** Conversely, a key that nobody has registered for 20 periodic calls is sent on again. */
  lemma ForgottenIsSentAgain(host: u32, cs: seq<seq<Entry>>, es: seq<Event>, f: Frame, len: nat)
    requires IsRun(host, cs, es) && NeverRegistered(cs, Aged(es), KeyOf(f)) && Periods(Aged(es)) >= FW_TIME
    requires UIP_IPH_LEN <= len <= |f| && Dest(f) != host && f[8] > 1
    ensures cs[|es|] != [] && Forwarded(host, f, len, cs[|es|]).out == Some(Hop(f[..len]))
  {
    EntryExpires(cs, Aged(es), KeyOf(f));
    assert |es| > 0 ==> cs[|es|] == Next(host, cs[|es| - 1], es[|es| - 1]);
  }

  /** The key of the message that answers an expired packet. */
  function TeKey(f: Frame, host: u32): Key {
    Key(Join16(f[4], f[5]), host, Number(f[12..16]), UIP_PROTO_ICMP)
  }

  /**
    What is sent has a key the cache holds exactly when it is a time exceeded message for an expired packet and
    the cache holds the key of that message, which is not looked up.
   */
  lemma WhenCachedKeyIsSent(host: u32, f: Frame, len: nat, c: seq<Entry>)
    requires Good(c) && UIP_IPH_LEN <= len <= |f| && Forwarded(host, f, len, c).out.Some?
    ensures
      var k := KeyOf(Forwarded(host, f, len, c).out.value);
      && k == (if f[8] > 1 then KeyOf(f) else TeKey(f, host))
      && (Hit(c, k) <==> f[8] <= 1 && Hit(c, TeKey(f, host)))
  {
    if f[8] > 1 {
      HopIsTransparent(f[..len]);
      KeyOfFront(f, len);
    } else {
      TimeExceededIsAnswer(host, f);
    }
  }

  /** An expired packet that arrives twice is answered twice, with the same key. */
  lemma TimeExceededRepeats(host: u32, f: Frame, c: seq<Entry>)
    requires Good(c) && Dest(f) != host && Dest(f) != BROADCAST && f[8] <= 1 && f[9] != UIP_PROTO_ICMP && !Hit(c, KeyOf(f))
    ensures
      var v := Forwarded(host, f, UIP_IPH_LEN, c);
      v.out.Some? && Forwarded(host, f, UIP_IPH_LEN, v.cache).out == v.out
  {
  }
}
