/** uip_arp.cpp: the ARP module over its table and uip_buf, and address resolution between two hosts. */
module Arp {
  import opened Bytes
  import opened SeqNumbers
  import opened PacketBuffer
  import opened ArpTable

  const ETH_LEN: nat := 14
  const ARP_LEN: nat := 42
  const ARP_REQUEST: u16 := 1
  const ARP_REPLY: u16 := 2
  const UIP_ETHTYPE_ARP: u16 := 0x0806
  const UIP_ETHTYPE_IP: u16 := 0x0800
  const BROADCAST_IP: u32 := 0xffff_ffff
  const BROADCAST_MAC: Mac := [0xff, 0xff, 0xff, 0xff, 0xff, 0xff]
  const NO_MAC: Mac := [0, 0, 0, 0, 0, 0]

  /** uip_buf: long enough for an ARP packet, and for an IP header behind an Ethernet header. */
  type Frame = b: seq<byte> | |b| >= ARP_LEN witness seq(ARP_LEN, _ => 0)

  /** uip_hostaddr, uip_draddr, uip_netmask and uip_ethaddr. */
  datatype Config = Config(host: u32, router: u32, mask: u32, eth: Mac)

  /** Bitwise and. */
  function BitAnd(a: nat, b: nat): nat
    decreases a
  {
    if a == 0 || b == 0 then 0
    else 2 * BitAnd(a / 2, b / 2) + if a % 2 == 1 && b % 2 == 1 then 1 else 0
  }

  /** The address whose Ethernet address is needed to reach dest. */
  function NextHop(cfg: Config, dest: u32): u32 {
    if BitAnd(dest, cfg.mask) == BitAnd(cfg.host, cfg.mask) then dest else cfg.router
  }

  // ---- Frames ----

  function EthHeader(dest: Mac, src: Mac, ethtype: u16): (h: seq<byte>)
    ensures |h| == ETH_LEN
  {
    dest + src + Be16(ethtype)
  }

  /** Everything of an ARP packet behind the opcode. */
  function ArpBody(sha: Mac, sip: u32, dha: Mac, dip: u32): (h: seq<byte>)
    ensures |h| == 20
  {
    sha + Be32(sip) + dha + Be32(dip)
  }

  /** An ARP packet; `kinds` are the hardware and protocol type fields. */
  function ArpPacket(eth: seq<byte>, kinds: seq<byte>, opcode: u16, body: seq<byte>): seq<byte> {
    eth + kinds + Be16(opcode) + body
  }

  /** Ethernet and IPv4: types 1 and 0x0800, lengths 6 and 4. */
  const ETHERNET_IPV4: seq<byte> := [0, 1, 8, 0, 6, 4]

  function Opcode(b: Frame): u16 { Join16(b[20], b[21]) }
  function SenderMac(b: Frame): Mac { b[22..28] }
  function SenderIp(b: Frame): u32 { Number(b[28..32]) }
  function TargetIp(b: Frame): u32 { Number(b[38..42]) }

  /** The destination address of the IP packet behind an Ethernet header. */
  function DestIp(b: Frame): u32 { Number(b[30..34]) }

  /** The request that uip_arp_out puts in place of a packet. */
  function Request(cfg: Config, nextHop: u32): (p: seq<byte>)
    ensures |p| == ARP_LEN
  {
    ArpPacket(EthHeader(BROADCAST_MAC, cfg.eth, UIP_ETHTYPE_ARP), ETHERNET_IPV4, ARP_REQUEST,
              ArpBody(cfg.eth, cfg.host, NO_MAC, nextHop))
  }

  /** The reply that uip_arp_arpin makes of a request. */
  function Reply(cfg: Config, b: Frame): (p: seq<byte>)
    ensures |p| == ARP_LEN
  {
    ArpPacket(EthHeader(SenderMac(b), cfg.eth, UIP_ETHTYPE_ARP), b[14..20], ARP_REPLY,
              ArpBody(cfg.eth, cfg.host, SenderMac(b), SenderIp(b)))
  }

  // ---- The operations ----

  /** arp_table, arptime, uip_buf and uip_len. */
  datatype Arp = Arp(table: seq<Slot>, now: byte, buf: Frame, len: nat)

  /** The binding an ARP packet of length len in b asks the host to store, if any. */
  function Offer(cfg: Config, b: Frame, len: nat): Option<(u32, Mac)> {
    if len >= ARP_LEN && (Opcode(b) == ARP_REQUEST || Opcode(b) == ARP_REPLY) && TargetIp(b) == cfg.host
    then Some((SenderIp(b), SenderMac(b)))
    else None
  }

  ghost function Store(t: seq<Slot>, now: byte, o: Option<(u32, Mac)>): (r: seq<Slot>)
    requires t != []
    ensures |r| == |t|
  {
    match o
    case None => t
    case Some(p) => Update(t, now, p.0, p.1)
  }

  /** uip_arp_arpin. */
  ghost function ArpIn(cfg: Config, a: Arp): (r: Arp)
    requires a.table != []
    ensures |r.table| == |a.table|
  {
    var o := Offer(cfg, a.buf, a.len);
    var t := Store(a.table, a.now, o);
    if o.Some? && Opcode(a.buf) == ARP_REQUEST then Arp(t, a.now, Overlay(a.buf, 0, Reply(cfg, a.buf)), ARP_LEN)
    else Arp(t, a.now, a.buf, 0)
  }

  /** uip_arp_out. */
  function ArpOut(cfg: Config, a: Arp): Arp {
    var nextHop := NextHop(cfg, DestIp(a.buf));
    var i := Index(a.table, nextHop);
    if DestIp(a.buf) == BROADCAST_IP then
      a.(buf := Overlay(a.buf, 0, EthHeader(BROADCAST_MAC, cfg.eth, UIP_ETHTYPE_IP)), len := a.len + ETH_LEN)
    else if i == |a.table| then
      a.(buf := Overlay(a.buf, 0, Request(cfg, nextHop)), len := ARP_LEN)
    else
      a.(buf := Overlay(a.buf, 0, EthHeader(a.table[i].mac, cfg.eth, UIP_ETHTYPE_IP)), len := a.len + ETH_LEN)
  }

  // ---- The code ----

  class ArpModule {
    const cfg: Config
    const arp_table: array<Slot>
    const uip_buf: array<byte>
    var arptime: byte
    var uip_len: nat

    /** uip_arp_init, on a table of any size. */
    constructor (cfg: Config, tabsize: nat, bufsize: nat)
      requires tabsize > 0 && bufsize >= ARP_LEN
      ensures fresh(arp_table) && fresh(uip_buf) && this.cfg == cfg && arp_table.Length == tabsize && uip_buf.Length == bufsize
      ensures Valid() && Used(arp_table[..]) == {} && arptime == 0 && uip_len == 0
    {
      this.cfg := cfg;
      arp_table := new Slot[tabsize](_ => Slot(0, NO_MAC, 0));
      uip_buf := new byte[bufsize](_ => 0);
      arptime, uip_len := 0, 0;
    }

    ghost predicate Valid()
      reads this`arptime
    {
      arp_table.Length > 0 && uip_buf.Length >= ARP_LEN
    }

    ghost function Value(): Arp
      requires Valid()
      reads this, arp_table, uip_buf
    {
      Arp(arp_table[..], arptime, uip_buf[..], uip_len)
    }

    method Put(at: nat, bytes: seq<byte>)
      requires at + |bytes| <= uip_buf.Length
      modifies uip_buf
      ensures uip_buf[..] == Overlay(old(uip_buf[..]), at, bytes)
    {
      forall i | 0 <= i < |bytes| {
        uip_buf[at + i] := bytes[i];
      }
    }

    /** uip_arp_timer: the loop looks at empty entries only and empties them. */
    method UipArpTimer(maxage: int)
      requires Valid()
      modifies this`arptime, arp_table
      ensures arptime == Wrap8(old(arptime) + 1) && arp_table[..] == old(arp_table[..])
    {
      arptime := Wrap8(arptime + 1);
      var i := 0;
      while i < arp_table.Length
        invariant 0 <= i <= arp_table.Length
        invariant arp_table[..] == old(arp_table[..]) && arptime == Wrap8(old(arptime) + 1)
      {
        if arp_table[i].ip == 0 && arptime - arp_table[i].time >= maxage {
          arp_table[i] := arp_table[i].(ip := 0);
        }
        i := i + 1;
      }
    }

    /** The search for an address; with 0 it finds the first unused entry. */
    method Find(ip: u32) returns (i: nat)
      requires Valid()
      ensures i == Index(arp_table[..], ip)
    {
      i := 0;
      while i < arp_table.Length
        invariant 0 <= i <= arp_table.Length
        invariant forall j :: 0 <= j < i ==> arp_table[j].ip != ip
      {
        if arp_table[i].ip == ip { return; }
        i := i + 1;
      }
    }

    /** The search for an entry in use that matches. */
    method FindUsed(ip: u32) returns (i: nat)
      requires Valid()
      ensures i == if ip == 0 then arp_table.Length else Index(arp_table[..], ip)
    {
      i := 0;
      while i < arp_table.Length
        invariant 0 <= i <= arp_table.Length
        invariant ip != 0 ==> forall j :: 0 <= j < i ==> arp_table[j].ip != ip
      {
        if arp_table[i].ip != 0 {
          if ip == arp_table[i].ip { return; }
        }
        i := i + 1;
      }
    }

    /** The loop for the oldest entry, over tmpage and c. */
    method FindOldest() returns (c: nat)
      requires Valid()
      ensures c < arp_table.Length && c == Oldest(arp_table[..], arptime)
    {
      ghost var t := arp_table[..];
      var tmpage: byte := 0;
      c := 0;
      var i := 0;
      while i < arp_table.Length
        invariant 0 <= i <= arp_table.Length && c < arp_table.Length && (c < i || c == 0)
        invariant forall j :: 0 <= j < i ==> Age(t[j], arptime) <= tmpage
        invariant tmpage > 0 ==> Age(t[c], arptime) == tmpage && forall j :: 0 <= j < c ==> Age(t[j], arptime) < tmpage
        invariant tmpage == 0 ==> c == 0
      {
        if arptime - arp_table[i].time > tmpage {
          tmpage := arptime - arp_table[i].time;
          c := i;
        }
        i := i + 1;
      }
      assert IsOldest(t, arptime, c);
      OldestIsUnique(t, arptime, c, Oldest(t, arptime));
    }

    /** uip_arp_update. */
    method UipArpUpdate(ipaddr: u32, ethaddr: Mac)
      requires Valid()
      modifies arp_table
      ensures arp_table[..] == Update(old(arp_table[..]), arptime, ipaddr, ethaddr)
    {
      var i := FindUsed(ipaddr);
      if i < arp_table.Length {
        arp_table[i] := arp_table[i].(mac := ethaddr, time := arptime);
        return;
      }
      i := Find(0);
      if i == arp_table.Length {
        i := FindOldest();
      }
      arp_table[i] := Slot(ipaddr, ethaddr, arptime);
    }

    /** uip_arp_arpin. */
    method UipArpArpin()
      requires Valid()
      modifies this`uip_len, arp_table, uip_buf
      ensures Valid() && Value() == ArpIn(cfg, old(Value()))
    {
      ghost var b: Frame := uip_buf[..];
      var long := uip_len >= ARP_LEN;
      uip_len := 0;
      if !long { return; }
      var opcode := Join16(uip_buf[20], uip_buf[21]);
      if opcode == ARP_REQUEST {
        if Number(uip_buf[38..42]) == cfg.host {
          UipArpUpdate(Number(uip_buf[28..32]), uip_buf[22..28]);
          MakeReply();
          uip_len := ARP_LEN;
        }
      } else if opcode == ARP_REPLY {
        if Number(uip_buf[38..42]) == cfg.host {
          UipArpUpdate(Number(uip_buf[28..32]), uip_buf[22..28]);
        }
      }
    }

    /** The request in uip_buf becomes the reply, field by field. */
    method MakeReply()
      requires Valid()
      modifies uip_buf
      ensures uip_buf[..] == Overlay(old(uip_buf[..]), 0, Reply(cfg, old(uip_buf[..])))
    {
      ghost var b: Frame := uip_buf[..];
      AnswerSender();
      ghost var q: Frame := uip_buf[..];
      assert uip_buf[28..32] == q[28..32];
      Put(38, uip_buf[28..32]);
      Put(28, Be32(cfg.host));
      Put(12, Be16(UIP_ETHTYPE_ARP));
      ReplyLaidOut(cfg, b, q, uip_buf[..]);
    }

    /** Opcode and Ethernet addresses. */
    method AnswerSender()
      requires Valid()
      modifies uip_buf
      ensures Answered(cfg, old(uip_buf[..]), uip_buf[..])
    {
      ghost var b: Frame := uip_buf[..];
      Put(20, Be16(ARP_REPLY));
      assert uip_buf[22..28] == uip_buf[..][22..28] == b[22..28];
      Put(32, uip_buf[22..28]);
      Put(22, cfg.eth);
      Put(6, cfg.eth);
      assert uip_buf[32..38] == uip_buf[..][32..38];
      Put(0, uip_buf[32..38]);
      AnsweredLaidOut(cfg, b, uip_buf[..]);
    }

    /** The ARP request over whatever was in uip_buf, its fields in the order they have in the packet. */
    method MakeRequest(ipaddr: u32)
      requires Valid()
      modifies uip_buf
      ensures uip_buf[..] == Overlay(old(uip_buf[..]), 0, Request(cfg, ipaddr))
    {
      Put(0, BROADCAST_MAC);
      Put(6, cfg.eth);
      Put(12, Be16(UIP_ETHTYPE_ARP));
      Put(14, ETHERNET_IPV4);
      Put(20, Be16(ARP_REQUEST));
      Put(22, cfg.eth);
      Put(28, Be32(cfg.host));
      Put(32, NO_MAC);
      Put(38, Be32(ipaddr));
      RequestLaidOut(cfg, ipaddr, old(uip_buf[..]), uip_buf[..]);
    }

    /** uip_arp_out. */
    method UipArpOut()
      requires Valid()
      modifies this`uip_len, uip_buf
      ensures Valid() && Value() == ArpOut(cfg, old(Value()))
    {
      ghost var b: Frame := uip_buf[..];
      var dest := Number(uip_buf[30..34]);
      if dest == BROADCAST_IP {
        Put(0, BROADCAST_MAC);
      } else {
        var ipaddr := if BitAnd(dest, cfg.mask) != BitAnd(cfg.host, cfg.mask) then cfg.router else dest;
        var i := Find(ipaddr);
        if i == arp_table.Length {
          MakeRequest(ipaddr);
          uip_len := ARP_LEN;
          return;
        }
        Put(0, arp_table[i].mac);
      }
      ghost var mac: Mac := uip_buf[0..6];
      Put(6, cfg.eth);
      Put(12, Be16(UIP_ETHTYPE_IP));
      HeaderLaidOut(b, mac, cfg.eth, Be16(UIP_ETHTYPE_IP));
      uip_len := uip_len + ETH_LEN;
    }
  }

  lemma HeaderLaidOut(b: Frame, dest: Mac, src: Mac, ethtype: seq<byte>)
    requires |ethtype| == 2
    ensures Overlay(Overlay(Overlay(b, 0, dest), 6, src), 12, ethtype) == Overlay(b, 0, dest + src + ethtype)
  {
  }

  lemma RequestLaidOut(cfg: Config, ipaddr: u32, b: Frame, q: seq<byte>)
    requires
      var q1 := Overlay(Overlay(Overlay(b, 0, BROADCAST_MAC), 6, cfg.eth), 12, Be16(UIP_ETHTYPE_ARP));
      var q2 := Overlay(Overlay(Overlay(q1, 14, ETHERNET_IPV4), 20, Be16(ARP_REQUEST)), 22, cfg.eth);
      q == Overlay(Overlay(Overlay(q2, 28, Be32(cfg.host)), 32, NO_MAC), 38, Be32(ipaddr))
    ensures q == Overlay(b, 0, Request(cfg, ipaddr))
  {
  }

  /** q is b with the opcode and the Ethernet addresses of the reply. */
  ghost predicate Answered(cfg: Config, b: Frame, q: Frame) {
    && |q| == |b| && q[0..6] == b[22..28] && q[6..12] == cfg.eth && q[14..20] == b[14..20] && q[20..22] == Be16(ARP_REPLY)
    && q[22..28] == cfg.eth && q[28..32] == b[28..32] && q[32..38] == b[22..28] && q[42..] == b[42..]
  }

  lemma AnsweredLaidOut(cfg: Config, b: Frame, q: Frame)
    requires
      var q1 := Overlay(Overlay(b, 20, Be16(ARP_REPLY)), 32, b[22..28]);
      var q2 := Overlay(Overlay(q1, 22, cfg.eth), 6, cfg.eth);
      q == Overlay(q2, 0, q2[32..38])
    ensures Answered(cfg, b, q)
  {
    var q1 := Overlay(Overlay(b, 20, Be16(ARP_REPLY)), 32, b[22..28]);
    var q2 := Overlay(Overlay(q1, 22, cfg.eth), 6, cfg.eth);
    assert q1[32..38] == b[22..28] && q1[20..22] == Be16(ARP_REPLY);
    assert q2[32..38] == q1[32..38] && q2[22..28] == cfg.eth && q2[6..12] == cfg.eth && q2[20..22] == q1[20..22];
    assert q[32..38] == q2[32..38] && q[22..28] == q2[22..28] && q[6..12] == q2[6..12] && q[20..22] == q2[20..22];
    assert q[0..6] == q2[32..38];
    assert q[14..20] == b[14..20] && q[28..32] == b[28..32] && q[42..] == b[42..];
  }

  lemma ReplyLaidOut(cfg: Config, b: Frame, q: Frame, r: Frame)
    requires Answered(cfg, b, q)
    requires r == Overlay(Overlay(Overlay(q, 38, q[28..32]), 28, Be32(cfg.host)), 12, Be16(UIP_ETHTYPE_ARP))
    ensures r == Overlay(b, 0, Reply(cfg, b))
  {
    Be32Unique(b[28..32]);
    assert r[0..6] == q[0..6] && r[6..12] == q[6..12] && r[12..14] == Be16(UIP_ETHTYPE_ARP) && r[14..20] == q[14..20];
    assert r[20..22] == q[20..22] && r[22..28] == q[22..28] && r[28..32] == Be32(cfg.host) && r[32..38] == q[32..38];
    assert r[38..42] == q[28..32] && r[42..] == q[42..];
    ReplyJoined(cfg, b, r);
  }

  lemma ReplyJoined(cfg: Config, b: Frame, q: seq<byte>)
    requires |q| == |b| && q[42..] == b[42..] && q[38..42] == Be32(SenderIp(b))
    requires q[0..6] == SenderMac(b) && q[6..12] == cfg.eth && q[12..14] == Be16(UIP_ETHTYPE_ARP) && q[14..20] == b[14..20]
    requires q[20..22] == Be16(ARP_REPLY) && q[22..28] == cfg.eth && q[28..32] == Be32(cfg.host) && q[32..38] == SenderMac(b)
    ensures q == Overlay(b, 0, Reply(cfg, b))
  {
    CutFrame(q);
    OverlayFront(b, Reply(cfg, b));
  }

  lemma CutFrame(q: seq<byte>)
    requires |q| >= ARP_LEN
    ensures q == (q[0..6] + q[6..12] + q[12..14]) + q[14..20] + q[20..22]
                 + (q[22..28] + q[28..32] + q[32..38] + q[38..42]) + q[42..]
  {
  }

  lemma OverlayFront(b: seq<byte>, p: seq<byte>)
    requires |p| <= |b|
    ensures Overlay(b, 0, p) == p + b[|p|..]
  {
  }

  // ---- Which next hop, and what goes onto the wire ----

  /** Bit k of a number. */
  predicate Bit(x: nat, k: nat)
    decreases k
  {
    if k == 0 then x % 2 == 1 else Bit(x / 2, k - 1)
  }

  lemma {:induction false} ZeroHasNoBits(k: nat)
    ensures !Bit(0, k)
    decreases k
  {
    if k > 0 { ZeroHasNoBits(k - 1); }
  }

  lemma {:induction false} BitOfAnd(a: nat, b: nat, k: nat)
    ensures Bit(BitAnd(a, b), k) <==> Bit(a, k) && Bit(b, k)
    decreases k
  {
    if a == 0 || b == 0 {
      ZeroHasNoBits(k);
    } else if k > 0 {
      BitOfAnd(a / 2, b / 2, k - 1);
      assert BitAnd(a, b) / 2 == BitAnd(a / 2, b / 2);
    }
  }

  lemma {:induction false} BitsDetermine(x: nat, y: nat)
    requires forall k: nat :: Bit(x, k) <==> Bit(y, k)
    ensures x == y
    decreases x + y
  {
    assert Bit(x, 0) <==> Bit(y, 0);
    if x > 0 || y > 0 {
      forall k: nat ensures Bit(x / 2, k) <==> Bit(y / 2, k) {
        assert Bit(x, k + 1) <==> Bit(y, k + 1);
      }
      BitsDetermine(x / 2, y / 2);
    }
  }

  /** dest agrees with the address of this host in every bit that is set in the netmask. */
  ghost predicate OnLink(cfg: Config, dest: u32) {
    forall k: nat :: Bit(cfg.mask, k) ==> (Bit(dest, k) <==> Bit(cfg.host, k))
  }

  lemma MaskedAgree(cfg: Config, dest: u32)
    ensures BitAnd(dest, cfg.mask) == BitAnd(cfg.host, cfg.mask) <==> OnLink(cfg, dest)
  {
    forall k: nat
      ensures Bit(BitAnd(dest, cfg.mask), k) <==> Bit(dest, k) && Bit(cfg.mask, k)
      ensures Bit(BitAnd(cfg.host, cfg.mask), k) <==> Bit(cfg.host, k) && Bit(cfg.mask, k)
    {
      BitOfAnd(dest, cfg.mask, k);
      BitOfAnd(cfg.host, cfg.mask, k);
    }
    if OnLink(cfg, dest) { BitsDetermine(BitAnd(dest, cfg.mask), BitAnd(cfg.host, cfg.mask)); }
  }

  /** Where a packet has to go first: to its destination on the link, else to the router. */
  ghost function HopFor(cfg: Config, dest: u32): u32 {
    if OnLink(cfg, dest) then dest else cfg.router
  }

  lemma NextHopIsRight(cfg: Config, dest: u32)
    ensures NextHop(cfg, dest) == HopFor(cfg, dest)
  {
    MaskedAgree(cfg, dest);
  }

  /** An Ethernet frame from this host with an IP packet, which stays as it was, to the address mac. */
  ghost predicate CarriesPacket(cfg: Config, a: Arp, r: Arp, mac: Mac) {
    && r.len == a.len + 14 && |r.buf| == |a.buf|
    && r.buf[0..6] == mac && r.buf[6..12] == cfg.eth && r.buf[12] == 8 && r.buf[13] == 0
    && r.buf[14..] == a.buf[14..]
  }

  /** A broadcast ARP request (section "Packet Generation" of RFC 826) of this host for the address ip. */
  ghost predicate IsRequestFor(cfg: Config, r: Arp, ip: u32) {
    && r.len == 42
    && r.buf[0..6] == [0xff, 0xff, 0xff, 0xff, 0xff, 0xff] && r.buf[6..12] == cfg.eth && r.buf[12..14] == [8, 6]
    && r.buf[14..22] == [0, 1, 8, 0, 6, 4, 0, 1]
    && r.buf[22..28] == cfg.eth && Number(r.buf[28..32]) == cfg.host
    && r.buf[32..38] == [0, 0, 0, 0, 0, 0] && Number(r.buf[38..42]) == ip
  }

  lemma FrameLaidOut(b: Frame, dest: Mac, src: Mac, ethtype: u16)
    ensures
      var r := Overlay(b, 0, EthHeader(dest, src, ethtype));
      r[0..6] == dest && r[6..12] == src && r[12..14] == Be16(ethtype) && r[14..] == b[14..]
  {
  }

  lemma PartsOf(eth: seq<byte>, kinds: seq<byte>, opcode: seq<byte>, body: seq<byte>, rest: seq<byte>)
    requires |eth| == 14 && |kinds| == 6 && |opcode| == 2 && |body| == 20
    ensures
      var r := eth + kinds + opcode + body + rest;
      r[..14] == eth && r[14..20] == kinds && r[20..22] == opcode && r[22..42] == body
  {
  }

  lemma EthParts(r: seq<byte>, dest: Mac, src: Mac, ethtype: seq<byte>)
    requires |r| >= 14 && |ethtype| == 2 && r[..14] == dest + src + ethtype
    ensures r[0..6] == dest && r[6..12] == src && r[12..14] == ethtype
  {
    assert r[0..6] == r[..14][0..6] && r[6..12] == r[..14][6..12] && r[12..14] == r[..14][12..14];
  }

  lemma BodyParts(r: seq<byte>, sha: Mac, sip: seq<byte>, dha: Mac, dip: seq<byte>)
    requires |r| >= 42 && |sip| == |dip| == 4 && r[22..42] == sha + sip + dha + dip
    ensures r[22..28] == sha && r[28..32] == sip && r[32..38] == dha && r[38..42] == dip
  {
    var b := r[22..42];
    assert r[22..28] == b[0..6] && r[28..32] == b[6..10] && r[32..38] == b[10..16] && r[38..42] == b[16..20];
  }

  /** The fields of an ARP packet at the front of a frame. */
  lemma ArpOnTheWire(b: Frame, dest: Mac, src: Mac, kinds: seq<byte>, opcode: u16, sha: Mac, sip: u32, dha: Mac, dip: u32)
    requires |kinds| == 6
    ensures
      var r := Overlay(b, 0, ArpPacket(EthHeader(dest, src, UIP_ETHTYPE_ARP), kinds, opcode, ArpBody(sha, sip, dha, dip)));
      && r[0..6] == dest && r[6..12] == src && r[12..14] == Be16(UIP_ETHTYPE_ARP) && r[14..20] == kinds
      && r[20..22] == Be16(opcode) && r[22..28] == sha && r[28..32] == Be32(sip) && r[32..38] == dha && r[38..42] == Be32(dip)
  {
    var eth, body := EthHeader(dest, src, UIP_ETHTYPE_ARP), ArpBody(sha, sip, dha, dip);
    var p := ArpPacket(eth, kinds, opcode, body);
    OverlayFront(b, p);
    PartsOf(eth, kinds, Be16(opcode), body, b[42..]);
    EthParts(Overlay(b, 0, p), dest, src, Be16(UIP_ETHTYPE_ARP));
    BodyParts(Overlay(b, 0, p), sha, Be32(sip), dha, Be32(dip));
  }

  lemma RequestOnTheWire(cfg: Config, ip: u32, b: Frame, table: seq<Slot>, now: byte)
    ensures IsRequestFor(cfg, Arp(table, now, Overlay(b, 0, Request(cfg, ip)), 42), ip)
  {
    ArpOnTheWire(b, BROADCAST_MAC, cfg.eth, ETHERNET_IPV4, ARP_REQUEST, cfg.eth, cfg.host, NO_MAC, ip);
    Be16Unique(8, 6);
    Be16Unique(0, 1);
    var r := Overlay(b, 0, Request(cfg, ip));
    assert r[14..22] == r[14..20] + r[20..22];
  }

  /**
    A packet goes straight to its destination if that agrees with the host in all bits of the netmask, and else
    to the router: in a frame to the Ethernet address the table has for it, or a request takes its place.
   */
  lemma PacketTakesItsNextHop(cfg: Config, a: Arp)
    requires Number(a.buf[30..34]) != 0xffff_ffff
    ensures
      var hop, r := HopFor(cfg, Number(a.buf[30..34])), ArpOut(cfg, a);
      && r.table == a.table && r.now == a.now
      && (forall i :: 0 <= i < |a.table| && a.table[i].ip == hop && (forall j :: 0 <= j < i ==> a.table[j].ip != hop) ==>
            CarriesPacket(cfg, a, r, a.table[i].mac))
      && ((forall i :: 0 <= i < |a.table| ==> a.table[i].ip != hop) ==> IsRequestFor(cfg, r, hop))
  {
    NextHopIsRight(cfg, DestIp(a.buf));
    var hop := HopFor(cfg, DestIp(a.buf));
    var i := Index(a.table, hop);
    Be16Unique(8, 0);
    if i < |a.table| {
      FrameLaidOut(a.buf, a.table[i].mac, cfg.eth, UIP_ETHTYPE_IP);
      SamePair(ArpOut(cfg, a).buf, UIP_ETHTYPE_IP);
    } else {
      RequestOnTheWire(cfg, hop, a.buf, a.table, a.now);
    }
  }

  lemma SamePair(b: Frame, ethtype: u16)
    requires b[12..14] == Be16(ethtype)
    ensures b[12] == Be16(ethtype)[0] && b[13] == Be16(ethtype)[1]
  {
    assert b[12] == b[12..14][0] && b[13] == b[12..14][1];
  }

  /** A packet to the limited broadcast address goes to all stations, whatever the table holds. */
  lemma BroadcastIsBroadcast(cfg: Config, a: Arp)
    requires a.buf[30..34] == [0xff, 0xff, 0xff, 0xff]
    ensures
      var r := ArpOut(cfg, a);
      r.table == a.table && r.now == a.now && CarriesPacket(cfg, a, r, [0xff, 0xff, 0xff, 0xff, 0xff, 0xff])
  {
    assert DestIp(a.buf) == 0xffff_ffff;
    FrameLaidOut(a.buf, [0xff, 0xff, 0xff, 0xff, 0xff, 0xff], cfg.eth, UIP_ETHTYPE_IP);
    Be16Unique(8, 0);
    SamePair(ArpOut(cfg, a).buf, UIP_ETHTYPE_IP);
  }

  /** An ARP packet that asks this host something or answers it, by the bytes of the frame. */
  predicate ConcernsUs(cfg: Config, b: Frame, len: nat) {
    len >= 42 && b[20] == 0 && (b[21] == 1 || b[21] == 2) && Number(b[38..42]) == cfg.host
  }

  lemma OfferMeans(cfg: Config, b: Frame, len: nat)
    ensures Offer(cfg, b, len) == if ConcernsUs(cfg, b, len) then Some((Number(b[28..32]), b[22..28])) else None
    ensures ConcernsUs(cfg, b, len) ==> Opcode(b) == b[21]
  {
  }

  /** Every other packet is dropped without a trace. */
  lemma OthersAreIgnored(cfg: Config, a: Arp)
    requires a.table != [] && !ConcernsUs(cfg, a.buf, a.len)
    ensures ArpIn(cfg, a) == a.(len := 0)
  {
    OfferMeans(cfg, a.buf, a.len);
  }

  /** What concerns this host is stored under the sender's address; only a request is answered, to its sender. */
  lemma WhatConcernsUsIsStored(cfg: Config, a: Arp)
    requires a.table != [] && ConcernsUs(cfg, a.buf, a.len)
    ensures
      var r := ArpIn(cfg, a);
      && r.table == Update(a.table, a.now, Number(a.buf[28..32]), a.buf[22..28])
      && if a.buf[21] == 2 then r.len == 0
         else r.len == 42 && r.buf[0..6] == a.buf[22..28] && r.buf[6..12] == cfg.eth && r.buf[12..14] == [8, 6]
              && r.buf[14..20] == a.buf[14..20] && r.buf[20..22] == [0, 2]
              && r.buf[22..28] == cfg.eth && Number(r.buf[28..32]) == cfg.host
              && r.buf[32..38] == a.buf[22..28] && Number(r.buf[38..42]) == Number(a.buf[28..32])
  {
    OfferMeans(cfg, a.buf, a.len);
    if a.buf[21] == 1 {
      var b := a.buf;
      ArpOnTheWire(b, SenderMac(b), cfg.eth, b[14..20], ARP_REPLY, cfg.eth, cfg.host, SenderMac(b), SenderIp(b));
      Be16Unique(8, 6);
      Be16Unique(0, 2);
    }
  }

  // ---- Runs ----

  /** A received ARP packet, or a call of uip_arp_timer; uip_arp_out leaves the table alone. */
  datatype Event = Received(b: Frame, len: nat) | TimerCall

  datatype Table = Table(slots: seq<Slot>, now: byte)

  ghost function Next(cfg: Config, t: Table, e: Event): (r: Table)
    requires t.slots != []
    ensures |r.slots| == |t.slots|
  {
    match e
    case Received(b, len) => t.(slots := ArpIn(cfg, Arp(t.slots, t.now, b, len)).table)
    case TimerCall => t.(now := Wrap8(t.now + 1))
  }

  ghost function Run(cfg: Config, t: Table, es: seq<Event>): (r: Table)
    requires t.slots != []
    ensures |r.slots| == |t.slots|
  {
    if es == [] then t else Next(cfg, Run(cfg, t, es[..|es| - 1]), es[|es| - 1])
  }

  function OfferOf(cfg: Config, e: Event): Option<(u32, Mac)> {
    match e
    case Received(b, len) => Offer(cfg, b, len)
    case TimerCall => None
  }

  /** The Ethernet address in the latest accepted ARP packet from ip. */
  function Latest(cfg: Config, es: seq<Event>, ip: u32): Option<Mac> {
    if es == [] then None
    else
      var o := OfferOf(cfg, es[|es| - 1]);
      if o.Some? && o.value.0 == ip then Some(o.value.1) else Latest(cfg, es[..|es| - 1], ip)
  }

  ghost predicate Faithful(cfg: Config, t: seq<Slot>, es: seq<Event>) {
    Unique(t) && forall ip :: ip in Bindings(t) ==> Latest(cfg, es, ip) == Some(Bindings(t)[ip])
  }

  lemma StoreKeepsFaithful(cfg: Config, t: Table, es: seq<Event>, e: Event)
    requires t.slots != [] && Faithful(cfg, t.slots, es)
    ensures Faithful(cfg, Next(cfg, t, e).slots, es + [e])
  {
    var o := OfferOf(cfg, e);
    var r := Next(cfg, t, e).slots;
    var all := es + [e];
    assert all[..|all| - 1] == es;
    assert r == Store(t.slots, t.now, o);
    if o.Some? {
      if o.value.0 != 0 { UpdateRefinesMap(t.slots, t.now, o.value.0, o.value.1); }
      else { ZeroUpdate(t.slots, t.now, o.value.1); }
    }
  }

  /** In every run the table binds an address only to what the latest accepted ARP packet from it said. */
  lemma {:induction false} RunIsFaithful(cfg: Config, t: Table, es: seq<Event>)
    requires t.slots != [] && Unique(t.slots) && Used(t.slots) == {}
    ensures Faithful(cfg, Run(cfg, t, es).slots, es)
  {
    if es != [] {
      var n := |es| - 1;
      RunIsFaithful(cfg, t, es[..n]);
      StoreKeepsFaithful(cfg, Run(cfg, t, es[..n]), es[..n], es[n]);
      assert es == es[..n] + [es[n]];
    }
  }

  /**
    After any run an outgoing packet carries the Ethernet address of the latest accepted ARP packet from its
    next hop, or an ARP request for that next hop takes its place.
   */
  lemma OutUsesLatest(cfg: Config, t: Table, es: seq<Event>, b: Frame, len: nat)
    requires t.slots != [] && Unique(t.slots) && Used(t.slots) == {}
    requires DestIp(b) != BROADCAST_IP && HopFor(cfg, DestIp(b)) != 0
    ensures
      var now := Run(cfg, t, es);
      var r, nextHop := ArpOut(cfg, Arp(now.slots, now.now, b, len)), HopFor(cfg, DestIp(b));
      if nextHop in Bindings(now.slots) then
        Latest(cfg, es, nextHop).Some? && r.len == len + ETH_LEN && r.buf[ETH_LEN..] == b[ETH_LEN..]
        && r.buf[..ETH_LEN] == EthHeader(Latest(cfg, es, nextHop).value, cfg.eth, UIP_ETHTYPE_IP)
      else r.len == ARP_LEN && r.buf[..ARP_LEN] == Request(cfg, nextHop)
  {
    NextHopIsRight(cfg, DestIp(b));
    RunIsFaithful(cfg, t, es);
    UsedMeansIndex(Run(cfg, t, es).slots, HopFor(cfg, DestIp(b)));
  }

  /** The next hop 0.0.0.0 is looked up like any other: it is sent to the first unused entry unless there is none. */
  lemma ZeroNextHop(cfg: Config, a: Arp)
    requires DestIp(a.buf) != BROADCAST_IP && HopFor(cfg, DestIp(a.buf)) == 0
    ensures
      var r := ArpOut(cfg, a);
      if Full(a.table) then r.buf[..ARP_LEN] == Request(cfg, 0)
      else r.buf[..ETH_LEN] == EthHeader(a.table[Index(a.table, 0)].mac, cfg.eth, UIP_ETHTYPE_IP)
  {
    NextHopIsRight(cfg, DestIp(a.buf));
  }

  /** Calls of uip_arp_timer since the latest accepted ARP packet from ip. */
  function CallsSince(cfg: Config, es: seq<Event>, ip: u32): nat {
    if es == [] then 0
    else
      var e := es[|es| - 1];
      var o := OfferOf(cfg, e);
      if o.Some? && o.value.0 == ip then 0
      else CallsSince(cfg, es[..|es| - 1], ip) + if e.TimerCall? then 1 else 0
  }

  ghost predicate Aged(cfg: Config, t: Table, es: seq<Event>) {
    Unique(t.slots)
    && forall i :: 0 <= i < |t.slots| && t.slots[i].ip != 0 ==>
         TrueAge(t.slots[i], t.now) == CallsSince(cfg, es, t.slots[i].ip) % 0x100
  }

  lemma OneCallOlder(s: Slot, now: byte, n: nat)
    requires TrueAge(s, now) == n % 0x100
    ensures TrueAge(s, Wrap8(now + 1)) == (n + 1) % 0x100
  {
  }

  lemma AgeOfStored(cfg: Config, t: Table, es: seq<Event>, e: Event, i: nat)
    requires t.slots != [] && Aged(cfg, t, es) && e.Received? && i < |t.slots|
    ensures
      var r := Next(cfg, t, e);
      Unique(r.slots) && r.now == t.now && (r.slots[i].ip != 0 ==> TrueAge(r.slots[i], r.now) == CallsSince(cfg, es + [e], r.slots[i].ip) % 0x100)
  {
    var all, o := es + [e], OfferOf(cfg, e);
    var r := Next(cfg, t, e).slots;
    assert all[..|all| - 1] == es;
    assert r == Store(t.slots, t.now, o);
    if o.Some? {
      PlaceKeepsUnique(t.slots, t.now, o.value.0, o.value.1);
      var place := Place(t.slots, t.now, o.value.0);
      assert i != place ==> r[i] == t.slots[i] && (r[i].ip != o.value.0 || r[i].ip == 0);
    }
  }

  lemma StepKeepsAges(cfg: Config, t: Table, es: seq<Event>, e: Event)
    requires t.slots != [] && Aged(cfg, t, es)
    ensures Aged(cfg, Next(cfg, t, e), es + [e])
  {
    var all, r := es + [e], Next(cfg, t, e);
    assert all[..|all| - 1] == es;
    forall i: nat | i < |r.slots|
      ensures Unique(r.slots) && (r.slots[i].ip != 0 ==> TrueAge(r.slots[i], r.now) == CallsSince(cfg, all, r.slots[i].ip) % 0x100)
    {
      if e.TimerCall? {
        if t.slots[i].ip != 0 { OneCallOlder(t.slots[i], t.now, CallsSince(cfg, es, t.slots[i].ip)); }
      } else {
        AgeOfStored(cfg, t, es, e, i);
      }
    }
    assert Unique(r.slots) by { assert 0 < |r.slots|; }
  }

  /** In every run the age of a binding counts the timer calls since its packet, modulo the range of arptime. */
  lemma {:induction false} AgesCountCalls(cfg: Config, t: Table, es: seq<Event>)
    requires t.slots != [] && Unique(t.slots) && Used(t.slots) == {}
    ensures Aged(cfg, Run(cfg, t, es), es)
  {
    if es == [] {
      assert forall i :: 0 <= i < |t.slots| && t.slots[i].ip != 0 ==> t.slots[i].ip in Used(t.slots);
    } else {
      var n := |es| - 1;
      AgesCountCalls(cfg, t, es[..n]);
      StepKeepsAges(cfg, Run(cfg, t, es[..n]), es[..n], es[n]);
      assert es == es[..n] + [es[n]];
    }
  }

  /** The address an event binds. */
  function Sender(cfg: Config, e: Event): set<u32> {
    match OfferOf(cfg, e)
    case None => {}
    case Some(p) => {p.0}
  }

  function Offered(cfg: Config, es: seq<Event>): set<u32> {
    if es == [] then {} else Offered(cfg, es[..|es| - 1]) + Sender(cfg, es[|es| - 1])
  }

  lemma NextRemembers(cfg: Config, t: Table, e: Event)
    requires t.slots != [] && Unique(t.slots) && 0 !in Sender(cfg, e) && |Used(t.slots) + Sender(cfg, e)| <= |t.slots|
    ensures Unique(Next(cfg, t, e).slots) && Used(Next(cfg, t, e).slots) == Used(t.slots) + Sender(cfg, e)
  {
    var o := OfferOf(cfg, e);
    assert Next(cfg, t, e).slots == Store(t.slots, t.now, o);
    if o.Some? { UpdateRemembers(t.slots, t.now, o.value.0, o.value.1); }
  }

  /** While no more neighbours than entries have been heard of, none of them is forgotten. */
  lemma {:induction false} NothingIsForgotten(cfg: Config, t: Table, es: seq<Event>)
    requires t.slots != [] && Unique(t.slots) && Used(t.slots) == {}
    requires 0 !in Offered(cfg, es) && |Offered(cfg, es)| <= |t.slots|
    ensures Unique(Run(cfg, t, es).slots) && Bindings(Run(cfg, t, es).slots).Keys == Offered(cfg, es)
  {
    KeysAreUsed(Run(cfg, t, es).slots);
    if es != [] {
      var n := |es| - 1;
      SubsetSize(Offered(cfg, es[..n]), Offered(cfg, es));
      NothingIsForgotten(cfg, t, es[..n]);
      KeysAreUsed(Run(cfg, t, es[..n]).slots);
      NextRemembers(cfg, Run(cfg, t, es[..n]), es[n]);
    }
  }

  // ---- Resolution ----

  lemma ArpFields(f: Frame, eth: seq<byte>, kinds: seq<byte>, opcode: u16, sha: Mac, sip: u32, dha: Mac, dip: u32)
    requires |eth| == 14 && |kinds| == 6 && f[..ARP_LEN] == ArpPacket(eth, kinds, opcode, ArpBody(sha, sip, dha, dip))
    ensures Opcode(f) == opcode && SenderMac(f) == sha && SenderIp(f) == sip && TargetIp(f) == dip
  {
    var p := f[..ARP_LEN];
    assert p[20..22] == Be16(opcode) && p[22..] == ArpBody(sha, sip, dha, dip);
    assert p[20] == p[20..22][0] && p[21] == p[20..22][1];
    assert p[22..28] == p[22..][..6] == sha;
    assert p[28..32] == p[22..][6..10] == Be32(sip);
    assert p[38..42] == p[22..][16..20] == Be32(dip);
    assert f[22..28] == p[22..28] && f[28..32] == p[28..32] && f[38..42] == p[38..42];
  }

  /** The owner of the address answers a request with its Ethernet address, and learns the one of the asker. */
  lemma RequestIsAnswered(asker: Config, owner: Config, b: Arp)
    requires b.table != [] && Unique(b.table) && asker.host != 0
    requires b.len == ARP_LEN && b.buf[..ARP_LEN] == Request(asker, owner.host)
    ensures
      var r := ArpIn(owner, b);
      && r.len == ARP_LEN && r.buf[..ARP_LEN] == Reply(owner, b.buf)
      && SenderMac(b.buf) == asker.eth && SenderIp(b.buf) == asker.host
      && asker.host in Bindings(r.table) && Bindings(r.table)[asker.host] == asker.eth
  {
    ArpFields(b.buf, EthHeader(BROADCAST_MAC, asker.eth, UIP_ETHTYPE_ARP), ETHERNET_IPV4, ARP_REQUEST,
              asker.eth, asker.host, NO_MAC, owner.host);
    UpdateRefinesMap(b.table, b.now, asker.host, asker.eth);
  }

  /** A frame whose front is the ARP packet p. */
  function Delivered(wire: Frame, p: seq<byte>): Frame
    requires |p| == ARP_LEN
  {
    Overlay(wire, 0, p)
  }

  lemma ReplyIsStored(asker: Config, owner: Config, request: Frame, a: Arp, wire: Frame)
    requires a.table != [] && Unique(a.table) && owner.host != 0 && SenderIp(request) == asker.host
    ensures
      var r := ArpIn(asker, a.(buf := Delivered(wire, Reply(owner, request)), len := ARP_LEN));
      r.len == 0 && Unique(r.table) && owner.host in Bindings(r.table) && Bindings(r.table)[owner.host] == owner.eth
  {
    ArpFields(Delivered(wire, Reply(owner, request)), EthHeader(SenderMac(request), owner.eth, UIP_ETHTYPE_ARP),
              request[14..20], ARP_REPLY, owner.eth, owner.host, SenderMac(request), SenderIp(request));
    UpdateRefinesMap(a.table, a.now, owner.host, owner.eth);
  }

  /**
    A packet for an unknown next hop becomes a request; the next hop's answer, taken in, makes the same packet
    leave for the Ethernet address of the next hop. wire1 and wire2 are what the frames hold behind the ARP packets.
   */
  lemma ResolutionRoundTrip(cfg: Config, owner: Config, a: Arp, b: Arp, wire1: Frame, wire2: Frame)
    requires a.table != [] && b.table != [] && Unique(a.table) && Unique(b.table) && cfg.host != 0 && owner.host != 0
    requires DestIp(a.buf) != BROADCAST_IP && HopFor(cfg, DestIp(a.buf)) == owner.host
    requires Index(a.table, owner.host) == |a.table|
    ensures
      var asked := ArpOut(cfg, a);
      var answered := ArpIn(owner, b.(buf := Delivered(wire1, asked.buf[..ARP_LEN]), len := asked.len));
      var resolved := ArpIn(cfg, a.(buf := Delivered(wire2, answered.buf[..ARP_LEN]), len := answered.len));
      var r := ArpOut(cfg, resolved.(buf := a.buf, len := a.len));
      && asked.len == answered.len == ARP_LEN
      && r.len == a.len + ETH_LEN && r.buf[..ETH_LEN] == EthHeader(owner.eth, cfg.eth, UIP_ETHTYPE_IP)
      && r.buf[ETH_LEN..] == a.buf[ETH_LEN..]
  {
    NextHopIsRight(cfg, DestIp(a.buf));
    var request := Delivered(wire1, Request(cfg, owner.host));
    assert ArpOut(cfg, a).buf[..ARP_LEN] == Request(cfg, owner.host);
    RequestIsAnswered(cfg, owner, b.(buf := request, len := ARP_LEN));
    ReplyIsStored(cfg, owner, request, a, wire2);
    UsedMeansIndex(ArpIn(cfg, a.(buf := Delivered(wire2, Reply(owner, request)), len := ARP_LEN)).table, owner.host);
  }
}
