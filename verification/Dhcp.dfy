/** The messages of dhcpc.cpp: option builders, parse_options and parse_msg. */
module Dhcp {
  import opened Bytes
  import opened Packet

  const DHCP_REQUEST: byte := 1
  const DHCP_REPLY: byte := 2
  const DHCPDISCOVER: byte := 1
  const DHCPOFFER: byte := 2
  const DHCPREQUEST: byte := 3
  const DHCPACK: byte := 5
  const SUBNET_MASK: byte := 1
  const ROUTER: byte := 3
  const DNS_SERVER: byte := 6
  const REQ_IPADDR: byte := 50
  const LEASE_TIME: byte := 51
  const MSG_TYPE: byte := 53
  const SERVER_ID: byte := 54
  const REQ_LIST: byte := 55
  const OPTION_END: byte := 255

  /** Where the options of a message start. */
  const OPTIONS_AT: nat := 240
  const XID: seq<byte> := [0xad, 0xde, 0x12, 0x23]
  const MAGIC_COOKIE: seq<byte> := [99, 130, 83, 99]

  type Four = f: seq<byte> | |f| == 4 witness [0, 0, 0, 0]

  /** The hardware address of the client; the field in the message has 16 bytes. */
  type HwAddr = a: seq<byte> | |a| <= 16 witness []

  /** What the client remembers of the messages it has parsed. */
  datatype Lease = Lease(ipaddr: Four, serverid: Four, leaseTime: Four, netmask: Four, dnsaddr: Four, router: Four)

  // ---- parse_options ----

  function FourAt(b: seq<byte>, p: nat): Four { [At(b, p), At(b, p + 1), At(b, p + 2), At(b, p + 3)] }

  datatype Parsed = Parsed(lease: Lease, mtype: byte)

  /** The switch on one option whose data starts with the four bytes d. */
  function Take4(s: Parsed, kind: byte, d: Four): Parsed {
    if kind == SUBNET_MASK then s.(lease := s.lease.(netmask := d))
    else if kind == ROUTER then s.(lease := s.lease.(router := d))
    else if kind == DNS_SERVER then s.(lease := s.lease.(dnsaddr := d))
    else if kind == MSG_TYPE then s.(mtype := d[0])
    else if kind == SERVER_ID then s.(lease := s.lease.(serverid := d))
    else if kind == LEASE_TIME then s.(lease := s.lease.(leaseTime := d))
    else s
  }

  /** The loop over the options in b from optptr up to end; what lies behind b reads as zero. */
  function ParseFrom(b: seq<byte>, optptr: nat, end: nat, s: Parsed): Parsed
    decreases end - optptr
  {
    if optptr >= end || At(b, optptr) == OPTION_END then s
    else ParseFrom(b, optptr + At(b, optptr + 1) + 2, end, Take4(s, At(b, optptr), FourAt(b, optptr + 2)))
  }

  /** parse_options, as a loop. */
  method ParseOptions(b: seq<byte>, start: nat, len: nat, lease0: Lease) returns (lease: Lease, mtype: byte)
    ensures Parsed(lease, mtype) == ParseFrom(b, start, start + len, Parsed(lease0, 0))
  {
    lease, mtype := lease0, 0;
    var optptr: nat, end := start, start + len;
    while optptr < end
      invariant ParseFrom(b, optptr, end, Parsed(lease, mtype)) == ParseFrom(b, start, end, Parsed(lease0, 0))
      decreases end - optptr
    {
      var kind := At(b, optptr);
      match kind {
        case 1 => lease := lease.(netmask := FourAt(b, optptr + 2));
        case 3 => lease := lease.(router := FourAt(b, optptr + 2));
        case 6 => lease := lease.(dnsaddr := FourAt(b, optptr + 2));
        case 53 => mtype := At(b, optptr + 2);
        case 54 => lease := lease.(serverid := FourAt(b, optptr + 2));
        case 51 => lease := lease.(leaseTime := FourAt(b, optptr + 2));
        case 255 => return;
        case _ =>
      }
      optptr := optptr + At(b, optptr + 1) + 2;
    }
  }

  // ---- Against lists of options ----

  datatype Opt = Opt(kind: byte, data: seq<byte>)

  /** No pad and no end option; addresses and times have their four bytes, a message type its one. */
  predicate WellFormed(o: Opt) {
    && o.kind != 0 && o.kind != OPTION_END && |o.data| < 0x100
    && (o.kind in {SUBNET_MASK, ROUTER, DNS_SERVER, SERVER_ID, LEASE_TIME} ==> |o.data| >= 4)
    && (o.kind == MSG_TYPE ==> |o.data| >= 1)
  }

  predicate AllWellFormed(os: seq<Opt>) {
    forall i :: 0 <= i < |os| ==> WellFormed(os[i])
  }

  function OptBytes(os: seq<Opt>): seq<byte>
    requires AllWellFormed(os)
  {
    if os == [] then [] else [os[0].kind, |os[0].data|] + os[0].data + OptBytes(os[1..])
  }

  /** The data of the last option of a kind. */
  function Last(os: seq<Opt>, kind: byte): Option<seq<byte>> {
    if os == [] then None
    else if os[|os| - 1].kind == kind then Some(os[|os| - 1].data)
    else Last(os[..|os| - 1], kind)
  }

  function FirstFour(o: Option<seq<byte>>, old4: Four): Four {
    if o.Some? && |o.value| >= 4 then o.value[..4] else old4
  }

  /** Every field from the last option that sets it. */
  function LastWins(s: Parsed, os: seq<Opt>): Parsed {
    var l := s.lease;
    Parsed(l.(serverid := FirstFour(Last(os, SERVER_ID), l.serverid), leaseTime := FirstFour(Last(os, LEASE_TIME), l.leaseTime),
              netmask := FirstFour(Last(os, SUBNET_MASK), l.netmask), dnsaddr := FirstFour(Last(os, DNS_SERVER), l.dnsaddr),
              router := FirstFour(Last(os, ROUTER), l.router)),
           match Last(os, MSG_TYPE) case Some(d) => (if d != [] then d[0] else s.mtype) case None => s.mtype)
  }

  /** The fold the loop performs, one option at a time from the front. */
  function Fold(s: Parsed, os: seq<Opt>): Parsed
    requires AllWellFormed(os)
    decreases |os|
  {
    if os == [] then s else Fold(TakeOption(s, os[0]), os[1..])
  }

  function TakeOption(s: Parsed, o: Opt): Parsed {
    if |o.data| >= 4 then Take4(s, o.kind, o.data[..4])
    else if o.kind == MSG_TYPE && |o.data| >= 1 then s.(mtype := o.data[0])
    else s
  }

  lemma HasOption(b: seq<byte>, p: nat, o: Opt, rest: seq<byte>)
    requires |o.data| < 0x100 && Has(b, p, [o.kind, |o.data|] + o.data + rest)
    ensures At(b, p) == o.kind && At(b, p + 1) == |o.data| && Has(b, p + 2, o.data) && Has(b, p + 2 + |o.data|, rest)
  {
    assert [o.kind, |o.data|] + o.data + rest == [o.kind, |o.data|] + (o.data + rest);
    HasParts(b, p, [o.kind, |o.data|], o.data + rest);
    HasParts(b, p + 2, o.data, rest);
    assert b[p] == b[p..p + 2][0] && b[p + 1] == b[p..p + 2][1];
  }

  /** One turn of the loop on a well-formed option. */
  lemma OptionIsTaken(b: seq<byte>, p: nat, o: Opt, s: Parsed)
    requires WellFormed(o) && At(b, p) == o.kind && Has(b, p + 2, o.data)
    ensures Take4(s, o.kind, FourAt(b, p + 2)) == TakeOption(s, o)
  {
    var d := b[p + 2..p + 2 + |o.data|];
    assert d == o.data;
    if |o.data| >= 4 { assert o.data[..4] == [b[p + 2], b[p + 3], b[p + 4], b[p + 5]]; }
    if |o.data| >= 1 { assert o.data[0] == b[p + 2]; }
  }

  lemma OneTurn(b: seq<byte>, p: nat, end: nat, o: Opt, rest: seq<byte>, s: Parsed)
    requires WellFormed(o) && Has(b, p, [o.kind, |o.data|] + o.data + rest) && p < end
    ensures Has(b, p + 2 + |o.data|, rest)
    ensures ParseFrom(b, p, end, s) == ParseFrom(b, p + 2 + |o.data|, end, TakeOption(s, o))
  {
    HasOption(b, p, o, rest);
    OptionIsTaken(b, p, o, s);
  }

  /** An encoded list starts with its first option, or with the end option. */
  lemma ListStarts(b: seq<byte>, p: nat, os: seq<Opt>)
    requires AllWellFormed(os) && Has(b, p, OptBytes(os) + [OPTION_END])
    ensures os == [] ==> p < |b| && b[p] == OPTION_END
    ensures os != [] ==>
      var o, rest := os[0], OptBytes(os[1..]);
      Has(b, p, [o.kind, |o.data|] + o.data + (rest + [OPTION_END])) && |OptBytes(os)| == 2 + |o.data| + |rest|
  {
    if os == [] {
      assert OptBytes(os) + [OPTION_END] == [OPTION_END];
      assert b[p] == b[p..p + 1][0];
    } else {
      Associate([os[0].kind, |os[0].data|] + os[0].data, OptBytes(os[1..]), [OPTION_END]);
    }
  }

  lemma {:induction false} LoopIsFold(b: seq<byte>, p: nat, end: nat, os: seq<Opt>, s: Parsed)
    requires AllWellFormed(os) && Has(b, p, OptBytes(os) + [OPTION_END]) && p + |OptBytes(os)| < end
    ensures ParseFrom(b, p, end, s) == Fold(s, os)
    decreases |os|
  {
    ListStarts(b, p, os);
    if os != [] {
      var o, rest := os[0], os[1..];
      OneTurn(b, p, end, o, OptBytes(rest) + [OPTION_END], s);
      LoopIsFold(b, p + 2 + |o.data|, end, rest, TakeOption(s, o));
    }
  }

  lemma {:induction false} FoldSnoc(s: Parsed, os: seq<Opt>, o: Opt)
    requires AllWellFormed(os) && WellFormed(o)
    ensures AllWellFormed(os + [o]) && Fold(s, os + [o]) == TakeOption(Fold(s, os), o)
    decreases |os|
  {
    if os == [] {
      assert os + [o] == [o];
      assert Fold(s, [o]) == Fold(TakeOption(s, o), []);
    } else {
      assert (os + [o])[1..] == os[1..] + [o];
      FoldSnoc(TakeOption(s, os[0]), os[1..], o);
    }
  }

  lemma {:induction false} FoldIsLastWins(s: Parsed, os: seq<Opt>)
    requires AllWellFormed(os)
    ensures Fold(s, os) == LastWins(s, os)
    decreases |os|
  {
    if os != [] {
      var n := |os| - 1;
      FoldIsLastWins(s, os[..n]);
      FoldSnoc(s, os[..n], os[n]);
      assert os == os[..n] + [os[n]];
    }
  }

  /** On every pad-free list of options closed by an end option, the last option of each kind wins. */
  lemma ParseIsLastWins(b: seq<byte>, p: nat, len: nat, os: seq<Opt>, s: Parsed)
    requires AllWellFormed(os) && Has(b, p, OptBytes(os) + [OPTION_END]) && |OptBytes(os)| < len
    ensures ParseFrom(b, p, p + len, s) == LastWins(s, os)
  {
    LoopIsFold(b, p, p + len, os, s);
    FoldIsLastWins(s, os);
  }

  /** A pad byte is taken for an option whose length is the kind of the option behind it. */
  lemma PadIsTakenForOption(b: seq<byte>, p: nat, end: nat, s: Parsed)
    requires p < end && At(b, p) == 0
    ensures ParseFrom(b, p, end, s) == ParseFrom(b, p + 2 + At(b, p + 1), end, s)
  {
  }

  lemma PadAndList(b: seq<byte>, p: nat, os: seq<Opt>)
    requires AllWellFormed(os) && os != [] && Has(b, p, [0] + (OptBytes(os) + [OPTION_END]))
    ensures At(b, p) == 0 && At(b, p + 1) == os[0].kind && Has(b, p + 1, OptBytes(os) + [OPTION_END])
  {
    HasParts(b, p, [0], OptBytes(os) + [OPTION_END]);
    assert b[p] == b[p..p + 1][0];
    ListStarts(b, p + 1, os);
    HasOption(b, p + 1, os[0], OptBytes(os[1..]) + [OPTION_END]);
  }

  /** So it hides all options behind it if they are no longer than the kind of the first of them. */
  lemma PadHidesOptions(b: seq<byte>, p: nat, os: seq<Opt>, s: Parsed)
    requires AllWellFormed(os) && os != [] && Has(b, p, [0] + (OptBytes(os) + [OPTION_END])) && |OptBytes(os)| <= os[0].kind
    ensures
      var end := p + |OptBytes(os)| + 2;
      ParseFrom(b, p, end, s) == s && ParseFrom(b, p + 1, end, s) == LastWins(s, os)
  {
    PadAndList(b, p, os);
    PadIsTakenForOption(b, p, p + |OptBytes(os)| + 2, s);
    ParseIsLastWins(b, p + 1, |OptBytes(os)| + 1, os, s);
  }

  /** An instance: the type of an offer. */
  lemma PadHidesMessageType(s: Parsed)
    ensures
      var b := [0, MSG_TYPE, 1, DHCPOFFER, OPTION_END];
      ParseFrom(b, 0, 5, s) == s && ParseFrom(b, 1, 5, s) == s.(mtype := DHCPOFFER)
  {
  }

  // ---- Reading on behind the message ----

  /** How many bytes of data the switch uses. */
  function Needed(kind: byte): nat {
    if kind == MSG_TYPE then 1
    else if kind == SUBNET_MASK || kind == ROUTER || kind == DNS_SERVER || kind == SERVER_ID || kind == LEASE_TIME then 4
    else 0
  }

  /** From p on, the walk meets an end option, or its own end, before it needs a byte behind the message m. */
  predicate StaysInside(m: seq<byte>, p: nat, end: nat)
    decreases |m| - p
  {
    p >= end
    || (p < |m|
        && (m[p] == OPTION_END
            || (p + 1 < |m| && p + 2 + Needed(m[p]) <= |m| && StaysInside(m, p + 2 + m[p + 1], end))))
  }

  lemma {:induction false} InsideIsEnough(m: seq<byte>, t1: seq<byte>, t2: seq<byte>, p: nat, end: nat, s: Parsed)
    requires StaysInside(m, p, end)
    ensures ParseFrom(m + t1, p, end, s) == ParseFrom(m + t2, p, end, s)
    decreases |m| - p
  {
    if p < end && m[p] != OPTION_END {
      var s1 := Take4(s, m[p], FourAt(m + t1, p + 2));
      assert s1 == Take4(s, m[p], FourAt(m + t2, p + 2));
      InsideIsEnough(m, t1, t2, p + 2 + m[p + 1], end, s1);
    }
  }

  function Zeros(n: nat): (z: seq<byte>)
    ensures |z| == n && forall i :: 0 <= i < n ==> z[i] == 0
  {
    seq(n, _ => 0)
  }

  /** Bytes behind m that make the result depend on x, for a walk at p that does not stay inside. */
  function Behind(m: seq<byte>, p: nat, x: byte): seq<byte>
    decreases |m| - p
  {
    if p >= |m| then Zeros(p - |m|) + [MSG_TYPE, 1, x, OPTION_END]
    else if p + 1 >= |m| then [4, 0, 0, 0, 0, MSG_TYPE, 1, x, OPTION_END]
    else
      var next := p + 2 + m[p + 1];
      if p + 2 + Needed(m[p]) <= |m| then Behind(m, next, x)
      else if next >= |m| + OPTIONS_AT || StaysInside(m, next, |m| + OPTIONS_AT) then [x, x, x, x]
      else Behind(m, next, x)
  }

  lemma PlantedType(b: seq<byte>, p: nat, end: nat, x: byte, s: Parsed)
    requires p < end && At(b, p) == MSG_TYPE && At(b, p + 1) == 1 && At(b, p + 2) == x && At(b, p + 3) == OPTION_END
    ensures ParseFrom(b, p, end, s) == s.(mtype := x)
  {
    assert ParseFrom(b, p + 3, end, s.(mtype := x)) == s.(mtype := x);
  }

  /** The rest of a message too short for another address leaves the lease alone. */
  lemma {:induction false} ShortRest(m: seq<byte>, t: seq<byte>, p: nat, end: nat, s: Parsed)
    requires StaysInside(m, p, end) && |m| <= p + 5
    ensures ParseFrom(m + t, p, end, s).lease == s.lease
    decreases |m| - p
  {
    if p < end && m[p] != OPTION_END {
      ShortRest(m, t, p + 2 + m[p + 1], end, Take4(s, m[p], FourAt(m + t, p + 2)));
    }
  }

  /** The data of a cut option, filled up with x, shows in the result whatever comes after it. */
  predicate Shows(kind: byte, x: byte, r: Parsed) {
    match kind
    case 1 => r.lease.netmask[3] == x
    case 3 => r.lease.router[3] == x
    case 6 => r.lease.dnsaddr[3] == x
    case 51 => r.lease.leaseTime[3] == x
    case 54 => r.lease.serverid[3] == x
    case 53 => r.mtype == x
    case _ => false
  }

  lemma CutShows(m: seq<byte>, p: nat, x: byte, s: Parsed)
    requires p + 1 < |m| && m[p] != OPTION_END && p + 2 + Needed(m[p]) > |m|
    requires
      var next := p + 2 + m[p + 1];
      next >= |m| + OPTIONS_AT || StaysInside(m, next, |m| + OPTIONS_AT)
    ensures Shows(m[p], x, ParseFrom(m + [x, x, x, x], p, |m| + OPTIONS_AT, s))
  {
    var b, end, next := m + [x, x, x, x], |m| + OPTIONS_AT, p + 2 + m[p + 1];
    var s1 := Take4(s, m[p], FourAt(b, p + 2));
    assert Shows(m[p], x, s1);
    assert ParseFrom(b, p, end, s) == ParseFrom(b, next, end, s1);
    if next < end {
      assert next < |m|;
      ShortRest(m, [x, x, x, x], next, end, s1);
    }
  }

  /** One turn of the loop. */
  lemma NextTurn(b: seq<byte>, p: nat, end: nat, s: Parsed)
    requires p + 1 < |b| && p < end && b[p] != OPTION_END
    ensures ParseFrom(b, p, end, s) == ParseFrom(b, p + 2 + b[p + 1], end, Take4(s, b[p], FourAt(b, p + 2)))
  {
  }

  /** A walk that has come to the end of the message finds the planted type. */
  lemma TypeShows(m: seq<byte>, p: nat, x: byte, s: Parsed)
    requires p + 1 >= |m| && !StaysInside(m, p, |m| + OPTIONS_AT)
    ensures ParseFrom(m + Behind(m, p, x), p, |m| + OPTIONS_AT, s).mtype == x
  {
    var b, end := m + Behind(m, p, x), |m| + OPTIONS_AT;
    if p >= |m| {
      PlantedType(b, p, end, x, s);
    } else {
      NextTurn(b, p, end, s);
      PlantedType(b, p + 6, end, x, Take4(s, b[p], FourAt(b, p + 2)));
    }
  }

  /** An option that fits, or that another one follows, leaves the matter to the rest. */
  lemma NextParsed(m: seq<byte>, p: nat, x: byte, s: Parsed) returns (q: Parsed)
    requires p + 1 < |m| && !StaysInside(m, p, |m| + OPTIONS_AT)
    requires
      var next := p + 2 + m[p + 1];
      p + 2 + Needed(m[p]) <= |m| || (next < |m| + OPTIONS_AT && !StaysInside(m, next, |m| + OPTIONS_AT))
    ensures
      var end, next := |m| + OPTIONS_AT, p + 2 + m[p + 1];
      && !StaysInside(m, next, end)
      && ParseFrom(m + Behind(m, p, x), p, end, s) == ParseFrom(m + Behind(m, next, x), next, end, q)
  {
    var b := m + Behind(m, p, x);
    q := Take4(s, m[p], FourAt(b, p + 2));
    NextTurn(b, p, |m| + OPTIONS_AT, s);
  }

  lemma {:induction false} BehindMatters(m: seq<byte>, p: nat, s1: Parsed, s2: Parsed)
    requires !StaysInside(m, p, |m| + OPTIONS_AT)
    ensures ParseFrom(m + Behind(m, p, 1), p, |m| + OPTIONS_AT, s1) != ParseFrom(m + Behind(m, p, 2), p, |m| + OPTIONS_AT, s2)
    decreases |m| - p
  {
    var end := |m| + OPTIONS_AT;
    if p + 1 >= |m| {
      TypeShows(m, p, 1, s1);
      TypeShows(m, p, 2, s2);
    } else {
      var next := p + 2 + m[p + 1];
      if p + 2 + Needed(m[p]) > |m| && (next >= end || StaysInside(m, next, end)) {
        CutShows(m, p, 1, s1);
        CutShows(m, p, 2, s2);
      } else {
        var q1 := NextParsed(m, p, 1, s1);
        var q2 := NextParsed(m, p, 2, s2);
        BehindMatters(m, next, q1, q2);
      }
    }
  }

  /**
    parse_msg passes the length of the whole message for that of its options. The bytes that happen to lie behind
    the message cannot matter if and only if the walk meets an end option before it needs one of them.
   */
  lemma ReadsBehindExactly(m: seq<byte>, s: Parsed)
    ensures
      StaysInside(m, OPTIONS_AT, OPTIONS_AT + |m|)
      <==> forall t1: seq<byte>, t2: seq<byte> ::
             ParseFrom(m + t1, OPTIONS_AT, OPTIONS_AT + |m|, s) == ParseFrom(m + t2, OPTIONS_AT, OPTIONS_AT + |m|, s)
  {
    if StaysInside(m, OPTIONS_AT, OPTIONS_AT + |m|) {
      forall t1: seq<byte>, t2: seq<byte>
        ensures ParseFrom(m + t1, OPTIONS_AT, OPTIONS_AT + |m|, s) == ParseFrom(m + t2, OPTIONS_AT, OPTIONS_AT + |m|, s)
      {
        InsideIsEnough(m, t1, t2, OPTIONS_AT, OPTIONS_AT + |m|, s);
      }
    } else {
      BehindMatters(m, OPTIONS_AT, s, s);
    }
  }

  /** Every pad-free list closed by an end option stays inside. */
  lemma {:induction false} ListStaysInside(m: seq<byte>, p: nat, end: nat, os: seq<Opt>)
    requires AllWellFormed(os) && Has(m, p, OptBytes(os) + [OPTION_END])
    ensures StaysInside(m, p, end)
    decreases |os|
  {
    ListStarts(m, p, os);
    if os != [] {
      var o, rest := os[0], os[1..];
      HasOption(m, p, o, OptBytes(rest) + [OPTION_END]);
      ListStaysInside(m, p + 2 + |o.data|, end, rest);
    }
  }

  // ---- parse_msg ----

  /** The tests parse_msg makes before it stores anything. */
  predicate ForUs(b: seq<byte>, mac: HwAddr) {
    && At(b, 0) == DHCP_REPLY && FourAt(b, 4) == XID
    && forall i :: 0 <= i < |mac| ==> At(b, 28 + i) == mac[i]
  }

  /** parse_msg on the buffer b with uip_datalen() bytes received; the type is 0 for messages of others. */
  function ParseMsg(b: seq<byte>, datalen: nat, mac: HwAddr, lease: Lease): Parsed {
    if ForUs(b, mac)
    then ParseFrom(b, OPTIONS_AT, OPTIONS_AT + datalen, Parsed(lease.(ipaddr := FourAt(b, 16)), 0))
    else Parsed(lease, 0)
  }

  lemma {:induction false} OptionsKeepAddress(b: seq<byte>, p: nat, end: nat, s: Parsed)
    ensures ParseFrom(b, p, end, s).lease.ipaddr == s.lease.ipaddr
    decreases end - p
  {
    if p < end && At(b, p) != OPTION_END {
      OptionsKeepAddress(b, p + At(b, p + 1) + 2, end, Take4(s, At(b, p), FourAt(b, p + 2)));
    }
  }

  /** A message of any known type is a reply to this client, and its yiaddr has become the address. */
  lemma TypedMessageIsForUs(b: seq<byte>, datalen: nat, mac: HwAddr, lease: Lease)
    requires ParseMsg(b, datalen, mac, lease).mtype != 0
    ensures ForUs(b, mac) && ParseMsg(b, datalen, mac, lease).lease.ipaddr == FourAt(b, 16)
  {
    OptionsKeepAddress(b, OPTIONS_AT, OPTIONS_AT + datalen, Parsed(lease.(ipaddr := FourAt(b, 16)), 0));
  }

  /** By the bytes of the message: a reply, the transaction of this client, and its hardware address. */
  lemma ForUsExactly(b: seq<byte>, mac: HwAddr)
    requires |b| >= 28 + |mac|
    ensures ForUs(b, mac) <==> b[0] == 2 && b[4..8] == [0xad, 0xde, 0x12, 0x23] && b[28..28 + |mac|] == mac
  {
    assert b[4..8] == FourAt(b, 4);
    if b[28..28 + |mac|] == mac {
      forall i | 0 <= i < |mac| ensures At(b, 28 + i) == mac[i] { assert b[28..28 + |mac|][i] == b[28 + i]; }
    }
  }

  /** Messages for others change nothing; what is for this client gives it yiaddr and the last option of each kind. */
  lemma OnlyOursAreParsed(b: seq<byte>, datalen: nat, mac: HwAddr, lease: Lease, os: seq<Opt>)
    requires AllWellFormed(os) && Has(b, OPTIONS_AT, OptBytes(os) + [OPTION_END]) && |OptBytes(os)| < datalen
    ensures ParseMsg(b, datalen, mac, lease) ==
              if ForUs(b, mac) then LastWins(Parsed(lease.(ipaddr := b[16..20]), 0), os) else Parsed(lease, 0)
  {
    assert FourAt(b, 16) == b[16..20];
    ParseIsLastWins(b, OPTIONS_AT, datalen, os, Parsed(lease.(ipaddr := FourAt(b, 16)), 0));
  }

  // ---- The messages sent ----

  /** create_msg: all of a message up to the options. */
  function Head(mac: HwAddr, ciaddr: Four): (h: seq<byte>)
    ensures |h| == OPTIONS_AT
  {
    HeadFront(mac, ciaddr) + mac + Zeros(16 - |mac|) + Zeros(192) + MAGIC_COOKIE
  }

  /** The fields in front of the hardware address. */
  function HeadFront(mac: HwAddr, ciaddr: Four): (h: seq<byte>)
    ensures |h| == 28
  {
    [DHCP_REQUEST, 1, |mac|, 0] + XID + [0, 0, 0x80, 0] + ciaddr + Zeros(12)
  }

  function DiscoverOptions(): seq<Opt> {
    [Opt(MSG_TYPE, [DHCPDISCOVER]), Opt(REQ_LIST, [SUBNET_MASK, ROUTER, DNS_SERVER])]
  }

  function RequestOptions(lease: Lease): seq<Opt> {
    [Opt(MSG_TYPE, [DHCPREQUEST]), Opt(SERVER_ID, lease.serverid), Opt(REQ_IPADDR, lease.ipaddr)]
  }

  function Discover(mac: HwAddr, ciaddr: Four): seq<byte> {
    Head(mac, ciaddr) + OptBytes(DiscoverOptions()) + [OPTION_END]
  }

  function Request(mac: HwAddr, ciaddr: Four, lease: Lease): seq<byte> {
    Head(mac, ciaddr) + OptBytes(RequestOptions(lease)) + [OPTION_END]
  }

  lemma BuiltOptions(lease: Lease)
    ensures OptBytes(DiscoverOptions()) == [MSG_TYPE, 1, DHCPDISCOVER] + [REQ_LIST, 3, SUBNET_MASK, ROUTER, DNS_SERVER]
    ensures OptBytes(RequestOptions(lease))
         == [MSG_TYPE, 1, DHCPREQUEST] + ([SERVER_ID, 4] + lease.serverid) + ([REQ_IPADDR, 4] + lease.ipaddr)
  {
    var d, r := DiscoverOptions(), RequestOptions(lease);
    assert OptBytes(d[1..][1..]) == [] && OptBytes(r[1..][1..][1..]) == [];
    assert OptBytes(d[1..]) == [REQ_LIST, 3] + d[1].data + [];
    assert OptBytes(r[1..][1..]) == [REQ_IPADDR, 4] + lease.ipaddr + [];
    assert OptBytes(r[1..]) == [SERVER_ID, 4] + lease.serverid + OptBytes(r[1..][1..]);
  }

  lemma HeadFrontBytes(mac: HwAddr, ciaddr: Four)
    ensures
      var h := HeadFront(mac, ciaddr);
      && h[..4] == [1, 1, |mac|, 0] && h[4..8] == [0xad, 0xde, 0x12, 0x23] && h[8..12] == [0, 0, 0x80, 0]
      && h[12..16] == ciaddr && (forall i :: 16 <= i < 28 ==> h[i] == 0)
  {
  }

  /** The fixed part of a message, by the layout of section 2 of RFC 2131: BOOTREQUEST, Ethernet, broadcast flag, cookie. */
  lemma HeadOnTheWire(mac: HwAddr, ciaddr: Four)
    ensures
      var h := Head(mac, ciaddr);
      && h[..4] == [1, 1, |mac|, 0] && h[4..8] == [0xad, 0xde, 0x12, 0x23] && h[8..12] == [0, 0, 0x80, 0]
      && h[12..16] == ciaddr && (forall i :: 16 <= i < 28 ==> h[i] == 0)
      && h[28..28 + |mac|] == mac && (forall i :: 28 + |mac| <= i < 236 ==> h[i] == 0)
      && h[236..240] == [99, 130, 83, 99]
  {
    var f := HeadFront(mac, ciaddr);
    HeadFrontBytes(mac, ciaddr);
    HeadParts(f, mac, Zeros(16 - |mac|), Zeros(192), MAGIC_COOKIE);
    var h := Head(mac, ciaddr);
    assert h[..4] == f[..4] && h[4..8] == f[4..8] && h[8..12] == f[8..12] && h[12..16] == f[12..16];
  }

  lemma HeadParts(f: seq<byte>, mac: HwAddr, pad: seq<byte>, names: seq<byte>, cookie: seq<byte>)
    requires |f| == 28 && |pad| == 16 - |mac| && |names| == 192 && |cookie| == 4
    requires (forall i :: 0 <= i < |pad| ==> pad[i] == 0) && forall i :: 0 <= i < 192 ==> names[i] == 0
    ensures
      var h := f + mac + pad + names + cookie;
      && (forall i :: 0 <= i < 28 ==> h[i] == f[i]) && h[28..28 + |mac|] == mac
      && (forall i :: 28 + |mac| <= i < 236 ==> h[i] == 0) && h[236..240] == cookie
  {
  }

  /** A discover asks for netmask, router and name server; a request names the server and the address it accepts. */
  lemma MessagesOnTheWire(mac: HwAddr, ciaddr: Four, lease: Lease)
    ensures
      var d, r := Discover(mac, ciaddr), Request(mac, ciaddr, lease);
      && d[..240] == r[..240] == Head(mac, ciaddr)
      && d[240..] == [53, 1, 1] + [55, 3, 1, 3, 6] + [255]
      && r[240..] == [53, 1, 3] + [54, 4] + lease.serverid + [50, 4] + lease.ipaddr + [255]
  {
    var d, r := Discover(mac, ciaddr), Request(mac, ciaddr, lease);
    BuiltOptions(lease);
    assert d[..240] == Head(mac, ciaddr) && r[..240] == Head(mac, ciaddr);
    assert d[240..] == OptBytes(DiscoverOptions()) + [OPTION_END];
    assert r[240..] == OptBytes(RequestOptions(lease)) + [OPTION_END];
  }

  /** A reply that copies transaction and hardware address from either message is for this client. */
  lemma EchoIsForUs(mac: HwAddr, ciaddr: Four, b: seq<byte>)
    requires |b| >= 28 + |mac| && b[0] == 2 && b[4..8] == Head(mac, ciaddr)[4..8]
    requires b[28..28 + |mac|] == Head(mac, ciaddr)[28..28 + |mac|]
    ensures ForUs(b, mac)
  {
    HeadOnTheWire(mac, ciaddr);
    ForUsExactly(b, mac);
  }

  /** A request, read back, is of type DHCPREQUEST and names the server it accepts. */
  lemma RequestReadsBack(mac: HwAddr, ciaddr: Four, lease: Lease, s: Parsed)
    ensures
      var m := Request(mac, ciaddr, lease);
      && |m| == OPTIONS_AT + 16
      && ParseFrom(m, OPTIONS_AT, |m|, s) == Parsed(s.lease.(serverid := lease.serverid), DHCPREQUEST)
      && m[OPTIONS_AT + 9..OPTIONS_AT + 15] == [REQ_IPADDR, 4] + lease.ipaddr
  {
    var m, os := Request(mac, ciaddr, lease), RequestOptions(lease);
    BuiltOptions(lease);
    assert m[OPTIONS_AT..OPTIONS_AT + 16] == OptBytes(os) + [OPTION_END];
    ParseIsLastWins(m, OPTIONS_AT, 16, os, s);
    RequestedLast(lease);
    assert lease.serverid[..4] == lease.serverid;
  }

  lemma RequestedLast(lease: Lease)
    ensures
      var os := RequestOptions(lease);
      && Last(os, MSG_TYPE) == Some([DHCPREQUEST]) && Last(os, SERVER_ID) == Some(lease.serverid)
      && Last(os, LEASE_TIME) == None && Last(os, SUBNET_MASK) == None && Last(os, DNS_SERVER) == None && Last(os, ROUTER) == None
  {
    var s, i := lease.serverid, lease.ipaddr;
    forall kind ensures Last(RequestOptions(lease), kind)
                     == LastOfThree(Opt(MSG_TYPE, [DHCPREQUEST]), Opt(SERVER_ID, s), Opt(REQ_IPADDR, i), kind) {
      ThreeOptions(Opt(MSG_TYPE, [DHCPREQUEST]), Opt(SERVER_ID, s), Opt(REQ_IPADDR, i), kind);
    }
  }

  function LastOfThree(x: Opt, y: Opt, z: Opt, kind: byte): Option<seq<byte>> {
    if z.kind == kind then Some(z.data) else if y.kind == kind then Some(y.data)
    else if x.kind == kind then Some(x.data) else None
  }

  lemma ThreeOptions(x: Opt, y: Opt, z: Opt, kind: byte)
    ensures Last([x, y, z], kind) == LastOfThree(x, y, z, kind)
  {
    assert [x, y, z][..2] == [x, y] && [x, y][..1] == [x] && [x][..0] == [];
    assert Last([x], kind) == if x.kind == kind then Some(x.data) else Last([], kind);
    assert Last([x, y], kind) == if y.kind == kind then Some(y.data) else Last([x], kind);
  }
}
