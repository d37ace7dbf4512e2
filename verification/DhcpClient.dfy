/** The protothread of dhcpc.cpp: discover, request, configure. */
module DhcpClient {
  import opened Bytes
  import opened Packet
  import opened Dhcp
  import Timers

  const CLOCK_SECOND: u16 := 1000

  /** Where the protothread resumes. */
  datatype Point = Start | WaitOffer | WaitAck | Bound

  datatype Phase = INITIAL | SENDING | OFFER_RECEIVED | CONFIG_RECEIVED

  datatype Client = Client(point: Point, state: Phase, ticks: u16, start: u32, interval: u32, lease: Lease)

  /** One call of dhcpc_appcall: the clock, UIP_NEWDATA, and what lies in uip_buf from uip_appdata on. */
  datatype Call = Call(now: u32, newdata: bool, b: seq<byte>, datalen: nat)

  datatype Sent = Nothing | Discovered | Requested

  datatype Outcome = Outcome(c: Client, sent: Sent, configured: bool)

  /** send_discover or send_request, and the timer until the next one. */
  function SendAndWait(c: Client, now: u32, sent: Sent): Outcome {
    Outcome(c.(point := if sent == Discovered then WaitOffer else WaitAck, start := now, interval := c.ticks), sent, false)
  }

  /** The condition of PT_WAIT_UNTIL. */
  predicate Woken(c: Client, e: Call) { e.newdata || Timers.Expired(e.now, c.start, c.interval) }

  function Heard(mac: HwAddr, c: Client, e: Call): Parsed {
    if e.newdata then ParseMsg(e.b, e.datalen, mac, c.lease) else Parsed(c.lease, 0)
  }

  /** handle_dhcp from a resume point to the next message or the next return. */
  function Decide(mac: HwAddr, c: Client, e: Call): Outcome {
    var heard := Heard(mac, c, e);
    match c.point
    case Start => Outcome(c.(state := SENDING, ticks := CLOCK_SECOND), Discovered, false)
    case WaitOffer =>
      if !Woken(c, e) then Outcome(c, Nothing, false)
      else if heard.mtype == DHCPOFFER then
        Outcome(c.(lease := heard.lease, state := OFFER_RECEIVED, ticks := CLOCK_SECOND), Requested, false)
      else
        Outcome(c.(lease := heard.lease, ticks := if c.ticks < 20 * CLOCK_SECOND then Wrap16(2 * c.ticks) else c.ticks),
                Discovered, false)
    case WaitAck =>
      if !Woken(c, e) then Outcome(c, Nothing, false)
      else if heard.mtype == DHCPACK then
        Outcome(c.(lease := heard.lease, state := CONFIG_RECEIVED, point := Bound), Nothing, true)
      else if c.ticks <= 10 * CLOCK_SECOND then
        Outcome(c.(lease := heard.lease, ticks := c.ticks + CLOCK_SECOND), Requested, false)
      else Outcome(c.(lease := heard.lease, point := Start), Nothing, false)
    case Bound => Outcome(c, Nothing, false)
  }

  /** handle_dhcp from one resume point to the next. */
  function Step(mac: HwAddr, c: Client, e: Call): Outcome {
    var d := Decide(mac, c, e);
    if d.sent == Nothing then d else SendAndWait(d.c, e.now, d.sent)
  }

  // ---- The code ----

  class Dhcpc {
    const mac: seq<byte>
    const uip_appdata: array<byte>
    const timer: Timers.Timer
    var lc: Point
    var state: Phase
    var ticks: u16
    var serverid: Four
    var leaseTime: Four
    var ipaddr: Four
    var netmask: Four
    var dnsaddr: Four
    var router: Four

    /** dhcpc_init, for a UDP connection that could be had. */
    constructor (mac: HwAddr, bufsize: nat)
      requires bufsize >= OPTIONS_AT + 16
      ensures Ready() && fresh(uip_appdata) && fresh(timer) && this.mac == mac && lc == Start && state == INITIAL
    {
      this.mac := mac;
      uip_appdata := new byte[bufsize](_ => 0);
      timer := new Timers.Timer();
      lc, state, ticks := Start, INITIAL, 0;
      serverid, leaseTime, ipaddr, netmask, dnsaddr, router
        := [0, 0, 0, 0], [0, 0, 0, 0], [0, 0, 0, 0], [0, 0, 0, 0], [0, 0, 0, 0], [0, 0, 0, 0];
    }

    ghost predicate Ready() {
      |mac| <= 16 && uip_appdata.Length >= OPTIONS_AT + 16
    }

    function GetLease(): Lease
      reads this
    {
      Lease(ipaddr, serverid, leaseTime, netmask, dnsaddr, router)
    }

    ghost function Value(): Client
      reads this, timer
    {
      Client(lc, state, ticks, timer.start, timer.interval, GetLease())
    }

    method SetLease(l: Lease)
      modifies this`ipaddr, this`serverid, this`leaseTime, this`netmask, this`dnsaddr, this`router
      ensures GetLease() == l
    {
      ipaddr, serverid, leaseTime, netmask, dnsaddr, router
        := l.ipaddr, l.serverid, l.leaseTime, l.netmask, l.dnsaddr, l.router;
    }

    /** parse_msg: the address and the options go into the state while they are read. */
    method ParseMessage(datalen: nat) returns (mtype: byte)
      requires Ready()
      modifies this`ipaddr, this`serverid, this`leaseTime, this`netmask, this`dnsaddr, this`router
      ensures Parsed(GetLease(), mtype) == ParseMsg(uip_appdata[..], datalen, mac, old(GetLease()))
    {
      var b := uip_appdata[..];
      if At(b, 0) == DHCP_REPLY && FourAt(b, 4) == XID {
        var same := true;
        for i := 0 to |mac|
          invariant same <==> forall k :: 0 <= k < i ==> At(b, 28 + k) == mac[k]
        {
          if At(b, 28 + i) != mac[i] { same := false; }
        }
        if same {
          ipaddr := FourAt(b, 16);
          var lease;
          lease, mtype := ParseOptions(b, OPTIONS_AT, datalen, GetLease());
          SetLease(lease);
          return;
        }
      }
      return 0;
    }

    method Write(at: nat, bytes: seq<byte>) returns (next: nat)
      requires at + |bytes| <= uip_appdata.Length
      modifies uip_appdata
      ensures next == at + |bytes| && uip_appdata[..next] == old(uip_appdata[..at]) + bytes
    {
      forall i | 0 <= i < |bytes| {
        uip_appdata[at + i] := bytes[i];
      }
      next := at + |bytes|;
    }

    /** create_msg, field by field from the front. */
    method CreateMsg(hostaddr: Four) returns (options: nat)
      requires Ready()
      modifies uip_appdata
      ensures options == OPTIONS_AT && uip_appdata[..options] == Head(mac, hostaddr)
    {
      var p := CreateFront(hostaddr);
      p := Write(p, mac);
      p := Write(p, Zeros(16 - |mac|));
      p := Write(p, Zeros(192));
      options := Write(p, MAGIC_COOKIE);
    }

    method CreateFront(hostaddr: Four) returns (p: nat)
      requires Ready()
      modifies uip_appdata
      ensures p == 28 && uip_appdata[..p] == HeadFront(mac, hostaddr)
    {
      p := Write(0, [DHCP_REQUEST, 1, |mac|, 0]);
      assert uip_appdata[..p] == [DHCP_REQUEST, 1, |mac|, 0];
      p := Write(p, XID);
      p := Write(p, [0, 0, 0x80, 0]);
      p := Write(p, hostaddr);
      p := Write(p, Zeros(12));
    }

    method SendDiscover(hostaddr: Four) returns (len: nat)
      requires Ready()
      modifies uip_appdata
      ensures len <= uip_appdata.Length && uip_appdata[..len] == Discover(mac, hostaddr)
    {
      var end := CreateMsg(hostaddr);
      end := Write(end, [MSG_TYPE, 1, DHCPDISCOVER]);
      end := Write(end, [REQ_LIST, 3, SUBNET_MASK, ROUTER, DNS_SERVER]);
      len := Write(end, [OPTION_END]);
      BuiltOptions(GetLease());
      Associate(Head(mac, hostaddr), [MSG_TYPE, 1, DHCPDISCOVER], [REQ_LIST, 3, SUBNET_MASK, ROUTER, DNS_SERVER]);
    }

    method SendRequest(hostaddr: Four) returns (len: nat)
      requires Ready()
      modifies uip_appdata
      ensures len <= uip_appdata.Length && uip_appdata[..len] == Request(mac, hostaddr, GetLease())
    {
      var end := CreateMsg(hostaddr);
      end := Write(end, [MSG_TYPE, 1, DHCPREQUEST]);
      end := Write(end, [SERVER_ID, 4] + serverid);
      end := Write(end, [REQ_IPADDR, 4] + ipaddr);
      len := Write(end, [OPTION_END]);
      BuiltOptions(GetLease());
      ghost var h, x, y, z := Head(mac, hostaddr), [MSG_TYPE, 1, DHCPREQUEST], [SERVER_ID, 4] + serverid, [REQ_IPADDR, 4] + ipaddr;
      Associate(h, x, y);
      Associate(h, x + y, z);
    }

    /** handle_dhcp up to the next send or return. */
    method Continue(now: u32, newdata: bool, datalen: nat) returns (sent: Sent, configured: bool)
      requires Ready()
      modifies this
      ensures Outcome(Value(), sent, configured) == Decide(mac, old(Value()), Call(now, newdata, old(uip_appdata[..]), datalen))
    {
      if lc == Bound { return Nothing, false; }
      if lc == Start {
        state := SENDING;
        ticks := CLOCK_SECOND;
        return Discovered, false;
      }
      var expired := timer.TimerExpired(now);
      if !(newdata || expired) { return Nothing, false; }
      var mtype: byte := 0;
      if newdata { mtype := ParseMessage(datalen); }
      if lc == WaitOffer {
        if mtype == DHCPOFFER {
          state := OFFER_RECEIVED;
          ticks := CLOCK_SECOND;
          return Requested, false;
        }
        if ticks < 20 * CLOCK_SECOND {
          ticks := Wrap16(2 * ticks);
        }
        return Discovered, false;
      }
      if mtype == DHCPACK {
        state := CONFIG_RECEIVED;
        lc := Bound;
        return Nothing, true;
      }
      if ticks <= 10 * CLOCK_SECOND {
        ticks := ticks + CLOCK_SECOND;
        return Requested, false;
      }
      lc := Start;
      return Nothing, false;
    }

    /** handle_dhcp; `len` bytes of uip_appdata are sent if it is positive. */
    method HandleDhcp(now: u32, newdata: bool, datalen: nat, hostaddr: Four) returns (len: nat, configured: bool)
      requires Ready()
      modifies this, timer, uip_appdata
      ensures Ready() && len <= uip_appdata.Length
      ensures
        var r := Step(mac, old(Value()), Call(now, newdata, old(uip_appdata[..]), datalen));
        && Value() == r.c && configured == r.configured
        && match r.sent
           case Nothing => len == 0
           case Discovered => uip_appdata[..len] == Discover(mac, hostaddr)
           case Requested => uip_appdata[..len] == Request(mac, hostaddr, r.c.lease)
    {
      len := 0;
      var sent;
      sent, configured := Continue(now, newdata, datalen);
      if sent == Nothing { return; }
      if sent == Discovered {
        len := SendDiscover(hostaddr);
        lc := WaitOffer;
      } else {
        len := SendRequest(hostaddr);
        lc := WaitAck;
      }
      timer.Set(now, ticks);
    }
  }

  // ---- Runs ----

  /** One second, doubled up to five times. */
  predicate Doubled(ticks: u16) {
    ticks == 1000 || ticks == 2000 || ticks == 4000 || ticks == 8000 || ticks == 16000 || ticks == 32000
  }

  ghost predicate Valid(c: Client) {
    match c.point
    case Start => true
    case WaitOffer => c.state == SENDING && Doubled(c.ticks)
    case WaitAck => c.state == OFFER_RECEIVED && CLOCK_SECOND <= c.ticks <= 11 * CLOCK_SECOND && c.ticks % CLOCK_SECOND == 0
    case Bound => c.state == CONFIG_RECEIVED
  }

  /** The state once dhcpc_init has been called. */
  ghost predicate Initial(c: Client) { c.point == Start && c.state == INITIAL }

  function Run(mac: HwAddr, c: Client, es: seq<Call>): Client {
    if es == [] then c else Step(mac, Run(mac, c, es[..|es| - 1]), es[|es| - 1]).c
  }

  lemma StepKeepsValid(mac: HwAddr, c: Client, e: Call)
    requires Valid(c)
    ensures
      var r := Step(mac, c, e);
      && Valid(r.c)
      && (r.sent != Nothing ==> CLOCK_SECOND <= r.c.ticks <= 32 * CLOCK_SECOND && r.c.interval == r.c.ticks && r.c.start == e.now)
      && (r.configured <==> c.point != Bound && r.c.point == Bound)
      && (c.point == Bound ==> r.c == c)
      && (r.c.state == INITIAL ==> c.state == INITIAL)
  {
  }

  /** In every run the 16-bit ticks stay between one and 32 seconds, and the state fits the resume point. */
  lemma {:induction false} RunKeepsValid(mac: HwAddr, c: Client, es: seq<Call>)
    requires Initial(c)
    ensures Valid(Run(mac, c, es))
    ensures es != [] ==> CLOCK_SECOND <= Run(mac, c, es).ticks <= 32 * CLOCK_SECOND
  {
    if es != [] {
      var n := |es| - 1;
      RunKeepsValid(mac, c, es[..n]);
      StepKeepsValid(mac, Run(mac, c, es[..n]), es[n]);
    }
  }

  // ---- What one call does ----

  /** A waiting client does nothing exactly while no data have come and its timer has not expired. */
  lemma SleepsExactly(mac: HwAddr, c: Client, e: Call)
    requires c.point in {WaitOffer, WaitAck}
    ensures Step(mac, c, e) == Outcome(c, Nothing, false) <==> !e.newdata && !Timers.Expired(e.now, c.start, c.interval)
  {
  }

  /** The first discover goes out at once, with one second to wait, and so does the first of every new round. */
  lemma StartDiscovers(mac: HwAddr, c: Client, e: Call)
    requires c.point == Start
    ensures
      var r := Step(mac, c, e);
      && r.sent == Discovered && !r.configured && r.c.point == WaitOffer && r.c.state == SENDING
      && r.c.start == e.now && r.c.interval == r.c.ticks == 1000 && r.c.lease == c.lease
  {
  }

  /** Woken without an offer, be it by another message or by the timer, it repeats the discover and waits twice as long, up to 32 seconds. */
  lemma DiscoverIsRepeated(mac: HwAddr, c: Client, e: Call)
    requires Valid(c) && c.point == WaitOffer && (e.newdata || Timers.Expired(e.now, c.start, c.interval)) && Heard(mac, c, e).mtype != 2
    ensures
      var r := Step(mac, c, e);
      && r.sent == Discovered && !r.configured && r.c.point == WaitOffer && r.c.state == SENDING
      && r.c.start == e.now && r.c.interval == r.c.ticks == (if c.ticks == 32000 then 32000 else 2 * c.ticks)
      && r.c.lease == Heard(mac, c, e).lease
  {
  }

  /** An offer is requested at once; an acknowledgement of the request configures the interface with what it says. */
  lemma AnswerMovesOn(mac: HwAddr, c: Client, e: Call)
    requires c.point in {WaitOffer, WaitAck} && Heard(mac, c, e).mtype == (if c.point == WaitOffer then 2 else 5)
    ensures
      var r := Step(mac, c, e);
      && r.c.lease == Heard(mac, c, e).lease
      && if c.point == WaitOffer then
           && r.sent == Requested && !r.configured && r.c.point == WaitAck && r.c.state == OFFER_RECEIVED
           && r.c.start == e.now && r.c.interval == r.c.ticks == 1000
         else r.sent == Nothing && r.configured && r.c.point == Bound && r.c.state == CONFIG_RECEIVED
  {
    HeardMeans(mac, c, e);
  }

  /** Woken without an acknowledgement it repeats the request and waits a second longer, or gives the round up. */
  lemma RequestIsRepeated(mac: HwAddr, c: Client, e: Call)
    requires Valid(c) && c.point == WaitAck && (e.newdata || Timers.Expired(e.now, c.start, c.interval)) && Heard(mac, c, e).mtype != 5
    ensures
      var r := Step(mac, c, e);
      && !r.configured && r.c.lease == Heard(mac, c, e).lease
      && if c.ticks == 11000 then r.sent == Nothing && r.c.point == Start
         else r.sent == Requested && r.c.point == WaitAck && r.c.start == e.now && r.c.interval == r.c.ticks == c.ticks + 1000
  {
  }

  /** Every one of the calls wakes the client, and none brings an offer. */
  predicate Fruitless(mac: HwAddr, c: Client, es: seq<Call>) {
    es != [] ==>
      var n := |es| - 1;
      Fruitless(mac, c, es[..n]) && Woken(Run(mac, c, es[..n]), es[n]) && Heard(mac, Run(mac, c, es[..n]), es[n]).mtype != DHCPOFFER
  }

  function Discovers(mac: HwAddr, c: Client, es: seq<Call>): nat {
    if es == [] then 0
    else
      var n := |es| - 1;
      Discovers(mac, c, es[..n]) + if Step(mac, Run(mac, c, es[..n]), es[n]).sent == Discovered then 1 else 0
  }

  function Power2(n: nat): nat { if n == 0 then 1 else 2 * Power2(n - 1) }

  lemma Powers()
    ensures Power2(0) == 1 && Power2(1) == 2 && Power2(2) == 4 && Power2(3) == 8 && Power2(4) == 16 && Power2(5) == 32
  {
  }

  /** Without an offer every waking sends one more discover, and the waits are 1, 2, 4, 8, 16 and then 32 seconds. */
  lemma {:induction false} DiscoverBacksOff(mac: HwAddr, c: Client, es: seq<Call>)
    requires c.point == WaitOffer && c.state == SENDING && c.ticks == 1000 && Fruitless(mac, c, es)
    ensures Discovers(mac, c, es) == |es|
    ensures
      var r := Run(mac, c, es);
      r.point == WaitOffer && Valid(r) && r.ticks == 1000 * Power2(if |es| < 5 then |es| else 5)
    decreases |es|
  {
    Powers();
    if es != [] {
      var n := |es| - 1;
      DiscoverBacksOff(mac, c, es[..n]);
      DiscoverIsRepeated(mac, Run(mac, c, es[..n]), es[n]);
      if n < 5 { assert Power2(n + 1) == 2 * Power2(n); }
    }
  }

  function Configurations(mac: HwAddr, c: Client, es: seq<Call>): nat {
    if es == [] then 0
    else
      var n := |es| - 1;
      Configurations(mac, c, es[..n]) + if Step(mac, Run(mac, c, es[..n]), es[n]).configured then 1 else 0
  }

  /** dhcpc_configured runs at most once, and afterwards the client neither sends nor changes. */
  lemma {:induction false} ConfiguredOnce(mac: HwAddr, c: Client, es: seq<Call>)
    requires Initial(c)
    ensures Configurations(mac, c, es) == if Run(mac, c, es).point == Bound then 1 else 0
  {
    if es != [] {
      var n := |es| - 1;
      ConfiguredOnce(mac, c, es[..n]);
      RunKeepsValid(mac, c, es[..n]);
      StepKeepsValid(mac, Run(mac, c, es[..n]), es[n]);
    }
  }

  /** Call k brought the offer that ended the discover phase. */
  ghost predicate OfferAt(mac: HwAddr, c: Client, es: seq<Call>, k: nat) {
    && k < |es| && Run(mac, c, es[..k]).point == WaitOffer && es[k].newdata && ForUs(es[k].b, mac)
    && Heard(mac, Run(mac, c, es[..k]), es[k]).mtype == DHCPOFFER
  }

  /** Since the offer at k the client has only been requesting. */
  ghost predicate RequestingSince(mac: HwAddr, c: Client, es: seq<Call>, k: nat) {
    OfferAt(mac, c, es, k) && forall j :: k < j <= |es| ==> Run(mac, c, es[..j]).point == WaitAck
  }

  lemma HeardMeans(mac: HwAddr, c: Client, e: Call)
    requires Heard(mac, c, e).mtype != 0
    ensures e.newdata && ForUs(e.b, mac) && Heard(mac, c, e).lease.ipaddr == FourAt(e.b, 16)
  {
    TypedMessageIsForUs(e.b, e.datalen, mac, c.lease);
  }

  lemma RequestingGoesOn(mac: HwAddr, c: Client, es: seq<Call>, e: Call, k: nat)
    requires RequestingSince(mac, c, es, k) && Run(mac, c, es + [e]).point == WaitAck
    ensures RequestingSince(mac, c, es + [e], k)
  {
    var all := es + [e];
    assert all[..k] == es[..k] && all[k] == es[k];
    forall j | k < j <= |all| ensures Run(mac, c, all[..j]).point == WaitAck {
      if j == |all| { assert all[..j] == all; } else { assert all[..j] == es[..j]; }
    }
  }

  lemma OnlyOffersLeadToRequests(mac: HwAddr, c: Client, e: Call)
    requires c.point != WaitAck && Step(mac, c, e).c.point == WaitAck
    ensures c.point == WaitOffer && Heard(mac, c, e).mtype == DHCPOFFER
  {
  }

  lemma RunAppends(mac: HwAddr, c: Client, es: seq<Call>, e: Call)
    ensures Run(mac, c, es + [e]) == Step(mac, Run(mac, c, es), e).c
  {
    assert (es + [e])[..|es|] == es;
  }

  lemma OfferIsHeard(mac: HwAddr, c: Client, es: seq<Call>, e: Call)
    requires Run(mac, c, es).point == WaitOffer && Heard(mac, Run(mac, c, es), e).mtype == DHCPOFFER
    ensures OfferAt(mac, c, es + [e], |es|)
  {
    assert (es + [e])[..|es|] == es;
    HeardMeans(mac, Run(mac, c, es), e);
  }

  lemma RequestingAtOnce(mac: HwAddr, c: Client, es: seq<Call>)
    requires es != [] && OfferAt(mac, c, es, |es| - 1) && Run(mac, c, es).point == WaitAck
    ensures RequestingSince(mac, c, es, |es| - 1)
  {
    assert es[..|es|] == es;
  }

  lemma RequestingStarts(mac: HwAddr, c: Client, es: seq<Call>, e: Call)
    requires Run(mac, c, es).point != WaitAck && Run(mac, c, es + [e]).point == WaitAck
    ensures RequestingSince(mac, c, es + [e], |es|)
  {
    RunAppends(mac, c, es, e);
    OnlyOffersLeadToRequests(mac, Run(mac, c, es), e);
    OfferIsHeard(mac, c, es, e);
    RequestingAtOnce(mac, c, es + [e]);
  }

  lemma {:induction false} RequestsFollowOffer(mac: HwAddr, c: Client, es: seq<Call>)
    requires Initial(c) && Run(mac, c, es).point == WaitAck
    ensures exists k :: RequestingSince(mac, c, es, k)
  {
    var front, e := es[..|es| - 1], es[|es| - 1];
    assert front + [e] == es;
    if Run(mac, c, front).point == WaitAck {
      RequestsFollowOffer(mac, c, front);
      var k :| RequestingSince(mac, c, front, k);
      RequestingGoesOn(mac, c, front, e, k);
    } else {
      RequestingStarts(mac, c, front, e);
    }
  }

  /**
    If a call configures the interface, it brings an acknowledgement for this client, whose yiaddr becomes the
    address, and an earlier call of the same round brought an offer for this client.
   */
  lemma ConfiguredAfterOfferAndAck(mac: HwAddr, c: Client, es: seq<Call>, e: Call)
    requires Initial(c) && Step(mac, Run(mac, c, es), e).configured
    ensures e.newdata && ForUs(e.b, mac) && Heard(mac, Run(mac, c, es), e).mtype == DHCPACK
    ensures Step(mac, Run(mac, c, es), e).c.lease.ipaddr == FourAt(e.b, 16)
    ensures exists k :: RequestingSince(mac, c, es, k)
  {
    RunKeepsValid(mac, c, es);
    HeardMeans(mac, Run(mac, c, es), e);
    RequestsFollowOffer(mac, c, es);
  }

  lemma ServerIsHeard(mac: HwAddr, c: Client, e: Call, os: seq<Opt>, id: Four)
    requires Heard(mac, c, e).mtype != 0
    requires AllWellFormed(os) && Has(e.b, OPTIONS_AT, OptBytes(os) + [OPTION_END]) && |OptBytes(os)| < e.datalen
    requires Last(os, SERVER_ID) == Some(id)
    ensures Heard(mac, c, e).lease.ipaddr == FourAt(e.b, 16) && Heard(mac, c, e).lease.serverid == id
  {
    HeardMeans(mac, c, e);
    ParseIsLastWins(e.b, OPTIONS_AT, e.datalen, os, Parsed(c.lease.(ipaddr := FourAt(e.b, 16)), 0));
    assert id[..4] == id;
  }

  /** The first request of a round names the address and, through the options, the server of the offer. */
  lemma OfferIsRequested(mac: HwAddr, c: Client, e: Call, os: seq<Opt>, id: Four)
    requires c.point == WaitOffer && Woken(c, e) && Heard(mac, c, e).mtype == DHCPOFFER
    requires AllWellFormed(os) && Has(e.b, OPTIONS_AT, OptBytes(os) + [OPTION_END]) && |OptBytes(os)| < e.datalen
    requires Last(os, SERVER_ID) == Some(id)
    ensures
      var r := Step(mac, c, e);
      r.sent == Requested && r.c.lease.ipaddr == FourAt(e.b, 16) && r.c.lease.serverid == id
  {
    ServerIsHeard(mac, c, e, os, id);
  }

  // ---- The request phase ----

  /** Requests sent since the last offer. */
  function Requests(mac: HwAddr, c: Client, es: seq<Call>): nat {
    if es == [] then 0
    else
      var n := |es| - 1;
      var before := Run(mac, c, es[..n]);
      var r := Step(mac, before, es[n]);
      if r.sent == Requested then (if before.point == WaitOffer then 1 else Requests(mac, c, es[..n]) + 1)
      else if r.c.point == WaitAck then Requests(mac, c, es[..n])
      else 0
  }

  /** The waiting time counts the requests, so a phase never sends more than eleven. */
  lemma {:induction false} AtMostElevenRequests(mac: HwAddr, c: Client, es: seq<Call>)
    requires Initial(c)
    ensures Requests(mac, c, es) <= 11
    ensures Run(mac, c, es).point == WaitAck ==> Run(mac, c, es).ticks == 1000 * Requests(mac, c, es)
  {
    if es != [] {
      var n := |es| - 1;
      AtMostElevenRequests(mac, c, es[..n]);
      RunKeepsValid(mac, c, es[..n]);
      StepKeepsValid(mac, Run(mac, c, es[..n]), es[n]);
    }
  }

  /** A call that wakes the client in the request phase without an acknowledgement. */
  predicate Unhelpful(mac: HwAddr, c: Client, e: Call) { Woken(c, e) && Heard(mac, c, e).mtype != DHCPACK }

  lemma UnhelpfulStep(mac: HwAddr, c: Client, e: Call)
    requires c.point == WaitAck && Unhelpful(mac, c, e)
    ensures
      var r := Step(mac, c, e).c;
      if c.ticks <= 10 * CLOCK_SECOND then r.point == WaitAck && r.ticks == c.ticks + CLOCK_SECOND else r.point == Start
  {
  }

  predicate AllUnhelpful(mac: HwAddr, c: Client, es: seq<Call>) {
    es != [] ==>
      AllUnhelpful(mac, c, es[..|es| - 1]) && Unhelpful(mac, Run(mac, c, es[..|es| - 1]), es[|es| - 1])
  }

  /** Unhelpful calls one after the other send ten more requests, then the client starts over. */
  lemma {:induction false} RestartsAfterEleven(mac: HwAddr, c: Client, es: seq<Call>)
    requires c.point == WaitAck && c.ticks == CLOCK_SECOND && |es| <= 11 && AllUnhelpful(mac, c, es)
    ensures
      var r := Run(mac, c, es);
      if |es| <= 10 then r.point == WaitAck && r.ticks == 1000 * (|es| + 1) else r.point == Start
    decreases |es|
  {
    if es != [] {
      var n := |es| - 1;
      RestartsAfterEleven(mac, c, es[..n]);
      UnhelpfulStep(mac, Run(mac, c, es[..n]), es[n]);
    }
  }
}
