/** The globals of uip.cpp and the loops over uip_conns, written as in the source. */
module TcpStack {
  import opened Bytes
  import opened Tcp
  import opened TcpInvariant
  import opened TcpTable
  import opened TcpSlot

  ghost function Values(cs: seq<UipConn>): (t: seq<Conn>)
    reads cs
    ensures |t| == |cs|
    ensures forall i :: 0 <= i < |cs| ==> t[i] == cs[i].Value()
  {
    seq(|cs|, i requires 0 <= i < |cs| reads cs => cs[i].Value())
  }

  /** A step on one slot leaves the others alone: t is the table before the step. */
  lemma OneSlot(cs: seq<UipConn>, t: seq<Conn>, n: nat)
    requires n < |cs| == |t|
    requires forall i :: 0 <= i < |cs| && i != n ==> cs[i].Value() == t[i]
    ensures Values(cs) == t[n := cs[n].Value()]
  {
  }

  class Uip {
    const m: u16
    const conns: seq<UipConn>
    const listenports: seq<u16>
    var iss: u32
    var lastport: u16

    ghost predicate Distinct() {
      forall i, j :: 0 <= i < j < |conns| ==> conns[i] != conns[j]
    }

    ghost function State(): (st: Stack)
      reads this, conns
    {
      Stack(Values(conns), iss, lastport)
    }

    /** uip_init over a table of zeroed connections. */
    constructor (m: u16, slots: seq<UipConn>, ports: seq<u16>)
      requires forall i, j :: 0 <= i < j < |slots| ==> slots[i] != slots[j]
      requires forall c :: c in slots ==> c.Value() == ZeroConn
      requires |slots| < 27904
      ensures conns == slots && listenports == ports && this.m == m
      ensures Distinct() && Sound(m, State())
    {
      this.m := m;
      conns := slots;
      listenports := ports;
      iss := 0;
      lastport := 1024;
      new;
      forall i | 0 <= i < |slots|
        ensures Values(slots)[i] == ZeroConn
      {
        assert slots[i] in slots;
      }
    }

    /** The demultiplexing loop over the live connections. */
    method FindConn(k: Key) returns (n: nat)
      ensures n == FirstMatch(Values(conns), k)
    {
      n := 0;
      ghost var t := Values(conns);
      while n < |conns|
        invariant 0 <= n <= FirstMatch(t, k)
      {
        var c := conns[n];
        assert t[n] == c.Value();
        if !c.Value().Is(CLOSED) && k.lport == c.lport && k.rport == c.rport && k.ripaddr == c.ripaddr {
          assert Matches(t[n], k);
          return;
        }
        assert !Matches(t[n], k);
        n := n + 1;
      }
    }

    /** The loop that looks for a free slot and else for the oldest one in TIME_WAIT. */
    method FindSlot() returns (n: nat)
      ensures Chosen(Values(conns), n)
    {
      n := |conns|;
      ghost var t := Values(conns);
      var i := 0;
      while i < |conns|
        invariant 0 <= i <= |conns|
        invariant forall j :: 0 <= j < i ==> !t[j].Is(CLOSED)
        invariant n == |conns| || n < i
        invariant n == |conns| ==> forall j :: 0 <= j < i ==> !t[j].Is(TIME_WAIT)
        invariant n < |conns| ==> t[n].Is(TIME_WAIT) && forall j :: 0 <= j < i && t[j].Is(TIME_WAIT) ==>
                                    t[j].timer <= t[n].timer && (j < n ==> t[j].timer < t[n].timer)
      {
        var c := conns[i];
        if c.Value().Is(CLOSED) {
          return i;
        }
        if c.Value().Is(TIME_WAIT) {
          if n == |conns| || c.timer > conns[n].timer {
            n := i;
          }
        }
        i := i + 1;
      }
    }

    /** The loop that checks whether a local port is taken. */
    method PortTaken(port: u16) returns (taken: bool)
      ensures taken == PortInUse(Values(conns), port)
    {
      ghost var t := Values(conns);
      var i := 0;
      while i < |conns|
        invariant 0 <= i <= |conns|
        invariant forall j :: 0 <= j < i ==> !(Live(t[j]) && t[j].lport == port)
      {
        if !conns[i].Value().Is(CLOSED) && conns[i].lport == port {
          assert Live(t[i]) && t[i].lport == port;
          return true;
        }
        i := i + 1;
      }
      return false;
    }

    /** ++lastport with its wrap. */
    method NextPort()
      requires lastport < 32000
      modifies this`lastport
      ensures lastport == Bump(old(lastport)) && Values(conns) == old(Values(conns))
    {
      lastport := Wrap16(lastport + 1);
      if lastport >= 32000 { lastport := 4096; }
    }

    /** Label again: the next local port that no live connection uses. */
    method PickPort()
      requires lastport < 32000 && |conns| < 27904
      modifies this`lastport
      ensures lastport == SearchPort(Values(conns), old(lastport), |conns|)
    {
      ghost var t, tries: nat, last := Values(conns), |conns|, lastport;
      ghost var port := SearchPort(t, lastport, |conns|);
      PortSearchSucceeds(t, lastport);
      NextPort();
      var taken := PortTaken(lastport);
      while taken
        invariant last < 32000 && lastport == Bump(last) && Values(conns) == t && taken == PortInUse(t, lastport)
        invariant SearchPort(t, last, tries) == port
        decreases tries
      {
        last, tries := lastport, tries - 1;
        NextPort();
        taken := PortTaken(lastport);
      }
    }

    /** The slot for a new connection, and whether there is one. */
    method ChooseSlot() returns (n: nat)
      ensures n == Choice(Values(conns)) && n <= |conns|
      ensures n == |conns| <==> forall j :: 0 <= j < |conns| ==> !Reusable(Values(conns)[j])
    {
      n := FindSlot();
      ChosenIsUnique(Values(conns), n, Choice(Values(conns)));
      RefusedIffFull(Values(conns));
    }

    method IsListening(port: u16) returns (b: bool)
      ensures b <==> port in listenports
    {
      var c := 0;
      while c < |listenports|
        invariant 0 <= c <= |listenports|
        invariant port !in listenports[..c]
      {
        if port == listenports[c] { return true; }
        c := c + 1;
      }
      return false;
    }

    /** uip_connect; the result is the slot of the new connection. */
    method Connect(ripaddr: u32, rport: u16) returns (slot: Option<nat>)
      requires Distinct() && lastport < 32000 && |conns| < 27904
      modifies this, conns
      ensures State() == TableStep(m, listenports, old(State()), Dial(ripaddr, rport))
      ensures slot == None <==> forall j :: 0 <= j < |conns| ==> !Reusable(old(Values(conns))[j])
    {
      PickPort();
      var n := ChooseSlot();
      if n == |conns| { return None; }
      OpenSlot(n, ripaddr, rport);
      return Some(n);
    }

    method OpenSlot(n: nat, ripaddr: u32, rport: u16)
      requires Distinct() && n < |conns|
      modifies conns
      ensures Values(conns) ==
              old(Values(conns))[n := ActiveOpen(m, old(Values(conns))[n], iss, ripaddr, lastport, rport)]
    {
      ghost var t := Values(conns);
      conns[n].Open(m, iss, ripaddr, lastport, rport);
      OneSlot(conns, t, n);
    }

    /** uip_periodic(i). */
    method Periodic(i: nat, r: Reply) returns (sent: Option<Segment>)
      requires Distinct() && i < |conns|
      modifies this, conns
      ensures State() == TableStep(m, listenports, old(State()), TableEvent.Periodic(i, r))
      ensures sent == Timer(m, old(Values(conns))[i], r).sent
    {
      iss := Add32(iss, 1);
      ghost var t := Values(conns);
      var call;
      sent, call := conns[i].Periodic(m, r);
      OneSlot(conns, t, i);
    }

    /** uip_input for a checked TCP packet. */
    method Receive(p: Packet, r: Reply) returns (sent: Option<Segment>)
      requires Distinct()
      modifies conns
      ensures State() == TableStep(m, listenports, old(State()), Incoming(p, r))
      ensures sent == Demultiplex(m, old(State()), listenports, p, Choice(old(Values(conns))), r).1
    {
      if p.destport == 0 || p.srcport == 0 { return None; }
      ghost var t := Values(conns);
      var n := FindConn(PacketKey(p));
      if n < |conns| {
        var call;
        sent, call := conns[n].Found(m, p.seg, r);
        OneSlot(conns, t, n);
        return;
      }
      if p.seg.flags != SYN { return ResetFor(p.seg); }
      var listening := IsListening(p.destport);
      if !listening { return ResetFor(p.seg); }
      var slot := ChooseSlot();
      if slot == |conns| { return None; }
      sent := conns[slot].Accept(m, iss, p.srcip, p.destport, p.srcport, p.seg);
      OneSlot(conns, t, slot);
    }
  }
}
