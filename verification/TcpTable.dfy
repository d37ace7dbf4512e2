/** The table of connections: demultiplexing, the choice of a slot and the choice of a local port. */
module TcpTable {
  import opened Bytes
  import opened Tcp
  import opened TcpInvariant

  /** A checked TCP packet addressed to this host. */
  datatype Packet = Packet(srcip: u32, srcport: u16, destport: u16, seg: Segment)

  datatype Key = Key(ripaddr: u32, lport: u16, rport: u16)

  function KeyOf(c: Conn): Key { Key(c.ripaddr, c.lport, c.rport) }
  function PacketKey(p: Packet): Key { Key(p.srcip, p.destport, p.srcport) }

  predicate Live(c: Conn) { !c.Is(CLOSED) }

  predicate Matches(c: Conn, k: Key) { Live(c) && KeyOf(c) == k }

  /** No two live connections share ports and remote address. */
  ghost predicate Unambiguous(t: seq<Conn>) {
    forall i, j :: 0 <= i < j < |t| && Live(t[i]) && Live(t[j]) ==> KeyOf(t[i]) != KeyOf(t[j])
  }

  /** The first slot that matches, |t| if there is none. */
  function FirstMatch(t: seq<Conn>, k: Key): (n: nat)
    ensures n <= |t|
    ensures n < |t| ==> Matches(t[n], k)
    ensures forall i :: 0 <= i < n ==> !Matches(t[i], k)
  {
    if t == [] || Matches(t[0], k) then 0 else 1 + FirstMatch(t[1..], k)
  }

  lemma FirstMatchIsOnlyMatch(t: seq<Conn>, k: Key, i: nat)
    requires Unambiguous(t) && i < |t| && Matches(t[i], k)
    ensures FirstMatch(t, k) == i
  {
  }

  /**
    The slot a new connection takes: the first free one, else the first of those that have waited longest
    in TIME_WAIT, else none (n == |t|).
   */
  ghost predicate Chosen(t: seq<Conn>, n: nat) {
    if n < |t| then
      || (t[n].Is(CLOSED) && forall j :: 0 <= j < n ==> !t[j].Is(CLOSED))
      || (t[n].Is(TIME_WAIT)
          && forall j :: 0 <= j < |t| ==> !t[j].Is(CLOSED) && (t[j].Is(TIME_WAIT) ==>
                           t[j].timer <= t[n].timer && (j < n ==> t[j].timer < t[n].timer)))
    else n == |t| && forall j :: 0 <= j < |t| ==> !Reusable(t[j])
  }

  lemma ChosenIsUnique(t: seq<Conn>, a: nat, b: nat)
    requires Chosen(t, a) && Chosen(t, b)
    ensures a == b
  {
  }

  // ---- Local ports ----

  function Bump(p: u16): u16 { if p + 1 >= 32000 then 4096 else p + 1 }

  predicate PortInUse(t: seq<Conn>, port: u16) {
    exists i :: 0 <= i < |t| && Live(t[i]) && t[i].lport == port
  }

  /** The port search of uip_connect, cut off after `tries` ports in use. */
  function SearchPort(t: seq<Conn>, last: u16, tries: nat): u16
    decreases tries
  {
    var p := Bump(last);
    if tries == 0 || !PortInUse(t, p) then p else SearchPort(t, p, tries - 1)
  }

  /** The first n candidates after `last`. */
  ghost function Candidates(last: u16, n: nat): set<u16>
    decreases n
  {
    if n == 0 then {} else {Bump(last)} + Candidates(Bump(last), n - 1)
  }

  /** The candidates walk around 4096..31999 without repeating. */
  lemma {:induction false} CandidatesShape(last: u16, n: nat)
    requires last < 32000 && n <= 27904
    ensures forall p :: p in Candidates(last, n) ==> (last < p <= last + n && p < 32000) || 4096 <= p < 4096 + (last + n - 31999)
    ensures |Candidates(last, n)| == n
    decreases n
  {
    if n > 0 {
      CandidatesShape(Bump(last), n - 1);
      assert Bump(last) !in Candidates(Bump(last), n - 1);
    }
  }

  ghost function UsedPorts(t: seq<Conn>): (u: set<u16>)
    ensures |u| <= |t|
    ensures forall p :: PortInUse(t, p) ==> p in u
  {
    if t == [] then {}
    else
      assert forall p :: PortInUse(t, p) ==> t[0].lport == p || PortInUse(t[1..], p) by {
        forall p | PortInUse(t, p) && t[0].lport != p
          ensures PortInUse(t[1..], p)
        {
          var i :| 0 <= i < |t| && Live(t[i]) && t[i].lport == p;
          assert t[1..][i - 1] == t[i];
        }
      }
      {t[0].lport} + UsedPorts(t[1..])
  }

  lemma {:induction false} FailedSearch(t: seq<Conn>, last: u16, n: nat)
    requires PortInUse(t, SearchPort(t, last, n))
    ensures forall p :: p in Candidates(last, n + 1) ==> PortInUse(t, p)
    decreases n
  {
    assert Candidates(last, n + 1) == {Bump(last)} + Candidates(Bump(last), n);
    if n > 0 {
      FailedSearch(t, Bump(last), n - 1);
    }
  }

  /** By pigeonhole a free port turns up within |t| + 1 tries, across the wrap from 32000 to 4096. */
  lemma PortSearchSucceeds(t: seq<Conn>, last: u16)
    requires last < 32000 && |t| < 27904
    ensures !PortInUse(t, SearchPort(t, last, |t|))
  {
    if PortInUse(t, SearchPort(t, last, |t|)) {
      FailedSearch(t, last, |t|);
      CandidatesShape(last, |t| + 1);
      SubsetSize(Candidates(last, |t| + 1), UsedPorts(t));
      assert false;
    }
  }

  // ---- Steps of the whole table ----

  datatype Stack = Stack(conns: seq<Conn>, iss: u32, lastport: u16)

  datatype TableEvent =
    | Periodic(i: nat, r: Reply)
    | Incoming(p: Packet, r: Reply)
    | Dial(ripaddr: u32, rport: u16)

  ghost function Choice(t: seq<Conn>): (n: nat)
    ensures (exists k: nat :: Chosen(t, k)) ==> Chosen(t, n)
  {
    if exists k: nat :: Chosen(t, k) then var k: nat :| Chosen(t, k); k else 0
  }

  /** Incoming packets, with the slot for a new connection given. */
  function Demultiplex(m: u16, st: Stack, listening: seq<u16>, p: Packet, slot: nat, r: Reply): (Stack, Option<Segment>) {
    var n := FirstMatch(st.conns, PacketKey(p));
    if p.srcport == 0 || p.destport == 0 then (st, None)
    else if n < |st.conns| then
      var o := Input(m, st.conns[n], p.seg, r);
      (st.(conns := st.conns[n := o.conn]), o.sent)
    else if p.seg.flags != SYN || p.destport !in listening then (st, ResetFor(p.seg))
    else if slot < |st.conns| then
      var o := PassiveOpen(m, st.conns[slot], st.iss, p.srcip, p.destport, p.srcport, p.seg);
      (st.(conns := st.conns[slot := o.conn]), o.sent)
    else (st, None)
  }

  function Connecting(m: u16, st: Stack, ripaddr: u32, rport: u16, slot: nat): Stack {
    var port := SearchPort(st.conns, st.lastport, |st.conns|);
    if slot < |st.conns| then
      st.(lastport := port,
          conns := st.conns[slot := ActiveOpen(m, st.conns[slot], st.iss, ripaddr, port, rport)])
    else st.(lastport := port)
  }

  ghost function TableStep(m: u16, listening: seq<u16>, st: Stack, e: TableEvent): Stack {
    match e
    case Periodic(i, r) =>
      if i < |st.conns| then
        st.(iss := Add32(st.iss, 1), conns := st.conns[i := Timer(m, st.conns[i], r).conn])
      else st
    case Incoming(p, r) => Demultiplex(m, st, listening, p, Choice(st.conns), r).0
    case Dial(ip, rport) => Connecting(m, st, ip, rport, Choice(st.conns))
  }

  ghost function TableRun(m: u16, listening: seq<u16>, st: Stack, es: seq<TableEvent>): Stack
    decreases es
  {
    if es == [] then st else TableRun(m, listening, TableStep(m, listening, st, es[0]), es[1..])
  }

  ghost predicate Sound(m: u16, st: Stack) {
    && |st.conns| < 27904
    && st.lastport < 32000
    && Unambiguous(st.conns)
    && forall i :: 0 <= i < |st.conns| ==> Valid(m, st.conns[i])
  }

  /** A slot exists that Chosen picks, or none is reusable: the choice never fails. */
  lemma {:induction false} ChoiceExists(t: seq<Conn>, k: nat, best: nat)
    requires k <= |t| && best <= |t|
    requires forall j :: 0 <= j < k ==> !t[j].Is(CLOSED)
    requires best == |t| ==> forall j :: 0 <= j < k ==> !t[j].Is(TIME_WAIT)
    requires best < |t| ==> best < k && t[best].Is(TIME_WAIT) && forall j :: 0 <= j < k && t[j].Is(TIME_WAIT) ==>
                                         t[j].timer <= t[best].timer && (j < best ==> t[j].timer < t[best].timer)
    ensures exists n: nat :: Chosen(t, n)
    decreases |t| - k
  {
    if k == |t| {
      assert Chosen(t, best);
    } else if t[k].Is(CLOSED) {
      assert Chosen(t, k);
    } else if t[k].Is(TIME_WAIT) && (best == |t| || t[k].timer > t[best].timer) {
      ChoiceExists(t, k + 1, k);
    } else {
      ChoiceExists(t, k + 1, best);
    }
  }

  lemma DispatchKeepsKey(m: u16, c: Conn, s: Segment, acked: bool, r: Reply)
    ensures KeyOf(Dispatch(m, c, s, acked, r).conn) == KeyOf(c)
  {
    match c.state
    case SYN_RCVD =>
    case SYN_SENT =>
    case ESTABLISHED =>
    case FIN_WAIT_1 =>
    case FIN_WAIT_2 =>
    case _ =>
  }

  lemma InputKeepsKey(m: u16, c: Conn, s: Segment, r: Reply)
    ensures KeyOf(Input(m, c, s, r).conn) == KeyOf(c)
  {
    assert KeyOf(AckStage(c, s)) == KeyOf(c);
    DispatchKeepsKey(m, AckStage(c, s), s, Acks(c, s), r);
  }

  lemma TimerKeepsKey(m: u16, c: Conn, r: Reply)
    ensures KeyOf(Timer(m, c, r).conn) == KeyOf(c)
    ensures c.Is(CLOSED) ==> Timer(m, c, r).conn == c
  {
  }

  /** A slot whose key stays, or which takes a key that no other live slot has, keeps the table unambiguous. */
  lemma ReplaceSlot(t: seq<Conn>, n: nat, c: Conn)
    requires Unambiguous(t) && n < |t|
    requires Live(c) ==> forall j :: 0 <= j < |t| && j != n ==> !Matches(t[j], KeyOf(c))
    ensures Unambiguous(t[n := c])
  {
  }

  lemma LiveKeyIsOwn(t: seq<Conn>, n: nat)
    requires Unambiguous(t) && n < |t| && Live(t[n])
    ensures forall j :: 0 <= j < |t| && j != n ==> !Matches(t[j], KeyOf(t[n]))
  {
  }

  lemma IncomingKeepsSound(m: u16, listening: seq<u16>, st: Stack, p: Packet, slot: nat, r: Reply)
    requires Sound(m, st) && Chosen(st.conns, slot)
    ensures Sound(m, Demultiplex(m, st, listening, p, slot, r).0)
  {
    var t := st.conns;
    var n := FirstMatch(t, PacketKey(p));
    if p.srcport == 0 || p.destport == 0 {
    } else if n < |t| {
      InputKeepsValid(m, t[n], p.seg, r);
      InputKeepsKey(m, t[n], p.seg, r);
      LiveKeyIsOwn(t, n);
      ReplaceSlot(t, n, Input(m, t[n], p.seg, r).conn);
    } else if p.seg.flags == SYN && p.destport in listening && slot < |t| {
      var e := Listen(st.iss, p.srcip, p.destport, p.srcport, p.seg);
      StepKeepsValid(m, t[slot], e);
      assert KeyOf(SlotStep(m, t[slot], e)) == PacketKey(p);
      ReplaceSlot(t, slot, SlotStep(m, t[slot], e));
    }
  }

  lemma DialKeepsSound(m: u16, st: Stack, ip: u32, rport: u16, slot: nat)
    requires Sound(m, st) && Chosen(st.conns, slot)
    ensures Sound(m, Connecting(m, st, ip, rport, slot))
  {
    var t := st.conns;
    var port := SearchPort(t, st.lastport, |t|);
    PortSearchSucceeds(t, st.lastport);
    PortInRange(t, st.lastport, |t|);
    if slot < |t| {
      var e := Connect(st.iss, ip, port, rport);
      StepKeepsValid(m, t[slot], e);
      var c := SlotStep(m, t[slot], e);
      forall j | 0 <= j < |t| && j != slot
        ensures !Matches(t[j], KeyOf(c))
      {
        if Matches(t[j], KeyOf(c)) { assert PortInUse(t, port); }
      }
      ReplaceSlot(t, slot, c);
    }
  }

  lemma PortInRange(t: seq<Conn>, last: u16, n: nat)
    requires last < 32000
    ensures SearchPort(t, last, n) < 32000
    decreases n
  {
    if n > 0 { PortInRange(t, Bump(last), n - 1); }
  }

  lemma StepKeepsSound(m: u16, listening: seq<u16>, st: Stack, e: TableEvent)
    requires Sound(m, st)
    ensures Sound(m, TableStep(m, listening, st, e))
  {
    ChoiceExists(st.conns, 0, |st.conns|);
    match e
    case Periodic(i, r) =>
      if i < |st.conns| {
        var c := st.conns[i];
        TimerKeepsValid(m, c, r);
        TimerKeepsKey(m, c, r);
        if Live(c) { LiveKeyIsOwn(st.conns, i); }
        ReplaceSlot(st.conns, i, Timer(m, c, r).conn);
      }
    case Incoming(p, r) => IncomingKeepsSound(m, listening, st, p, Choice(st.conns), r);
    case Dial(ip, rport) => DialKeepsSound(m, st, ip, rport, Choice(st.conns));
  }

  /** Over every run from uip_init, live connections stay distinguishable and every slot stays valid. */
  lemma {:induction false} RunKeepsSound(m: u16, listening: seq<u16>, st: Stack, es: seq<TableEvent>)
    requires Sound(m, st)
    ensures Sound(m, TableRun(m, listening, st, es))
    decreases es
  {
    if es != [] {
      StepKeepsSound(m, listening, st, es[0]);
      RunKeepsSound(m, listening, TableStep(m, listening, st, es[0]), es[1..]);
    }
  }

  /** A new connection is refused exactly when every slot holds a connection that is not waiting. */
  lemma RefusedIffFull(t: seq<Conn>)
    ensures Choice(t) == |t| <==> forall j :: 0 <= j < |t| ==> !Reusable(t[j])
  {
    ChoiceExists(t, 0, |t|);
    assert Chosen(t, Choice(t));
    if Choice(t) < |t| { assert Reusable(t[Choice(t)]); }
  }

  // ---- What a call does to the table ----

  /** Only slot n is different. */
  predicate OnlyDiffersAt(t: seq<Conn>, u: seq<Conn>, n: nat) {
    |u| == |t| && n < |t| && forall j :: 0 <= j < |t| && j != n ==> u[j] == t[j]
  }

  lemma {:induction false} SearchedPort(t: seq<Conn>, last: u16, n: nat)
    requires last < 32000
    ensures var p := SearchPort(t, last, n); last < p < 32000 || 4096 <= p < 32000
    decreases n
  {
    if n > 0 { SearchedPort(t, Bump(last), n - 1); }
  }

  lemma ChosenSlot(t: seq<Conn>)
    ensures
      var n := Choice(t);
      if forall j :: 0 <= j < |t| ==> !Reusable(t[j]) then n == |t| else n < |t| && Reusable(t[n])
  {
    ChoiceExists(t, 0, |t|);
    RefusedIffFull(t);
    assert Chosen(t, Choice(t));
  }

  /**
    uip_connect takes the chosen slot, if any can be taken, for a connection to the given host and port: from the
    present initial sequence number, with a local port that no live connection has, and with the SYN due.
   */
  lemma DialOpens(m: u16, listening: seq<u16>, st: Stack, ip: u32, rport: u16)
    requires Sound(m, st)
    ensures
      var r, n := TableStep(m, listening, st, Dial(ip, rport)), Choice(st.conns);
      && Sound(m, r) && r.iss == st.iss
      && if forall j :: 0 <= j < |st.conns| ==> !Reusable(st.conns[j]) then r.conns == st.conns
         else
           && n < |st.conns| && Reusable(st.conns[n]) && OnlyDiffersAt(st.conns, r.conns, n)
           && var c := r.conns[n];
              && c.ripaddr == ip && c.rport == rport && c.sndNxt == st.iss
              && c.Is(SYN_SENT) && c.len == 1 && c.nrtx == 0 && c.timer == 1 && c.mss == c.initialmss == m
              && (st.lastport < c.lport < 32000 || 4096 <= c.lport < 32000)
              && (forall j :: 0 <= j < |st.conns| && Live(st.conns[j]) ==> st.conns[j].lport != c.lport)
  {
    StepKeepsSound(m, listening, st, Dial(ip, rport));
    ChosenSlot(st.conns);
    PortSearchSucceeds(st.conns, st.lastport);
    SearchedPort(st.conns, st.lastport, |st.conns|);
  }

  /** What comes back from that host and port to the local port is given to the new connection. */
  lemma AnswerFindsDialer(m: u16, listening: seq<u16>, st: Stack, ip: u32, rport: u16, p: Packet, r: Reply)
    requires Sound(m, st) && exists j :: 0 <= j < |st.conns| && Reusable(st.conns[j])
    requires Choice(st.conns) < |st.conns| && p.srcip == ip && p.srcport == rport != 0
    requires p.destport == TableStep(m, listening, st, Dial(ip, rport)).conns[Choice(st.conns)].lport
    ensures
      var st', n := TableStep(m, listening, st, Dial(ip, rport)), Choice(st.conns);
      && n < |st'.conns|
      && TableStep(m, listening, st', Incoming(p, r)).conns == st'.conns[n := Input(m, st'.conns[n], p.seg, r).conn]
  {
    DialOpens(m, listening, st, ip, rport);
    var st' := TableStep(m, listening, st, Dial(ip, rport));
    FirstMatchIsOnlyMatch(st'.conns, PacketKey(p), Choice(st.conns));
  }

  /** A live connection of this table that the packet belongs to: its remote address, its remote and its local port. */
  predicate BelongsTo(p: Packet, c: Conn) {
    !c.Is(CLOSED) && c.ripaddr == p.srcip && c.rport == p.srcport && c.lport == p.destport
  }

  predicate AsksForService(listening: seq<u16>, p: Packet) {
    p.seg.flags == Flags(syn := true) && p.destport in listening
  }

  lemma BelongsMeansFirst(t: seq<Conn>, p: Packet)
    requires Unambiguous(t)
    ensures forall i :: 0 <= i < |t| && BelongsTo(p, t[i]) ==> FirstMatch(t, PacketKey(p)) == i
    ensures (forall i :: 0 <= i < |t| ==> !BelongsTo(p, t[i])) ==> FirstMatch(t, PacketKey(p)) == |t|
  {
    forall i | 0 <= i < |t| && BelongsTo(p, t[i]) ensures FirstMatch(t, PacketKey(p)) == i {
      FirstMatchIsOnlyMatch(t, PacketKey(p), i);
    }
    var n := FirstMatch(t, PacketKey(p));
    if n < |t| { assert BelongsTo(p, t[n]); }
  }

  /** A packet of a live connection is seen by that connection alone, and its answer is sent. */
  lemma IncomingIsDelivered(m: u16, listening: seq<u16>, st: Stack, p: Packet, i: nat, r: Reply)
    requires Sound(m, st) && p.srcport != 0 && p.destport != 0 && i < |st.conns| && BelongsTo(p, st.conns[i])
    ensures
      var o := Input(m, st.conns[i], p.seg, r);
      && Demultiplex(m, st, listening, p, Choice(st.conns), r) == (st.(conns := st.conns[i := o.conn]), o.sent)
      && TableStep(m, listening, st, Incoming(p, r)) == st.(conns := st.conns[i := o.conn])
  {
    BelongsMeansFirst(st.conns, p);
  }

  /**
    A packet of no connection that asks for a port that is listened on opens one to its sender in the chosen slot,
    unless there is none; every other one is refused by a reset.
   */
  lemma StrangerOpensOrIsRefused(m: u16, listening: seq<u16>, st: Stack, p: Packet, r: Reply)
    requires Sound(m, st) && p.srcport != 0 && p.destport != 0
    requires forall i :: 0 <= i < |st.conns| ==> !BelongsTo(p, st.conns[i])
    ensures
      var n := Choice(st.conns);
      var (st', sent) := Demultiplex(m, st, listening, p, n, r);
      && TableStep(m, listening, st, Incoming(p, r)) == st' && st'.iss == st.iss && st'.lastport == st.lastport
      && if !AsksForService(listening, p) then st'.conns == st.conns && sent == ResetFor(p.seg)
         else if forall j :: 0 <= j < |st.conns| ==> !Reusable(st.conns[j]) then st'.conns == st.conns && sent == None
         else
           && n < |st.conns| && Reusable(st.conns[n]) && OnlyDiffersAt(st.conns, st'.conns, n)
           && BelongsTo(p, st'.conns[n]) && st'.conns[n].Is(SYN_RCVD) && st'.conns[n].sndNxt == st.iss
           && sent == PassiveOpen(m, st.conns[n], st.iss, p.srcip, p.destport, p.srcport, p.seg).sent
  {
    ChosenSlot(st.conns);
    BelongsMeansFirst(st.conns, p);
  }

  /** Packets from or to port 0 are dropped; a periodic call moves the initial sequence number on and ticks one slot. */
  lemma OtherStepsMean(m: u16, listening: seq<u16>, st: Stack, p: Packet, i: nat, r: Reply)
    ensures p.srcport == 0 || p.destport == 0 ==> Demultiplex(m, st, listening, p, Choice(st.conns), r) == (st, None)
    ensures i < |st.conns| ==>
      var st' := TableStep(m, listening, st, Periodic(i, r));
      && st'.iss == (if st.iss == 0xffff_ffff then 0 else st.iss + 1) && st'.lastport == st.lastport
      && st'.conns == st.conns[i := Timer(m, st.conns[i], r).conn]
  {
  }
}
