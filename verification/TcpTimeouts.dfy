/** How long a connection can live: the exact give-up time and the bound on teardown. */
module TcpTimeouts {
  import opened Bytes
  import opened Tcp
  import opened TcpInvariant

  // ---- Giving up on a silent peer ----

  /** States that wait for an acknowledgement with the retransmission timer running. */
  predicate Waiting(c: Conn) {
    c.len > 0 && c.state in {SYN_SENT, SYN_RCVD, ESTABLISHED, FIN_WAIT_1, CLOSING, LAST_ACK}
  }

  function Limit(c: Conn): byte {
    if c.state in {SYN_SENT, SYN_RCVD} then UIP_MAXSYNRTX else UIP_MAXRTX
  }

  /** Ticks spent in the back-off periods n, n + 1, ... up to the limit. */
  function BackoffTicks(limit: byte, n: byte): nat
    decreases limit - n
  {
    if n >= limit then 0 else Backoff(n) + 1 + BackoffTicks(limit, n + 1)
  }

  /** The tick at which a waiting connection gives up. */
  function Remaining(c: Conn): nat { c.timer + 1 + BackoffTicks(Limit(c), c.nrtx) }

  function Ticks(m: u16, c: Conn, rs: seq<Reply>): Conn
    decreases rs
  {
    if rs == [] then c else Ticks(m, Timer(m, c, rs[0]).conn, rs[1..])
  }

  /** The segment repeats what waits for its acknowledgement; in ESTABLISHED that is what the application hands over again. */
  predicate Repeats(m: u16, c: Conn, g: Segment, r: Reply) {
    && g.seqno == c.sndNxt && g.ackno == c.rcvNxt
    && match c.state
       case SYN_SENT => g.flags == Flags(syn := true) && g.mss == Some(m) && g.data == []
       case SYN_RCVD => g.flags == Flags(syn := true, ack := true) && g.mss == Some(m) && g.data == []
       case ESTABLISHED => g.flags == Flags(psh := true, ack := true) && r.slen > 0 && g.data == Take(r.area, c.len)
       case FIN_WAIT_1 | CLOSING | LAST_ACK => g.flags == Flags(fin := true, ack := true) && g.data == []
       case _ => false
  }

  /** How many of the ticks send what is outstanding once more. */
  function Retransmissions(m: u16, c: Conn, rs: seq<Reply>): nat
    decreases rs
  {
    if rs == [] then 0
    else
      var o := Timer(m, c, rs[0]);
      (if o.sent.Some? && Repeats(m, c, o.sent.value, rs[0]) then 1 else 0) + Retransmissions(m, o.conn, rs[1..])
  }

  /** How many of the ticks send anything. */
  function Sendings(m: u16, c: Conn, rs: seq<Reply>): nat
    decreases rs
  {
    if rs == [] then 0
    else (if Timer(m, c, rs[0]).sent.Some? then 1 else 0) + Sendings(m, Timer(m, c, rs[0]).conn, rs[1..])
  }

  /** An established connection is given its data again whenever it asks for them. */
  predicate HandsOver(c: Conn, rs: seq<Reply>) {
    c.state == ESTABLISHED ==> forall i :: 0 <= i < |rs| ==> rs[i].slen > 0
  }

  lemma BackoffTotals()
    ensures BackoffTicks(UIP_MAXRTX, 0) == 245
    ensures BackoffTicks(UIP_MAXSYNRTX, 0) == 98
  {
  }

  lemma SilentTick(m: u16, c: Conn, r: Reply)
    requires Valid(m, c) && Waiting(c)
    ensures
      var o := Timer(m, c, r);
      if Remaining(c) == 1 then
        o.conn.state == CLOSED && o.call == Some(Callback(timedout := true, mss := c.mss))
      else
        && Waiting(o.conn) && o.conn.state == c.state && Remaining(o.conn) == Remaining(c) - 1
        && o.conn.nrtx == c.nrtx + (if c.timer == 0 then 1 else 0)
        && (GivesUp(c) ==> c.timer > 0)
  {
  }

  /**
    What a tick of a waiting connection says: nothing before the timer has run down; then what is outstanding, asking
    the application for it in ESTABLISHED; and a reset when it gives up.
   */
  lemma WaitingTickSends(m: u16, c: Conn, r: Reply)
    requires Valid(m, c) && Waiting(c)
    ensures
      var o := Timer(m, c, r);
      if c.timer > 0 then o.sent == None && o.call == None && o.conn == c.(timer := c.timer - 1)
      else if Remaining(c) == 1 then
        && o.sent.Some? && o.sent.value.flags == Flags(rst := true, ack := true) && o.sent.value.data == []
        && o.sent.value.seqno == c.sndNxt && o.sent.value.ackno == c.rcvNxt
      else if c.state != ESTABLISHED then o.sent.Some? && Repeats(m, c, o.sent.value, r) && o.call == None
      else
        && o.call == Some(Callback(rexmit := true, mss := c.mss)) && o.conn.len == c.len
        && o.conn.stopped == (match r.flow case Keep => c.stopped case Stop => true case Restart => false)
        && if r.slen > 0 then o.sent.Some? && Repeats(m, c, o.sent.value, r)
           else if r.restarted then o.sent.Some? && o.sent.value.flags == Flags(ack := true) && o.sent.value.data == []
           else o.sent == None
  {
  }

  /**
    With a silent peer the connection stays as it is for Remaining(c) - 1 ticks and is closed by the next, having sent
    what is outstanding once for every step of nrtx up to the limit, and nothing else but a final reset.
   */
  lemma {:induction false} GivesUpExactly(m: u16, c: Conn, rs: seq<Reply>)
    requires Valid(m, c) && Waiting(c) && |rs| <= Remaining(c)
    ensures |rs| < Remaining(c) ==> Waiting(Ticks(m, c, rs)) && Ticks(m, c, rs).state == c.state
    ensures |rs| < Remaining(c) && HandsOver(c, rs) ==> Sendings(m, c, rs) == Retransmissions(m, c, rs)
    ensures |rs| == Remaining(c) ==> Ticks(m, c, rs).state == CLOSED
    ensures |rs| == Remaining(c) && HandsOver(c, rs) ==>
              Retransmissions(m, c, rs) == Limit(c) - c.nrtx && Sendings(m, c, rs) == Retransmissions(m, c, rs) + 1
    decreases rs
  {
    if rs != [] {
      SilentTick(m, c, rs[0]);
      WaitingTickSends(m, c, rs[0]);
      TimerKeepsValid(m, c, rs[0]);
      var c' := Timer(m, c, rs[0]).conn;
      if Remaining(c) > 1 {
        GivesUpExactly(m, c', rs[1..]);
        assert HandsOver(c, rs) ==> HandsOver(c', rs[1..]);
      } else {
        assert |rs| == 1 ==> rs[1..] == [];
      }
    }
  }

  /** t0 + 246 ticks and 8 retransmissions for data, t0 + 99 and 5 for a SYN; 100 and 102 after an open. */
  lemma GiveUpTimes(m: u16, c: Conn, iss: u32, ip: u32, lp: u16, rp: u16, syn: Segment)
    requires Valid(m, c) && Waiting(c) && c.nrtx == 0
    ensures c.state in {ESTABLISHED, FIN_WAIT_1, CLOSING, LAST_ACK} ==> Remaining(c) == c.timer + 246
    ensures c.state in {SYN_SENT, SYN_RCVD} ==> Remaining(c) == c.timer + 99
    ensures Remaining(ActiveOpen(m, c, iss, ip, lp, rp)) == 100
    ensures Remaining(PassiveOpen(m, c, iss, ip, lp, rp, syn).conn) == 102
  {
  }

  // ---- Teardown against any peer ----

  predicate TearingDown(c: Conn) {
    c.state in {FIN_WAIT_1, FIN_WAIT_2, CLOSING, TIME_WAIT, LAST_ACK}
  }

  /** Ticks of FIN_WAIT_2: its 8-bit timer counts up to the limit and may wrap once to get there. */
  function FinWait2Ticks(timer: byte): nat { if timer < 120 then 120 - timer else 376 - timer }

  /** An upper bound on the ticks until the slot is free. */
  function Budget(c: Conn): nat {
    match c.state
    case FIN_WAIT_1 | CLOSING => Remaining(c) + 256 + 120
    case FIN_WAIT_2 => FinWait2Ticks(c.timer) + 120
    case TIME_WAIT => if c.timer < 120 then 120 - c.timer else 0
    case LAST_ACK => Remaining(c)
    case _ => 0
  }

  lemma {:induction false} BackoffBounded(n: byte)
    requires n <= UIP_MAXRTX
    ensures BackoffTicks(UIP_MAXRTX, n) <= 245
    decreases n
  {
    BackoffTotals();
    if n > 0 { BackoffBounded(n - 1); }
  }

  lemma BudgetBounded(m: u16, c: Conn)
    requires Valid(m, c) && TearingDown(c)
    ensures Budget(c) <= 877
    ensures c.state == LAST_ACK ==> Budget(c) <= 501
    ensures c.state == FIN_WAIT_2 ==> Budget(c) <= 376
    ensures c.state == TIME_WAIT ==> Budget(c) <= 120
  {
    BackoffBounded(c.nrtx);
  }

  // ---- Each phase of a teardown ----

  /** FIN_WAIT_1 and CLOSING wait for the same acknowledgement. */
  function Phase(s: State): nat {
    match s
    case FIN_WAIT_1 | CLOSING => 1
    case FIN_WAIT_2 => 2
    case TIME_WAIT => 3
    case LAST_ACK => 4
    case _ => 0
  }

  /** An upper bound on the ticks until the phase ends. */
  function PhaseLeft(c: Conn): nat {
    match c.state
    case FIN_WAIT_1 | CLOSING | LAST_ACK => Remaining(c)
    case FIN_WAIT_2 => FinWait2Ticks(c.timer)
    case TIME_WAIT => if c.timer < 120 then 120 - c.timer else 0
    case _ => 0
  }

  /** At some point of the run the slot is not in the given phase. */
  predicate Leaves(m: u16, c: Conn, es: seq<SlotEvent>, phase: nat)
    decreases es
  {
    Phase(c.state) != phase || (es != [] && Leaves(m, SlotStep(m, c, es[0]), es[1..], phase))
  }

  lemma PhaseBounded(m: u16, c: Conn)
    requires Valid(m, c) && TearingDown(c)
    ensures 0 < PhaseLeft(c) <= match c.state case FIN_WAIT_2 => 256 case TIME_WAIT => 120 case _ => 501
  {
    BackoffBounded(c.nrtx);
  }

  lemma TickEndsPhase(m: u16, c: Conn, r: Reply)
    requires Valid(m, c) && TearingDown(c) && (c.state == TIME_WAIT ==> !c.stopped)
    ensures
      var c' := Timer(m, c, r).conn;
      c'.state == CLOSED || (c'.state == c.state && c'.stopped == c.stopped && PhaseLeft(c') < PhaseLeft(c))
  {
    if c.state in {FIN_WAIT_1, CLOSING, LAST_ACK} { SilentTick(m, c, r); }
  }

  /** No segment whatever makes a phase longer. */
  lemma ArrivalKeepsPhase(m: u16, c: Conn, s: Segment, r: Reply)
    requires Valid(m, c) && TearingDown(c) && (c.state == TIME_WAIT ==> !c.stopped)
    ensures
      var c' := Input(m, c, s, r).conn;
      Phase(c'.state) == Phase(c.state) ==> PhaseLeft(c') == PhaseLeft(c) && (c'.state == TIME_WAIT ==> !c'.stopped)
  {
    AckStageFrame(c, s);
  }

  /** Against any peer, FIN_WAIT_1 and CLOSING, FIN_WAIT_2, TIME_WAIT and LAST_ACK each end within their bound. */
  lemma {:induction false} PhaseEnds(m: u16, c: Conn, es: seq<SlotEvent>)
    requires Valid(m, c) && PossibleRun(m, c, es) && TearingDown(c) && (c.state == TIME_WAIT ==> !c.stopped)
    requires TickCount(es) >= PhaseLeft(c)
    ensures Leaves(m, c, es, Phase(c.state))
    decreases es
  {
    PhaseBounded(m, c);
    assert es != [];
    StepKeepsValid(m, c, es[0]);
    var c' := SlotStep(m, c, es[0]);
    match es[0] {
      case Tick(r) => TickEndsPhase(m, c, r);
      case Arrival(s, r) => ArrivalKeepsPhase(m, c, s, r);
      case Connect(_, _, _, _) =>
      case Listen(_, _, _, _, _) =>
    }
    if Phase(c'.state) == Phase(c.state) { PhaseEnds(m, c', es[1..]); }
  }

  /** Left alone, FIN_WAIT_2 and TIME_WAIT end at one exact tick, and say and report nothing. */
  lemma {:induction false} WaitsExactly(m: u16, c: Conn, rs: seq<Reply>)
    requires (c.Is(FIN_WAIT_2) || c.Is(TIME_WAIT)) && |rs| <= FinWait2Ticks(c.timer)
    ensures
      var c' := Ticks(m, c, rs);
      if |rs| < FinWait2Ticks(c.timer) then c'.Is(c.state) && FinWait2Ticks(c'.timer) == FinWait2Ticks(c.timer) - |rs| else c'.Is(CLOSED)
    ensures Sendings(m, c, rs) == 0
    decreases rs
  {
    if rs != [] {
      var o := Timer(m, c, rs[0]);
      assert o.sent == None && o.call == None;
      if FinWait2Ticks(c.timer) > 1 {
        WaitsExactly(m, o.conn, rs[1..]);
      } else {
        assert rs[1..] == [];
      }
    }
  }

  // ---- The whole teardown ----

  /** A slot that uip_stop() has kept from being free: none of the comparisons with a whole state matches it. */
  predicate Halted(c: Conn) { c.stopped && c.state in {TIME_WAIT, CLOSED} }

  /** The event is answered by uip_stop() in a callback after which nothing clears UIP_STOPPED. */
  predicate Halts(c: Conn, e: SlotEvent) {
    match e
    case Tick(r) => r.flow == Stop && c.len > 0 && c.timer == 0 && GivesUp(c)
    case Arrival(s, r) =>
      r.flow == Stop
      && (s.flags.rst
          || (InSequence(c, s)
              && match c.state
                 case FIN_WAIT_1 => s.flags.fin && Acks(c, s)
                 case FIN_WAIT_2 => s.flags.fin
                 case LAST_ACK => Acks(c, s)
                 case _ => false))
    case Connect(_, _, _, _) => false
    case Listen(_, _, _, _, _) => false
  }

  /** A closing slot becomes halted by an event exactly if that event halts it. */
  lemma HaltedExactly(m: u16, c: Conn, e: SlotEvent)
    requires Valid(m, c) && Possible(c, e) && TearingDown(c) && !Halted(c)
    ensures Halted(SlotStep(m, c, e)) <==> Halts(c, e)
  {
    match e
    case Tick(r) => if c.len > 0 { SilentTick(m, c, r); }
    case Arrival(s, r) => AckStageFrame(c, s);
    case Connect(_, _, _, _) =>
    case Listen(_, _, _, _, _) =>
  }

  /** No event halts the slot before it is free or taken over. */
  predicate Unhalted(m: u16, c: Conn, es: seq<SlotEvent>)
    decreases es
  {
    es != [] && !c.Is(CLOSED) && !es[0].Connect? && !es[0].Listen? ==>
      !Halts(c, es[0]) && Unhalted(m, SlotStep(m, c, es[0]), es[1..])
  }

  /** The slot becomes free, or is taken over, at some point of the run. */
  predicate Frees(m: u16, c: Conn, es: seq<SlotEvent>)
    decreases es
  {
    c.Is(CLOSED) || (es != [] && (es[0].Connect? || es[0].Listen? || Frees(m, SlotStep(m, c, es[0]), es[1..])))
  }

  function TickCount(es: seq<SlotEvent>): nat {
    if es == [] then 0 else (if es[0].Tick? then 1 else 0) + TickCount(es[1..])
  }

  lemma TickSpendsBudget(m: u16, c: Conn, r: Reply)
    requires Valid(m, c) && TearingDown(c) && !Halted(c)
    ensures
      var c' := Timer(m, c, r).conn;
      c'.state == CLOSED || (c'.state == c.state && Budget(c') < Budget(c))
  {
    TickEndsPhase(m, c, r);
  }

  /** Nothing that arrives can lengthen a teardown. */
  lemma ArrivalKeepsBudget(m: u16, c: Conn, s: Segment, r: Reply)
    requires Valid(m, c) && TearingDown(c) && !Halted(c)
    ensures
      var c' := Input(m, c, s, r).conn;
      c'.state == CLOSED || (TearingDown(c') && Budget(c') <= Budget(c))
  {
    AckStageFrame(c, s);
    assert !Acks(c, s) ==> AckStage(c, s) == c;
  }

  /** Whatever arrives, a closing slot that is not halted is free or reused once its budget of ticks has passed. */
  lemma {:induction false} TeardownIsBounded(m: u16, c: Conn, es: seq<SlotEvent>)
    requires Valid(m, c) && PossibleRun(m, c, es)
    requires TearingDown(c) && !Halted(c) && Unhalted(m, c, es)
    requires TickCount(es) >= Budget(c)
    ensures Frees(m, c, es)
    decreases es
  {
    BudgetPositive(m, c);
    assert es != [];
    var e := es[0];
    StepKeepsValid(m, c, e);
    HaltedExactly(m, c, e);
    var c' := SlotStep(m, c, e);
    match e
    case Tick(r) =>
      TickSpendsBudget(m, c, r);
      if c'.state != CLOSED { TeardownIsBounded(m, c', es[1..]); }
    case Arrival(s, r) =>
      ArrivalKeepsBudget(m, c, s, r);
      if c'.state != CLOSED { TeardownIsBounded(m, c', es[1..]); }
    case Connect(_, _, _, _) =>
    case Listen(_, _, _, _, _) =>
  }

  lemma BudgetPositive(m: u16, c: Conn)
    requires Valid(m, c) && TearingDown(c)
    ensures Budget(c) > 0
  {
  }

  lemma SlotFreeAfter877Ticks(m: u16, c: Conn, es: seq<SlotEvent>)
    requires Valid(m, c) && PossibleRun(m, c, es)
    requires TearingDown(c) && !Halted(c) && Unhalted(m, c, es)
    requires TickCount(es) >= 877
    ensures Frees(m, c, es)
  {
    BudgetBounded(m, c);
    TeardownIsBounded(m, c, es);
  }

  // ---- Halted slots ----

  /** A halted slot without anything outstanding: only a reset can still free it. */
  predicate Stuck(c: Conn) { Halted(c) && c.len == 0 }

  predicate IsReset(e: SlotEvent) { e.Arrival? && e.s.flags.rst }

  lemma {:induction false} StuckForever(m: u16, c: Conn, es: seq<SlotEvent>)
    requires Stuck(c) && PossibleRun(m, c, es)
    requires forall e :: e in es ==> !IsReset(e)
    ensures Stuck(SlotRun(m, c, es)) && !Frees(m, c, es)
    decreases es
  {
    if es != [] {
      assert !IsReset(es[0]);
      var c' := SlotStep(m, c, es[0]);
      assert Stuck(c');
      StuckForever(m, c', es[1..]);
    }
  }

  /** A closing slot gets stuck by exactly those arrivals that halt it with nothing left outstanding. */
  lemma StopFromCloseCallback(m: u16, c: Conn, s: Segment, r: Reply)
    requires Valid(m, c) && TearingDown(c) && !Halted(c)
    ensures Stuck(Input(m, c, s, r).conn) <==> Halts(c, Arrival(s, r)) && (s.flags.rst ==> c.len == 0)
  {
    AckStageFrame(c, s);
  }

  /** Its timer does not even count. */
  lemma StuckDoesNotTick(m: u16, c: Conn, r: Reply)
    requires Stuck(c)
    ensures Timer(m, c, r) == Out(c, None, None)
  {
  }

  /** The event frees a halted slot: a reset, or a timeout, whose callback is not answered by uip_stop(). */
  predicate Releases(c: Conn, e: SlotEvent) {
    match e
    case Tick(r) => r.flow != Stop && c.len > 0 && c.timer == 0 && GivesUp(c)
    case Arrival(s, r) => r.flow != Stop && s.flags.rst
    case Connect(_, _, _, _) => false
    case Listen(_, _, _, _, _) => false
  }

  lemma ReleasedExactly(m: u16, c: Conn, e: SlotEvent)
    requires Valid(m, c) && Possible(c, e) && Halted(c)
    ensures var c' := SlotStep(m, c, e); if Releases(c, e) then c'.Is(CLOSED) else Halted(c')
  {
    match e
    case Tick(r) => if c.len > 0 { UndeadTick(m, c, r); }
    case Arrival(s, r) => AckStageFrame(c, s);
    case Connect(_, _, _, _) =>
    case Listen(_, _, _, _, _) =>
  }

  predicate NeverReleased(m: u16, c: Conn, es: seq<SlotEvent>)
    decreases es
  {
    es != [] ==> !Releases(c, es[0]) && NeverReleased(m, SlotStep(m, c, es[0]), es[1..])
  }

  /** Some event halts the slot before it is free or taken over, and no later one releases it. */
  predicate Lost(m: u16, c: Conn, es: seq<SlotEvent>)
    decreases es
  {
    && es != [] && !c.Is(CLOSED) && !es[0].Connect? && !es[0].Listen?
    && var c' := SlotStep(m, c, es[0]);
       if Halts(c, es[0]) then NeverReleased(m, c', es[1..]) else Lost(m, c', es[1..])
  }

  lemma {:induction false} HaltedFreesExactly(m: u16, c: Conn, es: seq<SlotEvent>)
    requires Valid(m, c) && PossibleRun(m, c, es) && Halted(c)
    ensures Frees(m, c, es) <==> !NeverReleased(m, c, es)
    decreases es
  {
    if es != [] {
      ReleasedExactly(m, c, es[0]);
      if !Releases(c, es[0]) {
        StepKeepsValid(m, c, es[0]);
        HaltedFreesExactly(m, SlotStep(m, c, es[0]), es[1..]);
      }
    }
  }

  /** Against any peer and any application: after its budget of ticks a closing slot is free or reused unless it is lost. */
  lemma {:induction false} FreesExactly(m: u16, c: Conn, es: seq<SlotEvent>)
    requires Valid(m, c) && PossibleRun(m, c, es)
    requires TearingDown(c) && !Halted(c) && TickCount(es) >= Budget(c)
    ensures Frees(m, c, es) <==> !Lost(m, c, es)
    decreases es
  {
    BudgetPositive(m, c);
    assert es != [];
    var e := es[0];
    var c' := SlotStep(m, c, e);
    StepKeepsValid(m, c, e);
    HaltedExactly(m, c, e);
    match e {
      case Tick(r) => TickSpendsBudget(m, c, r);
      case Arrival(s, r) => ArrivalKeepsBudget(m, c, s, r);
      case Connect(_, _, _, _) =>
      case Listen(_, _, _, _, _) =>
    }
    if !e.Connect? && !e.Listen? {
      if Halted(c') {
        HaltedFreesExactly(m, c', es[1..]);
      } else if c'.state != CLOSED {
        FreesExactly(m, c', es[1..]);
      }
    }
  }

  /** A halted slot with something outstanding goes on counting as if it had a peer. */
  predicate Undead(c: Conn) { Halted(c) && c.len > 0 }

  /** How a slot gets there: timed out or reset with something outstanding, and answered by uip_stop(). */
  lemma UndeadExactly(m: u16, c: Conn, e: SlotEvent)
    requires Valid(m, c) && Possible(c, e) && TearingDown(c) && !Halted(c)
    ensures Undead(SlotStep(m, c, e)) <==> Halts(c, e) && (e.Tick? || (e.s.flags.rst && c.len > 0))
  {
    HaltedExactly(m, c, e);
    match e
    case Tick(r) => if c.len > 0 { SilentTick(m, c, r); }
    case Arrival(s, r) => AckStageFrame(c, s);
    case Connect(_, _, _, _) =>
    case Listen(_, _, _, _, _) =>
  }

  /** A tick brings it nearer to another timeout, whose callback decides whether it is free at last. */
  lemma UndeadTick(m: u16, c: Conn, r: Reply)
    requires Valid(m, c) && Undead(c)
    ensures
      var c' := Timer(m, c, r).conn;
      if Remaining(c) > 1 then Undead(c') && Remaining(c') == Remaining(c) - 1
      else if r.flow == Stop then Undead(c') && Remaining(c') == 256 else c'.Is(CLOSED)
  {
  }

  /** An arrival frees it by a reset, makes it stuck by an acknowledgement, and otherwise changes nothing. */
  lemma UndeadArrival(m: u16, c: Conn, s: Segment, r: Reply)
    requires Valid(m, c) && Undead(c)
    ensures
      var c' := Input(m, c, s, r).conn;
      if s.flags.rst then (if r.flow == Stop then Undead(c') && Remaining(c') == Remaining(c) else c'.Is(CLOSED))
      else if InSequence(c, s) && Acks(c, s) then Stuck(c') else c' == c
  {
    AckStageFrame(c, s);
  }

  /** Alone with its timer it is free after at most 501 ticks if and only if the timeout is not answered by uip_stop(). */
  lemma {:induction false} UndeadAlone(m: u16, c: Conn, rs: seq<Reply>)
    requires Valid(m, c) && Undead(c) && |rs| == Remaining(c)
    ensures |rs| <= 501
    ensures Ticks(m, c, rs).Is(CLOSED) <==> rs[|rs| - 1].flow != Stop
    decreases rs
  {
    BackoffBounded(c.nrtx);
    UndeadTick(m, c, rs[0]);
    TimerKeepsValid(m, c, rs[0]);
    var c' := Timer(m, c, rs[0]).conn;
    if Remaining(c) > 1 {
      UndeadAlone(m, c', rs[1..]);
    } else {
      assert rs[1..] == [];
    }
  }

  /** And it never is if every timeout is. */
  lemma {:induction false} UndeadForever(m: u16, c: Conn, rs: seq<Reply>)
    requires Valid(m, c) && Undead(c) && forall i :: 0 <= i < |rs| ==> rs[i].flow == Stop
    ensures Undead(Ticks(m, c, rs))
    decreases rs
  {
    if rs != [] {
      UndeadTick(m, c, rs[0]);
      TimerKeepsValid(m, c, rs[0]);
      UndeadForever(m, Timer(m, c, rs[0]).conn, rs[1..]);
    }
  }
}
