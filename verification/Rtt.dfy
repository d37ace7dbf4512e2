/** The round-trip estimator stays inside its bytes and equals the unbounded recurrence. */
module RttEstimator {
  import opened Bytes
  import opened Tcp
  import opened TcpInvariant

  /** Jacobson's recurrence over the integers, scaled by 8 and 4. */
  datatype Estimator = Estimator(sa: int, sv: int, rto: int)

  function Abs(x: int): int { if x < 0 then -x else x }

  function Jacobson(e: Estimator, sample: int): Estimator {
    var err := sample - e.sa / 8;
    var sa := e.sa + err;
    var sv := e.sv + Abs(err) - e.sv / 4;
    Estimator(sa, sv, sa / 8 + sv)
  }

  function View(c: Conn): Estimator { Estimator(c.sa, c.sv, c.rto) }

  predicate Within(b: int, e: Estimator) {
    0 <= e.sa <= 8 * b + 7 && 3 <= e.sv <= 4 * b + 3 && 3 <= e.rto <= 5 * b + 3
  }

  lemma StepWithin(b: int, e: Estimator, sample: int)
    requires 4 <= b <= 31 && Within(b, e) && 0 <= sample <= b
    ensures Within(b, Jacobson(e, sample))
  {
  }

  /** The 8-bit code, on the timer as the acknowledgement finds it. */
  lemma StepExact(b: int, c: Conn)
    requires 4 <= b <= 31 && Within(b, View(c)) && 0 <= c.rto - c.timer <= b
    ensures View(Estimate(c)) == Jacobson(View(c), c.rto - c.timer)
  {
    StepWithin(b, View(c), c.rto - c.timer);
  }

  // ---- Runs of a connection ----

  /** The round-trip time an event measures: that of an acknowledged segment that was sent only once. */
  function Sample(c: Conn, e: SlotEvent): Option<int> {
    if e.Arrival? && !e.s.flags.rst && InSequence(c, e.s) && Acks(c, e.s) && c.nrtx == 0 then Some(c.rto - c.timer)
    else None
  }

  /** Jacobson's estimator over the same event. */
  function Ideal(x: Estimator, c: Conn, e: SlotEvent): Estimator {
    match e
    case Connect(_, _, _, _) => Estimator(0, 16, 3)
    case Listen(_, _, _, _, _) => Estimator(0, 4, 3)
    case _ => match Sample(c, e) case None => x case Some(sample) => Jacobson(x, sample)
  }

  function IdealRun(x: Estimator, m: u16, c: Conn, es: seq<SlotEvent>): Estimator
    decreases es
  {
    if es == [] then x else IdealRun(Ideal(x, c, es[0]), m, SlotStep(m, c, es[0]), es[1..])
  }

  /** Every sample the run takes lies in 0..b. */
  predicate SamplesWithin(b: int, m: u16, c: Conn, es: seq<SlotEvent>)
    decreases es
  {
    es != [] ==>
      (match Sample(c, es[0]) case None => true case Some(x) => 0 <= x <= b)
      && SamplesWithin(b, m, SlotStep(m, c, es[0]), es[1..])
  }

  lemma AppSendKeepsEstimator(m: u16, r: Reply)
    ensures forall c, cb :: View(AppSend(m, c, cb, r).conn) == View(c)
  {
  }

  lemma DispatchKeepsEstimator(m: u16, c: Conn, s: Segment, acked: bool, r: Reply)
    ensures View(Dispatch(m, c, s, acked, r).conn) == View(c)
  {
    AppSendKeepsEstimator(m, r);
  }

  lemma TimerKeepsEstimator(m: u16, c: Conn, r: Reply)
    ensures View(Timer(m, c, r).conn) == View(c)
  {
  }

  lemma ArrivalIsExact(b: int, m: u16, c: Conn, s: Segment, r: Reply)
    requires 4 <= b <= 31 && Within(b, View(c)) && SamplesWithin(b, m, c, [Arrival(s, r)])
    ensures View(Input(m, c, s, r).conn) == Ideal(View(c), c, Arrival(s, r))
  {
    if !s.flags.rst && InSequence(c, s) {
      DispatchKeepsEstimator(m, AckStage(c, s), s, Acks(c, s), r);
      if Acks(c, s) && c.nrtx == 0 { AckStageMeasures(b, c, s); }
    }
  }

  lemma AckStageMeasures(b: int, c: Conn, s: Segment)
    requires 4 <= b <= 31 && Within(b, View(c)) && Acks(c, s) && c.nrtx == 0 && 0 <= c.rto - c.timer <= b
    ensures View(AckStage(c, s)) == Jacobson(View(c), c.rto - c.timer)
  {
    StepExact(b, c.(sndNxt := s.ackno));
  }

  lemma StepFollowsIdeal(b: int, m: u16, c: Conn, e: SlotEvent)
    requires 4 <= b <= 31 && Within(b, View(c)) && SamplesWithin(b, m, c, [e])
    ensures View(SlotStep(m, c, e)) == Ideal(View(c), c, e) && Within(b, View(SlotStep(m, c, e)))
  {
    match e
    case Tick(r) => TimerKeepsEstimator(m, c, r);
    case Arrival(s, r) =>
      ArrivalIsExact(b, m, c, s, r);
      if Sample(c, e).Some? { StepWithin(b, View(c), Sample(c, e).value); }
    case Connect(iss, ip, lp, rp) => StartsWithin(b, m, c, iss, ip, lp, rp, Segment(0, 0, SYN, 0, None, []));
    case Listen(iss, ip, lp, rp, syn) => StartsWithin(b, m, c, iss, ip, lp, rp, syn);
  }

  /**
    Over every run of a connection whose samples lie in 0..b, 4 <= b <= 31, no byte and no signed char ever
    wraps: the code follows the unbounded recurrence and stays within bounds.
   */
  lemma {:induction false} EstimatorIsExact(b: int, m: u16, c: Conn, es: seq<SlotEvent>)
    requires 4 <= b <= 31 && Within(b, View(c)) && SamplesWithin(b, m, c, es)
    ensures View(SlotRun(m, c, es)) == IdealRun(View(c), m, c, es)
    ensures Within(b, View(SlotRun(m, c, es)))
    decreases es
  {
    if es != [] {
      StepFollowsIdeal(b, m, c, es[0]);
      EstimatorIsExact(b, m, SlotStep(m, c, es[0]), es[1..]);
    }
  }

  lemma StartsWithin(b: int, m: u16, c: Conn, iss: u32, ip: u32, lp: u16, rp: u16, syn: Segment)
    requires 4 <= b <= 31
    ensures Within(b, View(ActiveOpen(m, c, iss, ip, lp, rp)))
    ensures Within(b, View(PassiveOpen(m, c, iss, ip, lp, rp, syn).conn))
  {
  }

  /** In particular from the moment a slot is opened, whatever it held before. */
  lemma OpenedSlotIsExact(b: int, m: u16, c: Conn, open: SlotEvent, es: seq<SlotEvent>)
    requires 4 <= b <= 31 && (open.Connect? || open.Listen?) && SamplesWithin(b, m, SlotStep(m, c, open), es)
    ensures
      var c0 := SlotStep(m, c, open);
      && Within(b, View(SlotRun(m, c0, es)))
      && View(SlotRun(m, c0, es)) == IdealRun(Estimator(0, if open.Connect? then 16 else 4, 3), m, c0, es)
  {
    var syn := if open.Listen? then open.syn else Segment(0, 0, SYN, 0, None, []);
    StartsWithin(b, m, c, open.iss, open.ripaddr, open.lport, open.rport, syn);
    EstimatorIsExact(b, m, SlotStep(m, c, open), es);
  }
}
